/**
 * app.py: turning raw user records into table rows, and the activity window.
 *
 * The level of a row comes from the first `42cursus` entry of
 * `cursus_users`, else from the highest level (never below 0); the campus
 * name from the first listed campus or the campus object. A record whose
 * flattening raises is skipped. The fields set before the level (login,
 * name, status, wallet, points, last connection) are computed by code that
 * is not part of this model and arrive as the `head` parameter.
 */
module Flatten {
  import opened Seqs
  import opened Records

  // -------------------------------------------------------------- level

  /**
   * Reading the entry's `cursus` and then its `name` does not raise: the
   * entry and its `cursus` are objects, not JSON null.
   */
  predicate Readable(c: CursusUser)
  {
    c.CursusUser? && c.cursus.CursusObj?
  }

  /** The primary cursus: its name or its slug is "42cursus". */
  predicate IsPrimary(c: CursusUser)
  {
    Readable(c) && (c.cursus.name == Some("42cursus") || c.cursus.slug == Some("42cursus"))
  }

  /** What level resolution does to the `Nivel` field. */
  datatype LevelResult = Untouched | Resolved(level: real) | Raises

  /**
   * The running maximum of the `else` branch, starting from 0. The branch
   * runs only after the search loop read every entry, so none is null.
   */
  function MaxLevel(cu: seq<CursusUser>): real
    requires forall j :: 0 <= j < |cu| ==> Readable(cu[j])
  {
    if cu == [] then 0.0
    else
      var m := MaxLevel(cu[..|cu| - 1]);
      assert Readable(cu[|cu| - 1]);
      if cu[|cu| - 1].level > m then cu[|cu| - 1].level else m
  }

  /**
   * The search loop from entry `i` on, the entries before it read without
   * raising: a null entry or a null `cursus` raises, the first primary entry
   * gives its level, and running off the end falls through to the maximum.
   */
  function SearchPrimary(cu: seq<CursusUser>, i: nat): LevelResult
    requires i <= |cu|
    requires forall j :: 0 <= j < i ==> Readable(cu[j])
    decreases |cu| - i
  {
    if i == |cu| then Resolved(MaxLevel(cu))
    else if !Readable(cu[i]) then Raises
    else if IsPrimary(cu[i]) then Resolved(cu[i].level)
    else SearchPrimary(cu, i + 1)
  }

  /** Level resolution of one record: an empty list leaves the field untouched. */
  function LevelOf(cu: seq<CursusUser>): LevelResult
  {
    if cu == [] then Untouched else SearchPrimary(cu, 0)
  }

  /** The `for ... else` loops of level resolution. */
  method ResolveLevel(cu: seq<CursusUser>) returns (r: LevelResult)
    ensures r == LevelOf(cu)
  {
    if cu == [] {
      return Untouched;
    }
    var i := 0;
    while i < |cu|
      invariant 0 <= i <= |cu|
      invariant forall j :: 0 <= j < i ==> Readable(cu[j])
      invariant SearchPrimary(cu, 0) == SearchPrimary(cu, i)
    {
      if !Readable(cu[i]) {
        return Raises;
      }
      if IsPrimary(cu[i]) {
        return Resolved(cu[i].level);
      }
      i := i + 1;
    }
    var maxLevel := 0.0;
    for j := 0 to |cu|
      invariant maxLevel == MaxLevel(cu[..j])
    {
      assert cu[..j + 1][..j] == cu[..j];
      if cu[j].level > maxLevel {
        maxLevel := cu[j].level;
      }
    }
    assert cu[..|cu|] == cu;
    r := Resolved(maxLevel);
  }

  /** The maximum is at least 0, at least every level, and is 0 or one of the levels. */
  lemma {:induction false} MaxLevelSpec(cu: seq<CursusUser>)
    requires forall j :: 0 <= j < |cu| ==> Readable(cu[j])
    ensures MaxLevel(cu) >= 0.0
    ensures forall i :: 0 <= i < |cu| ==> MaxLevel(cu) >= cu[i].level
    ensures MaxLevel(cu) == 0.0 || exists i :: 0 <= i < |cu| && MaxLevel(cu) == cu[i].level
  {
    if cu != [] {
      var init := cu[..|cu| - 1];
      MaxLevelSpec(init);
      forall i | 0 <= i < |cu| - 1 ensures cu[i] == init[i] { }
    }
  }

  /** The first primary entry wins, even over a higher level elsewhere. */
  lemma {:induction false} FirstPrimaryWins(cu: seq<CursusUser>, p: nat)
    requires p < |cu| && IsPrimary(cu[p])
    requires forall j :: 0 <= j < p ==> !IsPrimary(cu[j]) && Readable(cu[j])
    ensures LevelOf(cu) == Resolved(cu[p].level)
  {
    SearchFrom(cu, 0, p);
  }

  lemma {:induction false} SearchFrom(cu: seq<CursusUser>, i: nat, p: nat)
    requires i <= p < |cu| && IsPrimary(cu[p])
    requires forall j :: 0 <= j < p ==> !IsPrimary(cu[j]) && Readable(cu[j])
    ensures SearchPrimary(cu, i) == Resolved(cu[p].level)
    decreases p - i
  {
    if i < p {
      SearchFrom(cu, i + 1, p);
    }
  }

  /** With no primary entry, no null entry and no null `cursus`, the level is the floored maximum. */
  lemma {:induction false} NoPrimaryMax(cu: seq<CursusUser>)
    requires cu != []
    requires forall j :: 0 <= j < |cu| ==> !IsPrimary(cu[j]) && Readable(cu[j])
    ensures LevelOf(cu) == Resolved(MaxLevel(cu))
    ensures LevelOf(cu).level >= 0.0
    ensures forall j :: 0 <= j < |cu| ==> LevelOf(cu).level >= cu[j].level
  {
    NoPrimaryFrom(cu, 0);
    MaxLevelSpec(cu);
  }

  lemma {:induction false} NoPrimaryFrom(cu: seq<CursusUser>, i: nat)
    requires i <= |cu|
    requires forall j :: 0 <= j < |cu| ==> !IsPrimary(cu[j]) && Readable(cu[j])
    ensures SearchPrimary(cu, i) == Resolved(MaxLevel(cu))
    decreases |cu| - i
  {
    if i < |cu| {
      NoPrimaryFrom(cu, i + 1);
    }
  }

  /** A null entry or a null `cursus` met before any primary entry raises, and nothing else does. */
  lemma {:induction false} LevelRaises(cu: seq<CursusUser>)
    ensures LevelOf(cu) == Raises <==>
      exists j :: 0 <= j < |cu| && !Readable(cu[j]) && forall i :: 0 <= i < j ==> !IsPrimary(cu[i])
  {
    if cu != [] {
      RaisesFrom(cu, 0);
    }
  }

  lemma {:induction false} RaisesFrom(cu: seq<CursusUser>, i: nat)
    requires i <= |cu|
    requires forall j :: 0 <= j < i ==> Readable(cu[j])
    ensures SearchPrimary(cu, i) == Raises <==>
      exists j :: i <= j < |cu| && !Readable(cu[j]) && forall k :: i <= k < j ==> !IsPrimary(cu[k])
    decreases |cu| - i
  {
    if i < |cu| {
      if Readable(cu[i]) && !IsPrimary(cu[i]) {
        RaisesFrom(cu, i + 1);
        if exists j :: i + 1 <= j < |cu| && !Readable(cu[j]) && forall k :: i + 1 <= k < j ==> !IsPrimary(cu[k]) {
          var j :| i + 1 <= j < |cu| && !Readable(cu[j]) && forall k :: i + 1 <= k < j ==> !IsPrimary(cu[k]);
          assert forall k :: i <= k < j ==> !IsPrimary(cu[k]);
        }
      }
    }
  }

  // -------------------------------------------------------------- campus name

  /** What campus-name resolution does to the `Campus` field (`None` is Python's `None`). */
  datatype NameResult = NameUnchanged | NameSet(name: Option<string>) | NameRaises

  /**
   * A non-empty list gives its first element's `name` (a null first element
   * raises), an object gives its `name`; an absent name reads "N/A", a JSON
   * null name is stored as `None`; anything else leaves the field alone.
   */
  function CampusName(c: CampusField): (r: NameResult)
    ensures r.NameRaises? <==> c.CampusList? && c.entries != [] && c.entries[0].None?
    ensures r.NameUnchanged? <==> c.CampusOther? || c == CampusList([])
    ensures r.NameSet? ==> var ref := if c.CampusDict? then c.ref else c.entries[0].value;
      && c != CampusList([])
      && (ref.name.Absent? ==> r.name == Some("N/A"))
      && (ref.name.Null? ==> r.name == None)
      && (ref.name.Present? ==> r.name == Some(ref.name.value))
  {
    match c
    case CampusList(entries) =>
      if entries == [] then NameUnchanged
      else if entries[0].None? then NameRaises
      else NameSet(entries[0].value.name.Get("N/A"))
    case CampusDict(ref) => NameSet(ref.name.Get("N/A"))
    case CampusOther => NameUnchanged
  }

  // -------------------------------------------------------------- flattening

  /** The row of one record, or `None` when flattening it raises. */
  function FlattenRecord(u: User, head: User -> Row): Option<Row>
  {
    var level := LevelOf(u.cursusUsers);
    var name := CampusName(u.campus);
    if level.Raises? || name.NameRaises? then None
    else
      var row := head(u);
      var row := if level.Resolved? then row.(level := level.level) else row;
      Some(if name.NameSet? then row.(campus := name.name) else row)
  }

  /** The rows of `df_data` after every record was tried, in record order. */
  function Flattened(users: seq<User>, head: User -> Row): seq<Row>
  {
    if users == [] then []
    else
      var last := FlattenRecord(users[|users| - 1], head);
      Flattened(users[..|users| - 1], head) + (if last.Some? then [last.value] else [])
  }

  /** The flattening loop: one row per record that does not raise. */
  method FlattenAll(users: seq<User>, head: User -> Row) returns (rows: seq<Row>)
    ensures rows == Flattened(users, head)
  {
    rows := [];
    for i := 0 to |users|
      invariant rows == Flattened(users[..i], head)
    {
      assert users[..i + 1][..i] == users[..i];
      var u := users[i];
      var level := ResolveLevel(u.cursusUsers);
      var name := CampusName(u.campus);
      if level.Raises? || name.NameRaises? {
        continue;
      }
      var row := head(u);
      if level.Resolved? {
        row := row.(level := level.level);
      }
      if name.NameSet? {
        row := row.(campus := name.name);
      }
      rows := rows + [row];
    }
    assert users[..|users|] == users;
  }

  /**
   * A record that raises is skipped without disturbing the others: the rows
   * of two batches are the rows of each, and there is never more than one
   * row per record.
   */
  lemma {:induction false} FlattenedAppend(a: seq<User>, b: seq<User>, head: User -> Row)
    ensures Flattened(a + b, head) == Flattened(a, head) + Flattened(b, head)
    ensures |Flattened(a, head)| <= |a|
    decreases |b|
  {
    if b == [] {
      assert a + b == a;
      FlattenedLength(a, head);
    } else {
      var init := b[..|b| - 1];
      assert (a + b)[..|a + b| - 1] == a + init;
      FlattenedAppend(a, init, head);
    }
  }

  lemma {:induction false} FlattenedLength(a: seq<User>, head: User -> Row)
    ensures |Flattened(a, head)| <= |a|
  {
    if a != [] { FlattenedLength(a[..|a| - 1], head); }
  }

  /** A record that flattens gives exactly its row; one that raises gives none. */
  lemma FlattenedOne(u: User, head: User -> Row)
    ensures Flattened([u], head) == if FlattenRecord(u, head).Some? then [FlattenRecord(u, head).value] else []
  {
    assert [u][..0] == [];
  }

  // -------------------------------------------------------------- activity window

  /** `Última conexión` present and not before `past_date`. */
  predicate InWindow(r: Row, pastDate: int)
  {
    r.lastSeen.Some? && r.lastSeen.value >= pastDate
  }

  /** The sort key of `sort_values("Última conexión")`. */
  function LastSeenKey(r: Row): real
  {
    if r.lastSeen.Some? then r.lastSeen.value as real else 0.0
  }

  /** `dropna`, the window mask, and the newest-first sort. */
  function WindowSorted(rows: seq<Row>, pastDate: int): seq<Row>
  {
    SortDesc(Windowed(rows, pastDate), LastSeenKey)
  }

  /** The rows that pass `dropna` and the window mask, in table order. */
  function Windowed(rows: seq<Row>, pastDate: int): seq<Row>
  {
    Filter(rows, (r: Row) => InWindow(r, pastDate))
  }

  /** The window keeps exactly the dated rows at or after `past_date`, each as often as it occurs. */
  lemma WindowMembers(rows: seq<Row>, pastDate: int)
    ensures var w := WindowSorted(rows, pastDate);
      && multiset(w) == multiset(Windowed(rows, pastDate))
      && forall r :: r in w <==> r in rows && InWindow(r, pastDate)
  {
    var f := Windowed(rows, pastDate);
    var w := WindowSorted(rows, pastDate);
    SortDescSpec(f, LastSeenKey);
    forall r ensures r in w <==> r in rows && InWindow(r, pastDate) {
      assert r in w <==> r in multiset(w);
      assert r in f <==> r in multiset(f);
      if r in f {
        var i :| 0 <= i < |f| && f[i] == r;
      }
      if r in rows && InWindow(r, pastDate) {
        var i :| 0 <= i < |rows| && rows[i] == r;
      }
    }
  }

  /** Newest first; rows with equal dates keep their table order. */
  lemma WindowOrder(rows: seq<Row>, pastDate: int)
    ensures var w := WindowSorted(rows, pastDate);
      && (forall i :: 0 <= i < |w| ==> InWindow(w[i], pastDate))
      && (forall i, j :: 0 <= i <= j < |w| ==> w[i].lastSeen.value >= w[j].lastSeen.value)
      && forall t :: WithKey(w, LastSeenKey, t) == WithKey(Windowed(rows, pastDate), LastSeenKey, t)
  {
    var f := Windowed(rows, pastDate);
    var w := WindowSorted(rows, pastDate);
    WindowMembers(rows, pastDate);
    SortDescSpec(f, LastSeenKey);
    DescendingPairs(w, LastSeenKey);
    forall i | 0 <= i < |w| ensures InWindow(w[i], pastDate) {
      assert w[i] in w;
    }
    forall t ensures WithKey(w, LastSeenKey, t) == WithKey(f, LastSeenKey, t) {
      SortDescStable(f, LastSeenKey, t);
    }
  }
}
