/**
 * ui/user_table.py (and its copy at app.py 247-313): the filter chain of
 * the users table, the display-column layout, and the counts of the
 * metrics panel.
 */
module UserTable {
  import opened Seqs
  import opened Records

  // -------------------------------------------------------------- search

  /** ASCII lower-casing. */
  function Lower(c: char): char
  {
    if 'A' <= c <= 'Z' then (c as int + 32) as char else c
  }

  function LowerStr(s: string): (r: string)
    ensures |r| == |s|
    ensures forall i :: 0 <= i < |s| ==> r[i] == Lower(s[i])
  {
    if s == [] then [] else [Lower(s[0])] + LowerStr(s[1..])
  }

  /** `pat` occurs in `text` starting at position `i`. */
  predicate OccursAt(text: string, pat: string, i: nat)
  {
    i + |pat| <= |text| && text[i..i + |pat|] == pat
  }

  /** `text.str.contains(pat, case=False)` for a pattern without regex metacharacters. */
  predicate ContainsCI(text: string, pat: string)
  {
    exists i :: 0 <= i <= |text| && OccursAt(LowerStr(text), LowerStr(pat), i)
  }

  /** The search mask: the text occurs in `Login` or in `Nombre`. */
  predicate MatchesSearch(r: Row, search: string)
  {
    ContainsCI(r.login, search) || ContainsCI(r.name, search)
  }

  // -------------------------------------------------------------- filter chain

  /** Everything a row must satisfy to stay in the filtered table. */
  predicate Keep(r: Row, search: string, minLevel: real, status: string)
  {
    && (search == "" || MatchesSearch(r, search))
    && (minLevel <= 0.0 || r.level >= minLevel)
    && (status == "Todos" || r.status == status)
  }

  /** The three successive mask selections, each applied only when its widget is set. */
  function FilterRows(rows: seq<Row>, search: string, minLevel: real, status: string): seq<Row>
  {
    var afterSearch := if search != "" then Filter(rows, (r: Row) => MatchesSearch(r, search)) else rows;
    var afterLevel := if minLevel > 0.0 then Filter(afterSearch, (r: Row) => r.level >= minLevel) else afterSearch;
    if status != "Todos" then Filter(afterLevel, (r: Row) => r.status == status) else afterLevel
  }

  /** The chain selects, in table order, exactly the rows that satisfy every active filter. */
  lemma FilterRowsKeep(rows: seq<Row>, search: string, minLevel: real, status: string)
    ensures FilterRows(rows, search, minLevel, status) == Filter(rows, (r: Row) => Keep(r, search, minLevel, status))
  {
    var s := (r: Row) => search == "" || MatchesSearch(r, search);
    var sl := (r: Row) => s(r) && (minLevel <= 0.0 || r.level >= minLevel);
    Stage(rows, search != "", (r: Row) => MatchesSearch(r, search), s);
    NextStage(rows, s, minLevel > 0.0, (r: Row) => r.level >= minLevel, sl);
    NextStage(rows, sl, status != "Todos", (r: Row) => r.status == status, (r: Row) => Keep(r, search, minLevel, status));
  }

  /** A selection applied only when `active` is the selection by "inactive, or passes". */
  lemma Stage<T>(xs: seq<T>, active: bool, p: T -> bool, q: T -> bool)
    requires forall x :: q(x) == (!active || p(x))
    ensures (if active then Filter(xs, p) else xs) == Filter(xs, q)
  {
    if active {
      FilterExt(xs, p, q);
    } else {
      FilterAll(xs, q);
    }
  }

  /** One more conditional selection after a selection by `prev` is a single selection by `both`. */
  lemma NextStage<T>(xs: seq<T>, prev: T -> bool, active: bool, p: T -> bool, both: T -> bool)
    requires forall x :: both(x) == (prev(x) && (!active || p(x)))
    ensures (if active then Filter(Filter(xs, prev), p) else Filter(xs, prev)) == Filter(xs, both)
  {
    var q := (x: T) => !active || p(x);
    Stage(Filter(xs, prev), active, p, q);
    FilterFilter(xs, prev, q, both);
  }

  /** Two pointwise-equal predicates select the same rows. */
  lemma {:induction false} FilterExt<T>(s: seq<T>, p: T -> bool, q: T -> bool)
    requires forall x :: p(x) == q(x)
    ensures Filter(s, p) == Filter(s, q)
  {
    if s != [] { FilterExt(s[1..], p, q); }
  }

  /**
   * The filtered table is a subsequence of the table, so "showing X of Y"
   * has X <= Y; a row is kept exactly when it satisfies every active filter;
   * with no filter set the table is shown whole.
   */
  lemma FilterRowsSpec(rows: seq<Row>, search: string, minLevel: real, status: string)
    ensures var f := FilterRows(rows, search, minLevel, status);
      && SubseqOf(f, rows)
      && |f| <= |rows|
      && (forall i :: 0 <= i < |f| ==> Keep(f[i], search, minLevel, status))
      && (forall i :: 0 <= i < |rows| && Keep(rows[i], search, minLevel, status) ==> rows[i] in f)
      && (search == "" && minLevel <= 0.0 && status == "Todos" ==> f == rows)
  {
    var keep := (r: Row) => Keep(r, search, minLevel, status);
    FilterRowsKeep(rows, search, minLevel, status);
    FilterIsSubseq(rows, keep);
    if search == "" && minLevel <= 0.0 && status == "Todos" {
      FilterAll(rows, keep);
    }
  }

  // -------------------------------------------------------------- columns

  const LastSeenColumn: string := "Última conexión"
  const BaseColumns: seq<string> := ["Login", "Nombre", "Estado", "Nivel", LastSeenColumn]

  /** `list.insert(-1, x)`: before the last element (at the front of an empty list). */
  function InsertBeforeLast(cols: seq<string>, x: string): (r: seq<string>)
    ensures |r| == |cols| + 1
    ensures cols != [] ==> r[|r| - 1] == cols[|cols| - 1] && r[|r| - 2] == x && r[..|cols| - 1] == cols[..|cols| - 1]
  {
    if cols == [] then [x] else cols[..|cols| - 1] + [x, cols[|cols| - 1]]
  }

  /** The column list of the table, built by in-place inserts. */
  method DisplayColumns(hasWallet: bool, hasPoints: bool) returns (cols: seq<string>)
    ensures |cols| == 5 + (if hasWallet then 1 else 0) + (if hasPoints then 1 else 0)
    ensures cols[..4] == BaseColumns[..4]
    ensures cols[|cols| - 1] == LastSeenColumn
    ensures cols[4..|cols| - 1] == (if hasWallet then ["Wallet"] else []) + (if hasPoints then ["Evaluation Points"] else [])
    ensures hasWallet && hasPoints ==> cols == ["Login", "Nombre", "Estado", "Nivel", "Wallet", "Evaluation Points", LastSeenColumn]
  {
    cols := BaseColumns;
    if hasWallet {
      cols := InsertBeforeLast(cols, "Wallet");
    }
    if hasPoints {
      cols := InsertBeforeLast(cols, "Evaluation Points");
    }
  }

  // -------------------------------------------------------------- metrics

  /** `"En campus"` occurs in the status text. */
  predicate OnCampus(r: Row)
  {
    exists i :: 0 <= i <= |r.status| && OccursAt(r.status, "En campus", i)
  }

  /** The "En campus" metric. */
  function InCampusCount(rows: seq<Row>): (n: nat)
    ensures n <= |rows|
  {
    |Filter(rows, OnCampus)|
  }

  /** The distinct logins of the table. */
  function Logins(rows: seq<Row>): (ls: set<string>)
    ensures forall r :: r in rows ==> r.login in ls
    ensures forall l :: l in ls ==> exists i :: 0 <= i < |rows| && rows[i].login == l
  {
    if rows == [] then {} else {rows[0].login} + Logins(rows[1..])
  }

  /** The unique-user metric, `nunique` of `Login`. */
  function UniqueLogins(rows: seq<Row>): nat
  {
    |Logins(rows)|
  }

  /** No login repeats. */
  ghost predicate DistinctLogins(rows: seq<Row>)
  {
    forall i, j :: 0 <= i < j < |rows| ==> rows[i].login != rows[j].login
  }

  /** There are never more distinct logins than rows, and as many exactly when no login repeats. */
  lemma UniqueLoginsBound(rows: seq<Row>)
    ensures UniqueLogins(rows) <= |rows|
    ensures DistinctLogins(rows) ==> UniqueLogins(rows) == |rows|
  {
    LoginsAtMost(rows);
    if DistinctLogins(rows) {
      LoginsExact(rows);
    }
  }

  lemma {:induction false} LoginsAtMost(rows: seq<Row>)
    ensures |Logins(rows)| <= |rows|
  {
    if rows != [] {
      LoginsAtMost(rows[1..]);
      var rest := Logins(rows[1..]);
      assert Logins(rows) == {rows[0].login} + rest;
      assert |{rows[0].login} + rest| <= |rest| + 1;
    }
  }

  lemma {:induction false} LoginsExact(rows: seq<Row>)
    requires DistinctLogins(rows)
    ensures |Logins(rows)| == |rows|
  {
    if rows != [] {
      var head := rows[0].login;
      var tail := rows[1..];
      assert DistinctLogins(tail) by {
        forall i, j | 0 <= i < j < |tail| ensures tail[i].login != tail[j].login {
          assert tail[i] == rows[i + 1] && tail[j] == rows[j + 1];
        }
      }
      LoginsExact(tail);
      var rest := Logins(tail);
      forall l | l in rest ensures l != head {
        var i :| 0 <= i < |tail| && tail[i].login == l;
        assert rows[i + 1].login == l;
      }
      assert Logins(rows) == {head} + rest;
      assert |{head} + rest| == |rest| + 1;
    }
  }

  /** The status does not contain "En campus". */
  predicate NotOnCampus(r: Row)
  {
    !OnCampus(r)
  }

  /**
   * The "En campus" metric and the rows it leaves out split the table: every
   * row is counted or left out, none both, so a table without a matching row
   * counts 0.
   */
  lemma {:induction false} InCampusCountExact(rows: seq<Row>)
    ensures InCampusCount(rows) + |Filter(rows, NotOnCampus)| == |rows|
    ensures (forall i :: 0 <= i < |rows| ==> !OnCampus(rows[i])) ==> InCampusCount(rows) == 0
  {
    if rows != [] {
      InCampusCountExact(rows[1..]);
      if forall i :: 0 <= i < |rows| ==> !OnCampus(rows[i]) {
        forall i | 0 <= i < |rows[1..]| ensures !OnCampus(rows[1..][i]) {
          assert rows[1..][i] == rows[i + 1];
        }
      }
    }
  }

  /** A matching row followed by one that does not match counts 1. */
  lemma InCampusCountPair(a: Row, b: Row)
    requires OnCampus(a) && !OnCampus(b)
    ensures InCampusCount([a, b]) == 1
  {
    InCampusCountExact([a, b]);
    assert [a, b][1..] == [b];
  }

  /**
   * The "En campus" metric is the number of rows whose status contains
   * "En campus": each such row is counted, the others are the rest of the
   * table, and an all-matching table counts every row.
   */
  lemma InCampusCountSpec(rows: seq<Row>)
    ensures InCampusCount(rows) <= |rows|
    ensures forall i :: 0 <= i < |rows| && OnCampus(rows[i]) ==> rows[i] in Filter(rows, OnCampus)
    ensures InCampusCount(rows) + |Filter(rows, NotOnCampus)| == |rows|
    ensures (forall i :: 0 <= i < |rows| ==> !OnCampus(rows[i])) ==> InCampusCount(rows) == 0
    ensures (forall i :: 0 <= i < |rows| ==> OnCampus(rows[i])) ==> InCampusCount(rows) == |rows|
  {
    InCampusCountExact(rows);
    if forall i :: 0 <= i < |rows| ==> OnCampus(rows[i]) {
      FilterAll(rows, OnCampus);
    }
  }
}
