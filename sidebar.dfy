/**
 * ui/sidebar.py, lines 101-196: the campus directory grouped by country,
 * the country and campus selectors, and the global statistics.
 */
module Sidebar {
  import opened Seqs
  import opened Records

  /** A campus's country, "Sin País" when it has none. */
  function CountryOf(c: Campus): string
  {
    c.country.GetOr("Sin País")
  }

  /** The campuses of country `k`, in directory order. */
  function CampusesOf(cs: seq<Campus>, k: string): seq<Campus>
  {
    if cs == [] then []
    else CampusesOf(cs[..|cs| - 1], k) + (if CountryOf(cs[|cs| - 1]) == k then [cs[|cs| - 1]] else [])
  }

  // -------------------------------------------------------------- grouping

  /** `campus_by_country` together with the insertion order of its keys. */
  datatype Groups = Groups(keys: seq<string>, byCountry: map<string, seq<Campus>>)

  /** One turn of the grouping loop. */
  function AddCampus(g: Groups, c: Campus): Groups
  {
    var k := CountryOf(c);
    if k in g.byCountry then Groups(g.keys, g.byCountry[k := g.byCountry[k] + [c]])
    else Groups(g.keys + [k], g.byCountry[k := [c]])
  }

  /** The groups after the loop has seen every campus of `cs`. */
  function Grouped(cs: seq<Campus>): Groups
  {
    if cs == [] then Groups([], map[]) else AddCampus(Grouped(cs[..|cs| - 1]), cs[|cs| - 1])
  }

  /** The grouping loop, appending each campus to its country's list. */
  method GroupByCountry(cs: seq<Campus>) returns (keys: seq<string>, byCountry: map<string, seq<Campus>>)
    ensures Groups(keys, byCountry) == Grouped(cs)
  {
    keys, byCountry := [], map[];
    for i := 0 to |cs|
      invariant Groups(keys, byCountry) == Grouped(cs[..i])
    {
      assert cs[..i + 1][..i] == cs[..i];
      var country := CountryOf(cs[i]);
      ghost var before := byCountry;
      if country !in byCountry {
        byCountry := byCountry[country := []];
        keys := keys + [country];
      }
      byCountry := byCountry[country := byCountry[country] + [cs[i]]];
      assert [] + [cs[i]] == [cs[i]];
      assert country !in before ==> byCountry == before[country := [cs[i]]];
    }
    assert cs[..|cs|] == cs;
  }

  /** No key occurs twice. */
  ghost predicate Distinct(keys: seq<string>)
  {
    forall i, j :: 0 <= i < j < |keys| ==> keys[i] != keys[j]
  }

  /** The sum of the group sizes, over `keys`. */
  function Total(m: map<string, seq<Campus>>, keys: seq<string>): nat
  {
    if keys == [] then 0
    else Total(m, keys[..|keys| - 1]) + (if keys[|keys| - 1] in m then |m[keys[|keys| - 1]]| else 0)
  }

  lemma {:induction false} TotalFrame(m: map<string, seq<Campus>>, keys: seq<string>, k: string, v: seq<Campus>)
    requires k !in keys
    ensures Total(m[k := v], keys) == Total(m, keys)
  {
    if keys != [] {
      TotalFrame(m, keys[..|keys| - 1], k, v);
    }
  }

  lemma {:induction false} TotalUpdate(m: map<string, seq<Campus>>, keys: seq<string>, k: string, v: seq<Campus>)
    requires k in m && k in keys && Distinct(keys)
    ensures Total(m[k := v], keys) == Total(m, keys) - |m[k]| + |v|
  {
    var init := keys[..|keys| - 1];
    assert Distinct(init);
    if keys[|keys| - 1] == k {
      assert k !in init;
      TotalFrame(m, init, k, v);
    } else {
      assert k in init by {
        var i :| 0 <= i < |keys| && keys[i] == k;
        assert init[i] == k;
      }
      TotalUpdate(m, init, k, v);
    }
  }

  /**
   * Each campus lands in exactly the group of its country, in directory
   * order; the keys are the countries met, each once, in order of first
   * appearance; the group sizes add up to the number of campuses.
   */
  lemma GroupedSpec(cs: seq<Campus>)
    ensures var g := Grouped(cs);
      && Distinct(g.keys)
      && (forall k :: k in g.byCountry <==> k in g.keys)
      && (forall k :: k in g.byCountry ==> g.byCountry[k] == CampusesOf(cs, k) && g.byCountry[k] != [])
      && (forall k :: k !in g.byCountry ==> CampusesOf(cs, k) == [])
      && Total(g.byCountry, g.keys) == |cs|
      && (forall k :: k in g.keys <==> FirstAt(cs, k) < |cs|)
      && (forall i, j :: 0 <= i < j < |g.keys| ==> FirstAt(cs, g.keys[i]) < FirstAt(cs, g.keys[j]))
  {
    GroupedOrder(cs);
    GroupedFirstSeen(cs);
    GroupedKeys(cs);
    GroupedMembers(cs);
    GroupedTotal(cs);
  }

  /** The keys are distinct and are exactly the keys of the map. */
  lemma {:induction false} GroupedKeys(cs: seq<Campus>)
    ensures Distinct(Grouped(cs).keys)
    ensures forall k :: k in Grouped(cs).byCountry <==> k in Grouped(cs).keys
  {
    if cs != [] {
      var init := cs[..|cs| - 1];
      var g0 := Grouped(init);
      GroupedKeys(init);
      var k := CountryOf(cs[|cs| - 1]);
      if k !in g0.byCountry {
        var keys := g0.keys + [k];
        forall i, j | 0 <= i < j < |keys| ensures keys[i] != keys[j] {
          if j < |g0.keys| { assert keys[i] == g0.keys[i] && keys[j] == g0.keys[j]; }
          else { assert keys[i] in g0.keys; }
        }
      }
    }
  }

  /** Each group is the sub-list of its country, and is never empty. */
  lemma {:induction false} GroupedMembers(cs: seq<Campus>)
    ensures forall k :: k in Grouped(cs).byCountry ==> Grouped(cs).byCountry[k] == CampusesOf(cs, k) && Grouped(cs).byCountry[k] != []
    ensures forall k :: k !in Grouped(cs).byCountry ==> CampusesOf(cs, k) == []
  {
    if cs != [] {
      var init := cs[..|cs| - 1];
      GroupedMembers(init);
    }
  }

  /** The group sizes add up to the number of campuses. */
  lemma {:induction false} GroupedTotal(cs: seq<Campus>)
    ensures Total(Grouped(cs).byCountry, Grouped(cs).keys) == |cs|
  {
    if cs != [] {
      var init := cs[..|cs| - 1];
      var c := cs[|cs| - 1];
      var k := CountryOf(c);
      var g0 := Grouped(init);
      GroupedTotal(init);
      GroupedKeys(init);
      if k in g0.byCountry {
        TotalUpdate(g0.byCountry, g0.keys, k, g0.byCountry[k] + [c]);
      } else {
        TotalFrame(g0.byCountry, g0.keys, k, [c]);
        var keys := g0.keys + [k];
        assert keys[..|keys| - 1] == g0.keys;
      }
    }
  }

  /** The position of the first campus of country `k`, or `|cs|` when there is none. */
  function FirstAt(cs: seq<Campus>, k: string): (r: nat)
    ensures r <= |cs|
    ensures r < |cs| ==> CountryOf(cs[r]) == k
    ensures forall i :: 0 <= i < r ==> CountryOf(cs[i]) != k
  {
    if cs == [] then 0
    else
      var f := FirstAt(cs[..|cs| - 1], k);
      if f < |cs| - 1 then f else if CountryOf(cs[|cs| - 1]) == k then |cs| - 1 else |cs|
  }

  /** A country is a key exactly when some campus has it. */
  lemma {:induction false} GroupedFirstSeen(cs: seq<Campus>)
    ensures forall k :: k in Grouped(cs).keys <==> FirstAt(cs, k) < |cs|
  {
    if cs != [] {
      GroupedFirstSeen(cs[..|cs| - 1]);
      GroupedKeys(cs[..|cs| - 1]);
    }
  }

  /** The keys are the countries met, in the order of their first campus. */
  lemma {:induction false} GroupedOrder(cs: seq<Campus>)
    ensures forall i, j :: 0 <= i < j < |Grouped(cs).keys| ==>
      FirstAt(cs, Grouped(cs).keys[i]) < FirstAt(cs, Grouped(cs).keys[j])
  {
    if cs != [] {
      var init := cs[..|cs| - 1];
      var g0 := Grouped(init);
      GroupedOrder(init);
      GroupedFirstSeen(init);
      GroupedKeys(init);
      var k := CountryOf(cs[|cs| - 1]);
      forall x | x in g0.keys ensures FirstAt(cs, x) == FirstAt(init, x) < |init| { }
      if k !in g0.byCountry {
        var keys := g0.keys + [k];
        forall i, j | 0 <= i < j < |keys| ensures FirstAt(cs, keys[i]) < FirstAt(cs, keys[j]) {
          assert keys[i] == g0.keys[i] && keys[i] in g0.keys;
          if j < |g0.keys| {
            assert keys[j] == g0.keys[j] && keys[j] in g0.keys;
          } else {
            assert FirstAt(cs, keys[j]) == |init|;
          }
        }
      } else {
        forall i, j | 0 <= i < j < |g0.keys| ensures FirstAt(cs, g0.keys[i]) < FirstAt(cs, g0.keys[j]) {
          assert g0.keys[i] in g0.keys && g0.keys[j] in g0.keys;
        }
      }
    }
  }

  /** Every campus is in the group of its own country. */
  lemma {:induction false} CampusesOfMember(cs: seq<Campus>, i: nat)
    requires i < |cs|
    ensures cs[i] in CampusesOf(cs, CountryOf(cs[i]))
  {
    if i < |cs| - 1 {
      CampusesOfMember(cs[..|cs| - 1], i);
    }
  }

  /** Every member of a country's group has that country. */
  lemma {:induction false} CampusesOfCountry(cs: seq<Campus>, k: string)
    ensures forall c :: c in CampusesOf(cs, k) ==> c in cs && CountryOf(c) == k
  {
    if cs != [] {
      CampusesOfCountry(cs[..|cs| - 1], k);
      forall c | c in cs[..|cs| - 1] ensures c in cs {
        var i :| 0 <= i < |cs| - 1 && cs[..|cs| - 1][i] == c;
        assert cs[i] == c;
      }
    }
  }

  // -------------------------------------------------------------- selectors

  /** Python's string order: by code point, a proper prefix first. */
  predicate LexLe(a: string, b: string)
  {
    a == [] || (b != [] && (a[0] < b[0] || (a[0] == b[0] && LexLe(a[1..], b[1..]))))
  }

  lemma {:induction false} LexLeTotal(a: string, b: string)
    ensures LexLe(a, b) || LexLe(b, a)
  {
    if a != [] && b != [] && a[0] == b[0] {
      LexLeTotal(a[1..], b[1..]);
    }
  }

  lemma {:induction false} LexLeTrans(a: string, b: string, c: string)
    requires LexLe(a, b) && LexLe(b, c)
    ensures LexLe(a, c)
  {
    if a != [] && a[0] == b[0] && b[0] == c[0] {
      LexLeTrans(a[1..], b[1..], c[1..]);
    }
  }

  /** Ascending order, stated on neighbours. */
  ghost predicate Ascending(s: seq<string>)
  {
    forall i :: 0 < i < |s| ==> LexLe(s[i - 1], s[i])
  }

  function InsertAsc(x: string, s: seq<string>): (r: seq<string>)
    ensures |r| == |s| + 1
    ensures multiset(r) == multiset(s) + multiset{x}
    ensures r[0] == x || (s != [] && r[0] == s[0])
  {
    if s == [] then [x]
    else if LexLe(x, s[0]) then [x] + s
    else assert s == [s[0]] + s[1..]; [s[0]] + InsertAsc(x, s[1..])
  }

  /** `sorted(...)` on strings. */
  function SortAsc(s: seq<string>): (r: seq<string>)
    ensures |r| == |s|
    ensures multiset(r) == multiset(s)
  {
    if s == [] then [] else assert s == [s[0]] + s[1..]; InsertAsc(s[0], SortAsc(s[1..]))
  }

  lemma {:induction false} InsertAscSorted(x: string, s: seq<string>)
    requires Ascending(s)
    ensures Ascending(InsertAsc(x, s))
  {
    if s != [] && !LexLe(x, s[0]) {
      LexLeTotal(x, s[0]);
      InsertAscSorted(x, s[1..]);
      var t := InsertAsc(x, s[1..]);
      var r := [s[0]] + t;
      forall i | 0 < i < |r| ensures LexLe(r[i - 1], r[i]) {
        if i > 1 { assert r[i - 1] == t[i - 2] && r[i] == t[i - 1]; }
      }
    }
  }

  lemma {:induction false} SortAscSorted(s: seq<string>)
    ensures Ascending(SortAsc(s))
  {
    if s != [] {
      SortAscSorted(s[1..]);
      InsertAscSorted(s[0], SortAsc(s[1..]));
    }
  }

  lemma {:induction false} AscendingAt(s: seq<string>, i: nat, j: nat)
    requires Ascending(s) && i <= j < |s|
    ensures LexLe(s[i], s[j])
    decreases j - i
  {
    if i == j {
      LexLeRefl(s[i]);
    } else {
      AscendingAt(s, i + 1, j);
      LexLeTrans(s[i], s[i + 1], s[j]);
    }
  }

  lemma {:induction false} LexLeRefl(a: string)
    ensures LexLe(a, a)
  {
    if a != [] { LexLeRefl(a[1..]); }
  }

  /** The country selector: "Todos" and then the group keys in sorted order. */
  function CountryOptions(g: Groups): seq<string>
  {
    ["Todos"] + SortAsc(g.keys)
  }

  /**
   * The options after "Todos" are the countries of the directory, each once,
   * in ascending order.
   */
  lemma CountryOptionsSpec(cs: seq<Campus>)
    ensures var opts := CountryOptions(Grouped(cs));
      && opts[0] == "Todos"
      && |opts| == |Grouped(cs).keys| + 1
      && (forall i, j :: 1 <= i <= j < |opts| ==> LexLe(opts[i], opts[j]))
      && (forall k :: k in opts[1..] <==> k in Grouped(cs).byCountry)
      && forall i :: 0 <= i < |cs| ==> CountryOf(cs[i]) in opts[1..]
  {
    var g := Grouped(cs);
    var sorted := SortAsc(g.keys);
    GroupedKeys(cs);
    GroupedMembers(cs);
    SortAscSorted(g.keys);
    var opts := CountryOptions(g);
    assert opts[1..] == sorted;
    forall i, j | 1 <= i <= j < |opts| ensures LexLe(opts[i], opts[j]) {
      AscendingAt(sorted, i - 1, j - 1);
    }
    forall k ensures k in sorted <==> k in g.keys {
      assert k in sorted <==> k in multiset(sorted);
      assert k in g.keys <==> k in multiset(g.keys);
    }
    forall i | 0 <= i < |cs| ensures CountryOf(cs[i]) in g.byCountry {
      CampusesOfMember(cs, i);
    }
  }

  /** `available_campus`: the whole directory for "Todos", else the chosen country's group. */
  function Available(selected: string, cs: seq<Campus>, g: Groups): seq<Campus>
    requires selected == "Todos" || selected in g.byCountry
  {
    if selected == "Todos" then cs else g.byCountry[selected]
  }

  /** A chosen country offers exactly its own campuses, in directory order. */
  lemma AvailableSpec(selected: string, cs: seq<Campus>)
    requires selected == "Todos" || selected in Grouped(cs).byCountry
    ensures selected == "Todos" ==> Available(selected, cs, Grouped(cs)) == cs
    ensures selected != "Todos" ==> Available(selected, cs, Grouped(cs)) == CampusesOf(cs, selected)
    ensures selected != "Todos" ==>
      forall c :: c in Available(selected, cs, Grouped(cs)) ==> c in cs && CountryOf(c) == selected
  {
    GroupedMembers(cs);
    CampusesOfCountry(cs, selected);
  }

  /** `campus_dict`: name to id, a later campus overwriting an earlier one of the same name. */
  function CampusDict(cs: seq<Campus>): map<string, int>
  {
    if cs == [] then map[]
    else CampusDict(cs[..|cs| - 1])[cs[|cs| - 1].name := cs[|cs| - 1].id]
  }

  /** Every name is a key, and its id is that of the last campus with the name. */
  lemma {:induction false} CampusDictSpec(cs: seq<Campus>)
    ensures forall i :: 0 <= i < |cs| ==> cs[i].name in CampusDict(cs)
    ensures forall n :: n in CampusDict(cs) ==>
      exists i :: (0 <= i < |cs| && cs[i].name == n && CampusDict(cs)[n] == cs[i].id
                   && forall j :: i < j < |cs| ==> cs[j].name != n)
  {
    if cs != [] {
      var init := cs[..|cs| - 1];
      var last := cs[|cs| - 1];
      CampusDictSpec(init);
      forall n | n in CampusDict(cs)
        ensures exists i :: (0 <= i < |cs| && cs[i].name == n && CampusDict(cs)[n] == cs[i].id
                               && forall j :: i < j < |cs| ==> cs[j].name != n)
      {
        if n == last.name {
          assert cs[|cs| - 1].name == n;
        } else {
          var i :| 0 <= i < |init| && init[i].name == n && CampusDict(init)[n] == init[i].id
            && forall j :: i < j < |init| ==> init[j].name != n;
          assert cs[i] == init[i];
          forall j | i < j < |cs| ensures cs[j].name != n {
            if j < |cs| - 1 { assert cs[j] == init[j]; }
          }
        }
      }
      forall i | 0 <= i < |cs| ensures cs[i].name in CampusDict(cs) {
        if i < |cs| - 1 { assert cs[i] == init[i]; }
      }
    }
  }

  // -------------------------------------------------------------- statistics

  /** `total_countries`: the number of groups. */
  function TotalCountries(g: Groups): nat
  {
    |g.byCountry|
  }

  lemma {:induction false} DistinctCard(keys: seq<string>)
    requires Distinct(keys)
    ensures |set k | k in keys| == |keys|
  {
    if keys != [] {
      var init := keys[..|keys| - 1];
      assert Distinct(init);
      DistinctCard(init);
      assert (set k | k in keys) == (set k | k in init) + {keys[|keys| - 1]};
    }
  }

  /**
   * There are as many countries as group keys, never more than campuses,
   * and at least one when there is at least one campus.
   */
  lemma TotalsSpec(cs: seq<Campus>)
    ensures TotalCountries(Grouped(cs)) == |Grouped(cs).keys|
    ensures TotalCountries(Grouped(cs)) <= |cs|
    ensures cs != [] ==> TotalCountries(Grouped(cs)) >= 1
  {
    var g := Grouped(cs);
    GroupedKeys(cs);
    GroupedMembers(cs);
    GroupedTotal(cs);
    DistinctCard(g.keys);
    assert g.byCountry.Keys == set k | k in g.keys;
    GroupsBound(g.byCountry, g.keys);
    if cs != [] {
      CampusesOfMember(cs, 0);
    }
  }

  /** Non-empty groups: no more keys than campuses in them. */
  lemma {:induction false} GroupsBound(m: map<string, seq<Campus>>, keys: seq<string>)
    requires forall k :: k in keys ==> k in m && m[k] != []
    ensures |keys| <= Total(m, keys)
  {
    if keys != [] {
      GroupsBound(m, keys[..|keys| - 1]);
    }
  }

  /** One entry of `country_counts`. */
  datatype CountryCount = CountryCount(country: string, count: nat)

  function CountKey(p: CountryCount): real { p.count as real }

  /** `country_counts.items()` in key order. */
  function CountryCounts(g: Groups): (r: seq<CountryCount>)
    ensures |r| == |g.keys|
    ensures forall i :: 0 <= i < |r| ==> (r[i].country == g.keys[i] && r[i].count == SizeOf(g.byCountry, g.keys[i]))
  {
    CountsOf(g.byCountry, g.keys)
  }

  function SizeOf(m: map<string, seq<Campus>>, k: string): nat
  {
    if k in m then |m[k]| else 0
  }

  function CountsOf(m: map<string, seq<Campus>>, keys: seq<string>): (r: seq<CountryCount>)
    ensures |r| == |keys|
    ensures forall i :: 0 <= i < |r| ==> (r[i].country == keys[i] && r[i].count == SizeOf(m, keys[i]))
  {
    if keys == [] then [] else [CountryCount(keys[0], SizeOf(m, keys[0]))] + CountsOf(m, keys[1..])
  }

  /** The top-5 list: counts sorted by decreasing size, stable, first five. */
  function TopCountries(g: Groups): seq<CountryCount>
  {
    PySlice(SortDesc(CountryCounts(g), CountKey), 5)
  }

  /**
   * At most five countries, by non-increasing campus count; no country left
   * out has more campuses than one listed; among equal counts the order of
   * first appearance is kept.
   */
  lemma TopCountriesOrder(g: Groups)
    ensures var top := TopCountries(g);
      var sorted := SortDesc(CountryCounts(g), CountKey);
      && |top| == Min(5, |g.keys|)
      && top == sorted[..|top|]
      && Descending(top, CountKey)
      && (forall i, j :: 0 <= i < |top| <= j < |sorted| ==> top[i].count >= sorted[j].count)
      && forall v :: WithKey(sorted, CountKey, v) == WithKey(CountryCounts(g), CountKey, v)
  {
    var counts := CountryCounts(g);
    var sorted := SortDesc(counts, CountKey);
    TopNSplit(counts, CountKey, Min(5, |counts|));
    forall v ensures WithKey(sorted, CountKey, v) == WithKey(counts, CountKey, v) {
      SortDescStable(counts, CountKey, v);
    }
  }

  /** Each listed country is a group of the directory, with the number of its campuses. */
  lemma TopCountriesCounts(cs: seq<Campus>)
    ensures var top := TopCountries(Grouped(cs));
      forall i :: 0 <= i < |top| ==> top[i].country in Grouped(cs).byCountry && top[i].count == |CampusesOf(cs, top[i].country)|
  {
    var g := Grouped(cs);
    var counts := CountryCounts(g);
    var sorted := SortDesc(counts, CountKey);
    var top := TopCountries(g);
    GroupedKeys(cs);
    GroupedMembers(cs);
    SortDescSpec(counts, CountKey);
    forall i | 0 <= i < |top| ensures top[i].country in g.byCountry && top[i].count == |CampusesOf(cs, top[i].country)| {
      assert top[i] == sorted[i];
      assert sorted[i] in multiset(counts);
      var k :| 0 <= k < |counts| && counts[k] == sorted[i];
      assert g.keys[k] in g.keys;
    }
  }
}
