/**
 * ui/charts.py (and its copy at app.py 139-245): what the charts section
 * draws from the users table. The figures themselves are not modelled;
 * the model says which charts appear and what data they are given.
 */
module Charts {
  import opened Seqs
  import opened Records

  // -------------------------------------------------------------- per-hour counts

  /** `.dt.hour` of a timestamp in seconds since the epoch (UTC). */
  function HourOf(t: int): (h: int)
    ensures 0 <= h < 24
  {
    (t / 3600) % 24
  }

  /** Rows whose connection time falls in hour `h`. */
  function CountHour(rows: seq<Row>, h: int): nat
  {
    if rows == [] then 0
    else (if rows[0].lastSeen.Some? && HourOf(rows[0].lastSeen.value) == h then 1 else 0) + CountHour(rows[1..], h)
  }

  /** Rows that carry a connection time (`value_counts` drops the missing ones). */
  function Stamped(rows: seq<Row>): nat
  {
    if rows == [] then 0 else (if rows[0].lastSeen.Some? then 1 else 0) + Stamped(rows[1..])
  }

  /** One bar of the hourly chart. */
  datatype HourCount = HourCount(hour: nat, count: nat)

  /** `value_counts().sort_index()` restricted to hours `h` to 23. */
  function HourCountsFrom(rows: seq<Row>, h: nat): seq<HourCount>
    decreases 24 - h
  {
    if h >= 24 then []
    else
      var n := CountHour(rows, h);
      (if n > 0 then [HourCount(h, n)] else []) + HourCountsFrom(rows, h + 1)
  }

  /** The bars of the hourly chart, in ascending hour order. */
  function HourCounts(rows: seq<Row>): seq<HourCount>
  {
    HourCountsFrom(rows, 0)
  }

  function SumCounts(cs: seq<HourCount>): nat
  {
    if cs == [] then 0 else cs[0].count + SumCounts(cs[1..])
  }

  /** The number of stamped rows whose hour is `h` or later. */
  function FromHour(rows: seq<Row>, h: nat): nat
    decreases 24 - h
  {
    if h >= 24 then 0 else CountHour(rows, h) + FromHour(rows, h + 1)
  }

  lemma {:induction false} SumHourCountsFrom(rows: seq<Row>, h: nat)
    ensures SumCounts(HourCountsFrom(rows, h)) == FromHour(rows, h)
    decreases 24 - h
  {
    if h < 24 {
      SumHourCountsFrom(rows, h + 1);
      var n := CountHour(rows, h);
      var head := if n > 0 then [HourCount(h, n)] else [];
      SumAppend(head, HourCountsFrom(rows, h + 1));
    }
  }

  lemma {:induction false} SumAppend(a: seq<HourCount>, b: seq<HourCount>)
    ensures SumCounts(a + b) == SumCounts(a) + SumCounts(b)
  {
    if a == [] {
      assert a + b == b;
    } else {
      assert (a + b)[1..] == a[1..] + b;
      SumAppend(a[1..], b);
    }
  }

  lemma {:induction false} FromHourCons(rows: seq<Row>, h: nat)
    requires rows != []
    ensures FromHour(rows, h) ==
      (if rows[0].lastSeen.Some? && HourOf(rows[0].lastSeen.value) >= h then 1 else 0) + FromHour(rows[1..], h)
    decreases 24 - h
  {
    if h < 24 {
      FromHourCons(rows, h + 1);
    }
  }

  lemma {:induction false} FromHourNone(h: nat)
    ensures FromHour([], h) == 0
    decreases 24 - h
  {
    if h < 24 { FromHourNone(h + 1); }
  }

  lemma {:induction false} FromHourAll(rows: seq<Row>)
    ensures FromHour(rows, 0) == Stamped(rows)
  {
    if rows == [] {
      FromHourNone(0);
    } else {
      FromHourCons(rows, 0);
      FromHourAll(rows[1..]);
    }
  }

  /** A bar of the hourly chart for an hour from `h` on, with that hour's non-zero count. */
  predicate GoodBar(rows: seq<Row>, b: HourCount, h: nat)
  {
    h <= b.hour < 24 && b.count == CountHour(rows, b.hour) && b.count > 0
  }

  lemma {:induction false} HourCountsFromBars(rows: seq<Row>, h: nat)
    ensures forall b :: b in HourCountsFrom(rows, h) ==> GoodBar(rows, b, h)
    decreases 24 - h
  {
    if h < 24 {
      HourCountsFromBars(rows, h + 1);
    }
  }

  /** Strictly ascending hours, stated on neighbours. */
  predicate AscendingHours(cs: seq<HourCount>)
  {
    forall i :: 0 < i < |cs| ==> cs[i - 1].hour < cs[i].hour
  }

  lemma {:induction false} HourCountsFromAscending(rows: seq<Row>, h: nat)
    ensures AscendingHours(HourCountsFrom(rows, h))
    decreases 24 - h
  {
    if h < 24 {
      HourCountsFromAscending(rows, h + 1);
      HourCountsFromBars(rows, h + 1);
      var n := CountHour(rows, h);
      if n > 0 {
        AscendingCons(HourCount(h, n), HourCountsFrom(rows, h + 1));
      }
    }
  }

  /** A bar placed before bars of later hours keeps the order ascending. */
  lemma AscendingCons(b: HourCount, rest: seq<HourCount>)
    requires AscendingHours(rest)
    requires forall x :: x in rest ==> b.hour < x.hour
    ensures AscendingHours([b] + rest)
  {
    var cs := [b] + rest;
    forall i | 0 < i < |cs| ensures cs[i - 1].hour < cs[i].hour {
      if i == 1 {
        assert cs[1] == rest[0] && rest[0] in rest;
      } else {
        assert cs[i] == rest[i - 1] && cs[i - 1] == rest[i - 2];
      }
    }
  }

  lemma {:induction false} HourCountsFromComplete(rows: seq<Row>, h: nat)
    ensures forall k :: h <= k < 24 && CountHour(rows, k) > 0 ==> HourCount(k, CountHour(rows, k)) in HourCountsFrom(rows, h)
    decreases 24 - h
  {
    if h < 24 {
      HourCountsFromComplete(rows, h + 1);
    }
  }

  /**
   * The hourly bars come in strictly ascending hour order, one per hour that
   * has a connection, each with that hour's count, and the counts add up to
   * the number of rows with a connection time.
   */
  lemma HourCountsSpec(rows: seq<Row>)
    ensures var cs := HourCounts(rows);
      && (forall b :: b in cs ==> b.hour < 24 && b.count == CountHour(rows, b.hour) && b.count > 0)
      && AscendingHours(cs)
      && (forall k :: 0 <= k < 24 && CountHour(rows, k) > 0 ==> HourCount(k, CountHour(rows, k)) in cs)
      && SumCounts(cs) == Stamped(rows)
  {
    HourCountsFromBars(rows, 0);
    HourCountsFromAscending(rows, 0);
    HourCountsFromComplete(rows, 0);
    SumHourCountsFrom(rows, 0);
    FromHourAll(rows);
  }

  // -------------------------------------------------------------- top ten

  function LevelKey(r: Row): real { r.level }

  /** `df.nlargest(min(10, len(df)), 'Nivel')`: ties keep table order. */
  function TopRows(rows: seq<Row>): seq<Row>
  {
    SortDesc(rows, LevelKey)[..Min(10, |rows|)]
  }

  /**
   * Exactly `min(10, n)` rows, by non-increasing level, taken from the table;
   * no row left out has a higher level than one listed.
   */
  lemma TopRowsSpec(rows: seq<Row>)
    ensures var top := TopRows(rows);
      && |top| == Min(10, |rows|)
      && Descending(top, LevelKey)
      && multiset(top) <= multiset(rows)
      && forall i, j :: 0 <= i < |top| <= j < |rows| ==> top[i].level >= SortDesc(rows, LevelKey)[j].level
  {
    TopNSplit(rows, LevelKey, Min(10, |rows|));
  }

  /** The name column of the top list: at most 20 characters, else 20 and "...". */
  function TruncateName(name: string): (r: string)
    ensures |name| <= 20 ==> r == name
    ensures |name| > 20 ==> |r| == 23 && r[..20] == name[..20] && r[20..] == "..."
  {
    if |name| > 20 then name[..20] + "..." else name
  }

  /** Truncating a shown name again changes nothing. */
  lemma TruncateIdempotent(name: string)
    ensures TruncateName(TruncateName(name)) == TruncateName(name)
    ensures |TruncateName(name)| <= 23
  {
    if |name| > 20 {
      var r := TruncateName(name);
      assert r[..20] + "..." == r;
    }
  }

  /** The top list as shown, names truncated. */
  function TopDisplay(rows: seq<Row>): (shown: seq<Row>)
    ensures |shown| == |TopRows(rows)|
    ensures forall i :: 0 <= i < |shown| ==>
      shown[i] == TopRows(rows)[i].(name := TruncateName(TopRows(rows)[i].name))
  {
    var top := TopRows(rows);
    seq(|top|, i requires 0 <= i < |top| => top[i].(name := TruncateName(top[i].name)))
  }

  const TopBase: seq<string> := ["Login", "Nombre", "Nivel"]

  /** The columns of the top list: those of Login, Nombre, Nivel present, then Wallet if present. */
  function TopColumns(columns: set<string>): (cols: seq<string>)
    ensures |cols| <= 4
    ensures "Wallet" in columns ==> |cols| > 0 && cols[|cols| - 1] == "Wallet"
  {
    Filter(TopBase, (c: string) => c in columns) + (if "Wallet" in columns then ["Wallet"] else [])
  }

  /** The top list shows exactly the wanted columns the table has, in the fixed order. */
  lemma TopColumnsSpec(columns: set<string>)
    ensures forall c :: c in TopColumns(columns) <==> c in columns && c in TopBase + ["Wallet"]
    ensures SubseqOf(TopColumns(columns), TopBase + ["Wallet"])
  {
    var p := (c: string) => c in columns;
    var base := Filter(TopBase, p);
    var extra := if "Wallet" in columns then ["Wallet"] else [];
    assert TopColumns(columns) == base + extra;
    forall c ensures c in base + extra <==> c in columns && c in TopBase + ["Wallet"] {
      if c in TopBase && c in columns {
        var i :| 0 <= i < |TopBase| && TopBase[i] == c;
        assert c in base;
      }
    }
    FilterIsSubseq(TopBase, p);
    SubseqAppend(base, TopBase, extra, ["Wallet"]);
  }

  lemma {:induction false} SubseqAppend<T>(a: seq<T>, b: seq<T>, c: seq<T>, d: seq<T>)
    requires SubseqOf(a, b) && SubseqOf(c, d)
    ensures SubseqOf(a + c, b + d)
    decreases |b|
  {
    if a == [] {
      SubseqSuffix(c, b, d);
      assert a + c == c;
    } else if a[0] == b[0] && SubseqOf(a[1..], b[1..]) {
      SubseqAppend(a[1..], b[1..], c, d);
      assert (a + c)[1..] == a[1..] + c;
      assert (b + d)[1..] == b[1..] + d;
    } else {
      SubseqAppend(a, b[1..], c, d);
      assert (b + d)[1..] == b[1..] + d;
    }
  }

  lemma {:induction false} SubseqSuffix<T>(c: seq<T>, b: seq<T>, d: seq<T>)
    requires SubseqOf(c, d)
    ensures SubseqOf(c, b + d)
    decreases |b|
  {
    if b != [] {
      SubseqSuffix(c, b[1..], d);
      assert (b + d)[1..] == b[1..] + d;
    } else {
      assert b + d == d;
    }
  }

  // -------------------------------------------------------------- the section

  /** `df['Nivel'].max()` of a non-empty table. */
  function MaxRowLevel(rows: seq<Row>): real
    requires rows != []
  {
    if |rows| == 1 then rows[0].level
    else
      var m := MaxRowLevel(rows[..|rows| - 1]);
      if rows[|rows| - 1].level > m then rows[|rows| - 1].level else m
  }

  /** The maximum level is positive exactly when some row's level is. */
  lemma {:induction false} MaxRowLevelPositive(rows: seq<Row>)
    requires rows != []
    ensures MaxRowLevel(rows) > 0.0 <==> exists i :: 0 <= i < |rows| && rows[i].level > 0.0
  {
    if |rows| > 1 {
      var init := rows[..|rows| - 1];
      MaxRowLevelPositive(init);
      if exists i :: 0 <= i < |init| && init[i].level > 0.0 {
        var i :| 0 <= i < |init| && init[i].level > 0.0;
        assert rows[i] == init[i];
      }
      if exists i :: 0 <= i < |rows| && rows[i].level > 0.0 {
        var i :| 0 <= i < |rows| && rows[i].level > 0.0;
        if i < |rows| - 1 { assert init[i] == rows[i]; }
      }
    }
  }

  /** What the charts section draws. */
  datatype ChartPlan = ChartPlan(hourly: seq<HourCount>, daily: bool, histogram: bool, top: seq<Row>)

  /** `render_charts`: nothing for an empty table. */
  function RenderCharts(rows: seq<Row>, daysBack: int): Option<ChartPlan>
  {
    if rows == [] then None
    else Some(ChartPlan(HourCounts(rows), daysBack > 1 && Stamped(rows) > 0, MaxRowLevel(rows) > 0.0, TopDisplay(rows)))
  }

  /**
   * An empty table draws nothing; otherwise the daily chart appears only for
   * more than one day back, the histogram only when some level is positive,
   * and the top list has `min(10, n)` rows.
   */
  lemma RenderChartsSpec(rows: seq<Row>, daysBack: int)
    ensures RenderCharts(rows, daysBack).None? <==> rows == []
    ensures RenderCharts(rows, daysBack).Some? ==>
      var plan := RenderCharts(rows, daysBack).value;
      && (plan.daily ==> daysBack > 1)
      && (plan.histogram <==> exists i :: 0 <= i < |rows| && rows[i].level > 0.0)
      && |plan.top| == Min(10, |rows|)
      && SumCounts(plan.hourly) == Stamped(rows)
  {
    if rows != [] {
      MaxRowLevelPositive(rows);
      HourCountsSpec(rows);
    }
  }
}
