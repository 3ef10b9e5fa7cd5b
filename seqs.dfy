/**
 * Sequence vocabulary shared by the dashboard model: an option type,
 * order-preserving selection (the boolean-mask selections of the tables),
 * subsequences, Python's `s[:n]` slice, and the stable descending sort that
 * stands for `sort_values(ascending=False)`, `nlargest` and
 * `sorted(..., reverse=True)`.
 */
module Seqs {

  datatype Option<T> = None | Some(value: T) {
    function GetOr(default: T): T {
      match this
      case Some(v) => v
      case None => default
    }
  }

  function Min(a: int, b: int): int { if a <= b then a else b }

  /** The elements of `s` that satisfy `p`, in their original order. */
  function Filter<T>(s: seq<T>, p: T -> bool): (r: seq<T>)
    ensures |r| <= |s|
    ensures forall i :: 0 <= i < |r| ==> r[i] in s && p(r[i])
    ensures forall i :: 0 <= i < |s| && p(s[i]) ==> s[i] in r
  {
    if s == [] then [] else (if p(s[0]) then [s[0]] else []) + Filter(s[1..], p)
  }

  /** `a` is obtained from `b` by deleting elements (order kept). */
  ghost predicate SubseqOf<T>(a: seq<T>, b: seq<T>)
    decreases |b|
  {
    if a == [] then true
    else if b == [] then false
    else (a[0] == b[0] && SubseqOf(a[1..], b[1..])) || SubseqOf(a, b[1..])
  }

  lemma {:induction false} FilterIsSubseq<T>(s: seq<T>, p: T -> bool)
    ensures SubseqOf(Filter(s, p), s)
  {
    if s != [] {
      FilterIsSubseq(s[1..], p);
      var f := Filter(s, p);
      if p(s[0]) {
        assert f[0] == s[0] && f[1..] == Filter(s[1..], p);
      } else {
        assert f == Filter(s[1..], p);
      }
    }
  }

  lemma {:induction false} FilterAppend<T>(a: seq<T>, b: seq<T>, p: T -> bool)
    ensures Filter(a + b, p) == Filter(a, p) + Filter(b, p)
  {
    if a == [] {
      assert a + b == b;
    } else {
      assert (a + b)[1..] == a[1..] + b;
      FilterAppend(a[1..], b, p);
    }
  }

  /** Selecting with `p` and then with `q` is selecting with both at once. */
  lemma {:induction false} FilterFilter<T>(s: seq<T>, p: T -> bool, q: T -> bool, pq: T -> bool)
    requires forall x :: pq(x) == (p(x) && q(x))
    ensures Filter(Filter(s, p), q) == Filter(s, pq)
  {
    if s != [] {
      FilterFilter(s[1..], p, q, pq);
      var head := if p(s[0]) then [s[0]] else [];
      FilterAppend(head, Filter(s[1..], p), q);
    }
  }

  lemma {:induction false} FilterAll<T>(s: seq<T>, p: T -> bool)
    requires forall x :: x in s ==> p(x)
    ensures Filter(s, p) == s
  {
    if s != [] { FilterAll(s[1..], p); }
  }

  /** Python's `s[:n]`: a negative `n` counts from the end. */
  function PySlice<T>(s: seq<T>, n: int): (r: seq<T>)
    ensures n >= 0 ==> |r| == Min(n, |s|)
    ensures n < 0 ==> |r| == if |s| + n < 0 then 0 else |s| + n
    ensures r <= s
  {
    if n >= 0 then (if n <= |s| then s[..n] else s)
    else (if |s| + n < 0 then [] else s[..|s| + n])
  }

  /** `s` is in non-increasing order of `key` (stated on neighbours). */
  ghost predicate Descending<T>(s: seq<T>, key: T -> real)
  {
    forall i :: 0 < i < |s| ==> key(s[i - 1]) >= key(s[i])
  }

  lemma {:induction false} DescendingAt<T>(s: seq<T>, key: T -> real, i: nat, j: nat)
    requires Descending(s, key) && i <= j < |s|
    ensures key(s[i]) >= key(s[j])
    decreases j - i
  {
    if i < j { DescendingAt(s, key, i + 1, j); }
  }

  /** Neighbour order gives order between any two positions. */
  lemma DescendingPairs<T>(s: seq<T>, key: T -> real)
    requires Descending(s, key)
    ensures forall i, j :: 0 <= i <= j < |s| ==> key(s[i]) >= key(s[j])
  {
    forall i, j | 0 <= i <= j < |s| ensures key(s[i]) >= key(s[j]) {
      DescendingAt(s, key, i, j);
    }
  }

  /** Inserts `x` before the first element whose key is not larger than its own. */
  function Insert<T>(x: T, s: seq<T>, key: T -> real): (r: seq<T>)
    ensures |r| == |s| + 1
    ensures multiset(r) == multiset(s) + multiset{x}
  {
    if s == [] then [x]
    else if key(x) >= key(s[0]) then [x] + s
    else assert s == [s[0]] + s[1..]; [s[0]] + Insert(x, s[1..], key)
  }

  /**
   * Stable sort by decreasing key: elements with equal keys keep their input
   * order. Its properties are SortDescSpec and SortDescStable.
   */
  function SortDesc<T>(s: seq<T>, key: T -> real): (r: seq<T>)
    ensures |r| == |s|
  {
    if s == [] then [] else Insert(s[0], SortDesc(s[1..], key), key)
  }

  /** A head no smaller than the first element of a descending sequence keeps it descending. */
  lemma DescendingCons<T>(a: T, t: seq<T>, key: T -> real)
    requires Descending(t, key)
    requires t != [] ==> key(a) >= key(t[0])
    ensures Descending([a] + t, key)
  {
    var r := [a] + t;
    forall i | 0 < i < |r| ensures key(r[i - 1]) >= key(r[i]) {
      if i > 1 { assert r[i - 1] == t[i - 2] && r[i] == t[i - 1]; }
    }
  }

  lemma {:induction false} InsertDescending<T>(x: T, s: seq<T>, key: T -> real)
    requires Descending(s, key)
    ensures Descending(Insert(x, s, key), key)
    ensures Insert(x, s, key)[0] == x || (s != [] && Insert(x, s, key)[0] == s[0])
  {
    if s == [] {
      DescendingCons(x, s, key);
    } else if key(x) >= key(s[0]) {
      DescendingCons(x, s, key);
    } else {
      var t := Insert(x, s[1..], key);
      assert Insert(x, s, key) == [s[0]] + t;
      assert Descending(s[1..], key) by {
        forall i | 0 < i < |s[1..]| ensures key(s[1..][i - 1]) >= key(s[1..][i]) {
          assert s[1..][i - 1] == s[i] && s[1..][i] == s[i + 1];
        }
      }
      InsertDescending(x, s[1..], key);
      assert key(s[0]) >= key(t[0]) by {
        if t[0] != x { assert t[0] == s[1]; }
      }
      DescendingCons(s[0], t, key);
    }
  }

  /** The sorted sequence is in non-increasing key order and is a permutation of the input. */
  lemma {:induction false} SortDescSpec<T>(s: seq<T>, key: T -> real)
    ensures Descending(SortDesc(s, key), key)
    ensures multiset(SortDesc(s, key)) == multiset(s)
  {
    if s != [] {
      SortDescSpec(s[1..], key);
      InsertDescending(s[0], SortDesc(s[1..], key), key);
      assert s == [s[0]] + s[1..];
    }
  }

  /** The elements of `s` whose key is `v`, in order. */
  function WithKey<T>(s: seq<T>, key: T -> real, v: real): seq<T>
  {
    if s == [] then [] else (if key(s[0]) == v then [s[0]] else []) + WithKey(s[1..], key, v)
  }

  /** `WithKey` of a sequence with a known head. */
  lemma WithKeyCons<T>(a: T, t: seq<T>, key: T -> real, v: real)
    ensures WithKey([a] + t, key, v) == (if key(a) == v then [a] else []) + WithKey(t, key, v)
  {
    assert ([a] + t)[0] == a && ([a] + t)[1..] == t;
  }

  lemma {:induction false} InsertWithKey<T>(x: T, s: seq<T>, key: T -> real, v: real)
    ensures WithKey(Insert(x, s, key), key, v) == (if key(x) == v then [x] else []) + WithKey(s, key, v)
  {
    var hx := if key(x) == v then [x] else [];
    if s == [] {
      WithKeyCons(x, [], key, v);
    } else if key(x) >= key(s[0]) {
      WithKeyCons(x, s, key, v);
    } else {
      var t := Insert(x, s[1..], key);
      assert Insert(x, s, key) == [s[0]] + t;
      InsertWithKey(x, s[1..], key, v);
      WithKeyCons(s[0], t, key, v);
      WithKeyCons(s[0], s[1..], key, v);
      assert s == [s[0]] + s[1..];
      SwapHeads(if key(s[0]) == v then [s[0]] else [], hx, WithKey(s[1..], key, v));
    }
  }

  /** Two prefixes of which one is empty commute. */
  lemma SwapHeads<T>(a: seq<T>, b: seq<T>, w: seq<T>)
    requires a == [] || b == []
    ensures a + (b + w) == b + (a + w)
  {
    if a == [] { assert a + (b + w) == b + w; } else { assert b + (a + w) == a + w; }
  }

  /** Stability: among equal keys the sort keeps the input order. */
  lemma {:induction false} SortDescStable<T>(s: seq<T>, key: T -> real, v: real)
    ensures WithKey(SortDesc(s, key), key, v) == WithKey(s, key, v)
  {
    if s != [] {
      SortDescStable(s[1..], key, v);
      InsertWithKey(s[0], SortDesc(s[1..], key), key, v);
    }
  }

  /**
   * The first `n` of a descending sort: no element left out has a larger key
   * than one kept, and the kept ones come from the input.
   */
  lemma TopNSplit<T>(s: seq<T>, key: T -> real, n: nat)
    requires n <= |s|
    ensures var r := SortDesc(s, key);
      && Descending(r[..n], key)
      && multiset(r[..n]) <= multiset(s)
      && forall i, j :: 0 <= i < n <= j < |s| ==> key(r[i]) >= key(r[j])
  {
    SortDescSpec(s, key);
    PrefixSplit(SortDesc(s, key), key, n);
  }

  /** The first `n` of a descending sequence: descending, a sub-multiset, and no smaller than the rest. */
  lemma PrefixSplit<T>(r: seq<T>, key: T -> real, n: nat)
    requires Descending(r, key) && n <= |r|
    ensures Descending(r[..n], key)
    ensures multiset(r[..n]) <= multiset(r)
    ensures forall i, j :: 0 <= i < n <= j < |r| ==> key(r[i]) >= key(r[j])
  {
    forall i | 0 < i < n ensures key(r[..n][i - 1]) >= key(r[..n][i]) {
      assert r[..n][i - 1] == r[i - 1] && r[..n][i] == r[i];
    }
    assert multiset(r[..n]) <= multiset(r) by {
      assert r == r[..n] + r[n..];
    }
    forall i, j | 0 <= i < n <= j < |r| ensures key(r[i]) >= key(r[j]) {
      DescendingAt(r, key, i, j);
    }
  }
}
