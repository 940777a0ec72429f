/**
 * The ascending sort of the buckets by cell count. The comparator
 * `a.n_cells - b.n_cells` with a stable sort determines the result
 * completely; it is computed here by insertion sort, and the result is shown
 * to be the only sorted arrangement that keeps equal counts in input order.
 */
module Sorting {
  import opened CensusData

  /** Ascending by cell count: no bucket has more cells than a later one. */
  predicate Sorted(s: seq<TissueCount>) {
    forall i, j :: 0 <= i < j < |s| ==> s[i].nCells <= s[j].nCells
  }

  /** Places `c` in front of the first bucket whose count is at least its own. */
  function Insert(c: TissueCount, s: seq<TissueCount>): (r: seq<TissueCount>)
    ensures multiset(r) == multiset(s) + multiset{c}
    ensures |r| == |s| + 1
    ensures r[0] == c || (|s| > 0 && r[0] == s[0])
    decreases |s|
  {
    if |s| == 0 || c.nCells <= s[0].nCells then [c] + s
    else
      assert s == [s[0]] + s[1..];
      [s[0]] + Insert(c, s[1..])
  }

  lemma {:induction false} InsertSorted(c: TissueCount, s: seq<TissueCount>)
    requires Sorted(s)
    ensures Sorted(Insert(c, s))
    decreases |s|
  {
    if |s| > 0 && c.nCells > s[0].nCells {
      var tail := Insert(c, s[1..]);
      InsertSorted(c, s[1..]);
      assert s[0].nCells <= tail[0].nCells;
      assert Insert(c, s) == [s[0]] + tail;
    }
  }

  /** The stable ascending sort of the buckets by count. */
  function Sort(s: seq<TissueCount>): (r: seq<TissueCount>)
    ensures multiset(r) == multiset(s)
    ensures Sorted(r)
    decreases |s|
  {
    if |s| == 0 then []
    else
      var rest := Sort(s[1..]);
      InsertSorted(s[0], rest);
      assert s == [s[0]] + s[1..];
      Insert(s[0], rest)
  }

  /** The buckets of `s` whose count is `n`, in their order in `s`. */
  function WithCount(s: seq<TissueCount>, n: nat): seq<TissueCount>
    decreases |s|
  {
    if |s| == 0 then []
    else (if s[0].nCells == n then [s[0]] else []) + WithCount(s[1..], n)
  }

  /** `WithCount(s, n)` holds exactly the buckets of `s` with count `n`. */
  lemma {:induction false} WithCountMembers(s: seq<TissueCount>, n: nat)
    ensures forall c :: c in WithCount(s, n) <==> c in s && c.nCells == n
    decreases |s|
  {
    if |s| > 0 {
      WithCountMembers(s[1..], n);
      assert s == [s[0]] + s[1..];
    }
  }

  lemma WithCountCons(c: TissueCount, s: seq<TissueCount>, n: nat)
    ensures WithCount([c] + s, n) == (if c.nCells == n then [c] else []) + WithCount(s, n)
  {
    assert ([c] + s)[1..] == s;
  }

  lemma {:induction false} InsertWithCount(c: TissueCount, s: seq<TissueCount>, n: nat)
    ensures WithCount(Insert(c, s), n) == (if c.nCells == n then [c] else []) + WithCount(s, n)
    decreases |s|
  {
    var hc := if c.nCells == n then [c] else [];
    if |s| == 0 || c.nCells <= s[0].nCells {
      WithCountCons(c, s, n);
    } else {
      var tail := Insert(c, s[1..]);
      var h0 := if s[0].nCells == n then [s[0]] else [];
      var rest := WithCount(s[1..], n);
      calc {
        WithCount(Insert(c, s), n);
      ==
        WithCount([s[0]] + tail, n);
      == { WithCountCons(s[0], tail, n); }
        h0 + WithCount(tail, n);
      == { InsertWithCount(c, s[1..], n); }
        h0 + (hc + rest);
      == { if h0 == [] { assert [] + (hc + rest) == hc + ([] + rest); }
           else { assert hc == []; assert h0 + ([] + rest) == [] + (h0 + rest); } }
        hc + (h0 + rest);
      == { WithCountCons(s[0], s[1..], n); assert [s[0]] + s[1..] == s; }
        hc + WithCount(s, n);
      }
    }
  }

  /** Stability: among buckets with equal counts the input order survives. */
  lemma {:induction false} SortIsStable(s: seq<TissueCount>, n: nat)
    ensures WithCount(Sort(s), n) == WithCount(s, n)
    decreases |s|
  {
    if |s| > 0 {
      SortIsStable(s[1..], n);
      InsertWithCount(s[0], Sort(s[1..]), n);
    }
  }

  /** Sequences that agree on every count hold the same buckets. */
  lemma SameCountsSameElements(a: seq<TissueCount>, b: seq<TissueCount>)
    requires forall n: nat :: WithCount(a, n) == WithCount(b, n)
    ensures forall c :: c in a <==> c in b
  {
    forall c
      ensures c in a <==> c in b
    {
      WithCountMembers(a, c.nCells);
      WithCountMembers(b, c.nCells);
    }
  }

  /** Two sorted sequences holding the same buckets start with equal counts. */
  lemma SortedHeadsHaveEqualCounts(a: seq<TissueCount>, b: seq<TissueCount>)
    requires Sorted(a) && Sorted(b) && |a| > 0 && |b| > 0
    requires forall c :: c in a <==> c in b
    ensures a[0].nCells == b[0].nCells
  {
    assert a[0] in b;
    assert b[0] in a;
  }

  /** Removing equal heads keeps two sequences agreeing on the count `n`. */
  lemma TailsAgreeOnCount(a: seq<TissueCount>, b: seq<TissueCount>, n: nat)
    requires |a| > 0 && |b| > 0 && a[0] == b[0]
    requires WithCount(a, n) == WithCount(b, n)
    ensures WithCount(a[1..], n) == WithCount(b[1..], n)
  {
    var wa, wb := WithCount(a[1..], n), WithCount(b[1..], n);
    var head := if a[0].nCells == n then [a[0]] else [];
    assert WithCount(a, n) == head + wa;
    assert WithCount(b, n) == head + wb;
    assert (head + wa)[|head|..] == wa;
    assert (head + wb)[|head|..] == wb;
  }

  /**
   * Two sorted sequences with the same buckets of every count, in the same
   * order, are equal: a stable sort has exactly one possible result.
   */
  lemma {:induction false} StableSortUnique(a: seq<TissueCount>, b: seq<TissueCount>)
    requires Sorted(a) && Sorted(b)
    requires forall n: nat :: WithCount(a, n) == WithCount(b, n)
    ensures a == b
    decreases |a|
  {
    SameCountsSameElements(a, b);
    if |a| > 0 {
      assert a[0] in b;
    }
    if |b| > 0 {
      assert b[0] in a;
    }
    if |a| > 0 {
      SortedHeadsHaveEqualCounts(a, b);
      var m := a[0].nCells;
      assert WithCount(a, m)[0] == a[0];
      assert WithCount(b, m)[0] == b[0];
      forall n: nat
        ensures WithCount(a[1..], n) == WithCount(b[1..], n)
      {
        TailsAgreeOnCount(a, b, n);
      }
      StableSortUnique(a[1..], b[1..]);
      assert a == [a[0]] + a[1..];
      assert b == [b[0]] + b[1..];
    }
  }

  /** `Sort` is the one stable ascending arrangement of its input. */
  lemma SortIsTheStableSort(s: seq<TissueCount>, r: seq<TissueCount>)
    requires Sorted(r)
    requires forall n: nat :: WithCount(r, n) == WithCount(s, n)
    ensures r == Sort(s)
  {
    forall n: nat
      ensures WithCount(r, n) == WithCount(Sort(s), n)
    {
      SortIsStable(s, n);
    }
    StableSortUnique(r, Sort(s));
  }

  lemma {:induction false} InsertTotal(c: TissueCount, s: seq<TissueCount>)
    ensures Total(Insert(c, s)) == c.nCells + Total(s)
    decreases |s|
  {
    if |s| == 0 || c.nCells <= s[0].nCells {
      assert ([c] + s)[1..] == s;
    } else {
      assert Insert(c, s)[1..] == Insert(c, s[1..]);
      InsertTotal(c, s[1..]);
    }
  }

  /** Sorting neither adds nor loses cells. */
  lemma {:induction false} SortTotal(s: seq<TissueCount>)
    ensures Total(Sort(s)) == Total(s)
    decreases |s|
  {
    if |s| > 0 {
      SortTotal(s[1..]);
      InsertTotal(s[0], Sort(s[1..]));
    }
  }

  lemma {:induction false} InsertDistinct(c: TissueCount, s: seq<TissueCount>)
    requires DistinctTissues(s)
    requires forall d :: d in s ==> d.tissue != c.tissue
    ensures DistinctTissues(Insert(c, s))
    decreases |s|
  {
    var r := Insert(c, s);
    if |s| == 0 || c.nCells <= s[0].nCells {
      forall i, j | 0 <= i < j < |r|
        ensures r[i].tissue != r[j].tissue
      {
        if i > 0 {
          assert r[i] == s[i - 1] && r[j] == s[j - 1];
        } else {
          assert r[j] in s;
        }
      }
    } else {
      var tail := Insert(c, s[1..]);
      InsertDistinct(c, s[1..]);
      assert r == [s[0]] + tail;
      forall i, j | 0 <= i < j < |r|
        ensures r[i].tissue != r[j].tissue
      {
        if i == 0 {
          assert r[j] == tail[j - 1];
          assert tail[j - 1] in multiset(tail);
          assert tail[j - 1] == c || tail[j - 1] in s[1..];
        } else {
          assert r[i] == tail[i - 1] && r[j] == tail[j - 1];
        }
      }
    }
  }

  /** Sorting keeps tissue names pairwise distinct. */
  lemma {:induction false} SortDistinct(s: seq<TissueCount>)
    requires DistinctTissues(s)
    ensures DistinctTissues(Sort(s))
    decreases |s|
  {
    if |s| > 0 {
      var rest := Sort(s[1..]);
      SortDistinct(s[1..]);
      forall d | d in rest
        ensures d.tissue != s[0].tissue
      {
        assert d in multiset(rest);
        assert d in s[1..];
      }
      InsertDistinct(s[0], rest);
    }
  }

  /** The sorted buckets are those of the input, as many, with no tissue twice. */
  lemma SortPermutes(s: seq<TissueCount>)
    requires DistinctTissues(s)
    ensures |Sort(s)| == |s|
    ensures DistinctTissues(Sort(s))
    ensures forall c :: c in Sort(s) <==> c in s
  {
    var r := Sort(s);
    SortDistinct(s);
    assert |r| == |multiset(r)| == |multiset(s)| == |s|;
    forall c
      ensures c in r <==> c in s
    {
      assert c in r <==> c in multiset(r);
      assert c in s <==> c in multiset(s);
    }
  }
}
