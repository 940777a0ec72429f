/**
 * The reduction behind the chart: keep the records of the selected species,
 * census version and primary flag, title-case their tissue names, sum the
 * cell counts per title-cased name, and list the sums ascending by count,
 * together with the counts alone and their grand total.
 */
module Tally {
  import opened Utils
  import opened CensusData
  import opened Sorting

  /* ------------------------------------------------------------------------
   * Filter
   * ------------------------------------------------------------------------ */

  /** Species and version must be equal; the primary facet constrains only when set. */
  predicate Matches(sel: Selection, r: Record) {
    && r.species == sel.species
    && r.census == sel.census
    && (sel.primary.All? || sel.primary.isPrimary == r.isPrimary)
  }

  /** The records the selection keeps, in their input order. */
  function Filter(records: seq<Record>, sel: Selection): (kept: seq<Record>)
    ensures |kept| <= |records|
    ensures forall r :: r in kept <==> r in records && Matches(sel, r)
    decreases |records|
  {
    if |records| == 0 then []
    else
      assert records == [records[0]] + records[1..];
      (if Matches(sel, records[0]) then [records[0]] else []) + Filter(records[1..], sel)
  }

  /** Filtering commutes with concatenation, so survivors keep their relative order. */
  lemma {:induction false} FilterAppend(a: seq<Record>, b: seq<Record>, sel: Selection)
    ensures Filter(a + b, sel) == Filter(a, sel) + Filter(b, sel)
    decreases |a|
  {
    if |a| == 0 {
      assert a + b == b;
    } else {
      assert (a + b)[1..] == a[1..] + b;
      FilterAppend(a[1..], b, sel);
    }
  }

  /* ------------------------------------------------------------------------
   * Normalisation and the sums it is measured against
   * ------------------------------------------------------------------------ */

  /** Each kept record as a (title-cased tissue, cell count) pair. */
  function Normalize(records: seq<Record>): seq<TissueCount> {
    seq(|records|, i requires 0 <= i < |records| =>
      TissueCount(TitleCase(records[i].tissue), records[i].nCells))
  }

  /** Sum of the cell counts of the records. */
  function Cells(records: seq<Record>): nat {
    if |records| == 0 then 0 else records[0].nCells + Cells(records[1..])
  }

  /** Sum of the cell counts of the records whose title-cased tissue is `key`. */
  function CellsOf(records: seq<Record>, key: string): nat {
    if |records| == 0 then 0
    else (if TitleCase(records[0].tissue) == key then records[0].nCells else 0) + CellsOf(records[1..], key)
  }

  /** The title-cased tissue names of the records. */
  function KeysOf(records: seq<Record>): set<string> {
    set r | r in records :: TitleCase(r.tissue)
  }

  /** Sum of the counts of the pairs whose tissue is `key`. */
  function SumFor(counts: seq<TissueCount>, key: string): nat {
    if |counts| == 0 then 0
    else (if counts[0].tissue == key then counts[0].nCells else 0) + SumFor(counts[1..], key)
  }

  lemma {:induction false} SumForAppend(a: seq<TissueCount>, b: seq<TissueCount>, key: string)
    ensures SumFor(a + b, key) == SumFor(a, key) + SumFor(b, key)
    decreases |a|
  {
    if |a| == 0 {
      assert a + b == b;
    } else {
      assert (a + b)[1..] == a[1..] + b;
      SumForAppend(a[1..], b, key);
    }
  }

  lemma {:induction false} NormalizeCells(records: seq<Record>)
    ensures Total(Normalize(records)) == Cells(records)
    decreases |records|
  {
    if |records| > 0 {
      assert Normalize(records)[1..] == Normalize(records[1..]);
      NormalizeCells(records[1..]);
    }
  }

  lemma {:induction false} NormalizeCellsOf(records: seq<Record>, key: string)
    ensures SumFor(Normalize(records), key) == CellsOf(records, key)
    decreases |records|
  {
    if |records| > 0 {
      assert Normalize(records)[1..] == Normalize(records[1..]);
      NormalizeCellsOf(records[1..], key);
    }
  }

  lemma NormalizeKeys(records: seq<Record>)
    ensures TissuesOf(Normalize(records)) == KeysOf(records)
  {
    var n := Normalize(records);
    forall k | k in KeysOf(records)
      ensures k in TissuesOf(n)
    {
      var r :| r in records && TitleCase(r.tissue) == k;
      var i :| 0 <= i < |records| && records[i] == r;
      assert n[i] in n;
    }
  }

  /* ------------------------------------------------------------------------
   * Grouping: the dictionary object the counts are summed into
   * ------------------------------------------------------------------------ */

  /**
   * A string-keyed object used as a dictionary: its keys in insertion order
   * and the number stored under each.
   */
  datatype TissueTable = TissueTable(keys: seq<string>, sums: map<string, nat>)
  {
    predicate Valid() {
      && (forall i, j :: 0 <= i < j < |keys| ==> keys[i] != keys[j])
      && (forall k :: k in keys ==> k in sums)
      && (forall k :: k in sums ==> k in keys)
    }
  }

  /**
   * One step of the summing loop: an unseen tissue is first stored with 0
   * (and so joins the key order), then the count is added to it. Every
   * other entry is left as it was.
   */
  function Accumulate(t: TissueTable, c: TissueCount): (t': TissueTable)
    requires t.Valid()
    ensures t'.Valid()
    ensures t'.sums.Keys == t.sums.Keys + {c.tissue}
    ensures c.tissue in t.sums ==> t'.keys == t.keys && t'.sums[c.tissue] == t.sums[c.tissue] + c.nCells
    ensures c.tissue !in t.sums ==> t'.keys == t.keys + [c.tissue] && t'.sums[c.tissue] == c.nCells
    ensures forall k :: k in t.sums && k != c.tissue ==> t'.sums[k] == t.sums[k]
  {
    var seeded := if c.tissue in t.sums then t else TissueTable(t.keys + [c.tissue], t.sums[c.tissue := 0]);
    TissueTable(seeded.keys, seeded.sums[c.tissue := seeded.sums[c.tissue] + c.nCells])
  }

  /**
   * The summing loop over the normalised pairs, first to last. The table
   * holds exactly the tissues that occur, each with the sum of its counts.
   */
  function GroupSum(counts: seq<TissueCount>): (table: TissueTable)
    ensures table.Valid()
    ensures table.sums.Keys == TissuesOf(counts)
    ensures forall k :: k in table.sums ==> table.sums[k] == SumFor(counts, k)
    decreases |counts|
  {
    if |counts| == 0 then TissueTable([], map[])
    else
      var init := counts[..|counts| - 1];
      var last := counts[|counts| - 1];
      assert counts == init + [last];
      AccumulateSums(init, last, GroupSum(init));
      Accumulate(GroupSum(init), last)
  }

  lemma TissuesOfSnoc(init: seq<TissueCount>, last: TissueCount)
    ensures TissuesOf(init + [last]) == TissuesOf(init) + {last.tissue}
  {
    var counts := init + [last];
    forall k | k in TissuesOf(counts)
      ensures k in TissuesOf(init) + {last.tissue}
    {
      var c :| c in counts && c.tissue == k;
      assert c in init || c == last;
    }
    assert last in counts;
    forall k | k in TissuesOf(init)
      ensures k in TissuesOf(counts)
    {
      var c :| c in init && c.tissue == k;
      assert c in counts;
    }
  }

  /* ------------------------------------------------------------------------
   * The order in which tissues are first met
   * ------------------------------------------------------------------------ */

  /**
   * The tissues of `counts`, each once, in the order of their first
   * occurrence: a name joins the list when it is met for the first time.
   */
  function FirstSeen(counts: seq<TissueCount>): (order: seq<string>)
    ensures forall i, j :: 0 <= i < j < |order| ==> order[i] != order[j]
    ensures forall k :: k in order <==> k in TissuesOf(counts)
    decreases |counts|
  {
    if |counts| == 0 then []
    else
      var init := counts[..|counts| - 1];
      var last := counts[|counts| - 1];
      assert counts == init + [last];
      TissuesOfSnoc(init, last);
      var before := FirstSeen(init);
      if last.tissue in before then before else before + [last.tissue]
  }

  /**
   * A name listed before another is met before it: every occurrence of the
   * later name is preceded by an occurrence of the earlier one.
   */
  predicate InOrderMet(counts: seq<TissueCount>, order: seq<string>) {
    forall i, j, q :: 0 <= i < j < |order| && 0 <= q < |counts| && counts[q].tissue == order[j] ==>
      exists p :: 0 <= p < q && counts[p].tissue == order[i]
  }

  lemma {:induction false} FirstSeenOrder(counts: seq<TissueCount>)
    ensures InOrderMet(counts, FirstSeen(counts))
    decreases |counts|
  {
    if |counts| > 0 {
      var init := counts[..|counts| - 1];
      var last := counts[|counts| - 1];
      assert counts == init + [last];
      var before, order := FirstSeen(init), FirstSeen(counts);
      FirstSeenOrder(init);
      forall i, j, q | 0 <= i < j < |order| && 0 <= q < |counts| && counts[q].tissue == order[j]
        ensures exists p :: 0 <= p < q && counts[p].tissue == order[i]
      {
        assert order[i] in before;
        assert order[i] in TissuesOf(init);
        var c :| c in init && c.tissue == order[i];
        var p :| 0 <= p < |init| && init[p] == c;
        if q < |init| {
          assert counts[q] == init[q] && init[q] in init;
          assert order[j] in before;
          assert j < |before| && before[i] == order[i] && before[j] == order[j];
          assert init[q].tissue == before[j];
          var p' :| 0 <= p' < q && init[p'].tissue == before[i];
          assert counts[p'] == init[p'];
        } else {
          assert p < q && counts[p] == c;
        }
      }
    }
  }

  /** The summing loop's table lists its keys in the order they were first met. */
  lemma {:induction false} GroupSumKeysFirstSeen(counts: seq<TissueCount>)
    ensures GroupSum(counts).keys == FirstSeen(counts)
    decreases |counts|
  {
    if |counts| > 0 {
      var init := counts[..|counts| - 1];
      var last := counts[|counts| - 1];
      GroupSumKeysFirstSeen(init);
      var t := GroupSum(init);
      assert last.tissue in t.keys <==> last.tissue in t.sums;
    }
  }

  /** Adding one more pair keeps the table equal to the per-tissue sums of the longer prefix. */
  lemma AccumulateSums(init: seq<TissueCount>, last: TissueCount, before: TissueTable)
    requires before.Valid()
    requires before.sums.Keys == TissuesOf(init)
    requires forall k :: k in before.sums ==> before.sums[k] == SumFor(init, k)
    ensures var after := Accumulate(before, last);
      && after.sums.Keys == TissuesOf(init + [last])
      && forall k :: k in after.sums ==> after.sums[k] == SumFor(init + [last], k)
  {
    var after := Accumulate(before, last);
    TissuesOfSnoc(init, last);
    forall k | k in after.sums
      ensures after.sums[k] == SumFor(init + [last], k)
    {
      SumForAppend(init, [last], k);
      assert [last][1..] == [];
      if k != last.tissue {
        assert k in before.sums;
      } else if k !in before.sums {
        assert SumFor(init, k) == 0 by {
          SumForAbsent(init, k);
        }
      }
    }
  }

  lemma {:induction false} SumForAbsent(counts: seq<TissueCount>, key: string)
    requires key !in TissuesOf(counts)
    ensures SumFor(counts, key) == 0
    decreases |counts|
  {
    if |counts| > 0 {
      assert counts[0] in counts;
      assert TissuesOf(counts[1..]) <= TissuesOf(counts) by {
        forall k | k in TissuesOf(counts[1..])
          ensures k in TissuesOf(counts)
        {
          var c :| c in counts[1..] && c.tissue == k;
          assert c in counts;
        }
      }
      SumForAbsent(counts[1..], key);
    }
  }

  /** Object.entries: one pair per key, in key order. */
  function Entries(t: TissueTable): (e: seq<TissueCount>)
    requires t.Valid()
    ensures |e| == |t.keys|
    ensures forall i :: 0 <= i < |e| ==> e[i].tissue == t.keys[i]
    ensures DistinctTissues(e)
    ensures TissuesOf(e) == t.sums.Keys
    ensures forall c :: c in e <==> c.tissue in t.sums && t.sums[c.tissue] == c.nCells
  {
    var e := seq(|t.keys|, i requires 0 <= i < |t.keys| => TissueCount(t.keys[i], t.sums[t.keys[i]]));
    assert forall k :: k in t.sums ==> TissueCount(k, t.sums[k]) in e by {
      forall k | k in t.sums
        ensures TissueCount(k, t.sums[k]) in e
      {
        var i :| 0 <= i < |t.keys| && t.keys[i] == k;
        assert e[i] == TissueCount(k, t.sums[k]);
      }
    }
    e
  }

  /** Adding to a seen tissue changes its entry in place. */
  lemma EntriesOfSeen(t: TissueTable, c: TissueCount, p: nat)
    requires t.Valid() && p < |t.keys| && t.keys[p] == c.tissue
    ensures Entries(Accumulate(t, c)) == Entries(t)[p := TissueCount(c.tissue, t.sums[c.tissue] + c.nCells)]
  {
    var t' := Accumulate(t, c);
    var e, e' := Entries(t), Entries(t');
    var bumped := e[p := TissueCount(c.tissue, t.sums[c.tissue] + c.nCells)];
    forall i | 0 <= i < |e'|
      ensures e'[i] == bumped[i]
    {
      if i != p {
        assert t.keys[i] != c.tissue;
      }
    }
  }

  /** Adding an unseen tissue appends its entry. */
  lemma EntriesOfUnseen(t: TissueTable, c: TissueCount)
    requires t.Valid() && c.tissue !in t.sums
    ensures Entries(Accumulate(t, c)) == Entries(t) + [TissueCount(c.tissue, c.nCells)]
  {
    var t' := Accumulate(t, c);
    var e, e' := Entries(t), Entries(t');
    var appended := e + [TissueCount(c.tissue, c.nCells)];
    forall i | 0 <= i < |e'|
      ensures e'[i] == appended[i]
    {
      if i < |e| {
        assert t.keys[i] in t.sums;
      }
    }
  }

  /** One step of the summing loop raises the entries' total by exactly the pair's count. */
  lemma AccumulateTotal(t: TissueTable, c: TissueCount)
    requires t.Valid()
    ensures Total(Entries(Accumulate(t, c))) == Total(Entries(t)) + c.nCells
  {
    var e := Entries(t);
    if c.tissue in t.sums {
      var p :| 0 <= p < |t.keys| && t.keys[p] == c.tissue;
      EntriesOfSeen(t, c, p);
      TotalUpdate(e, p, TissueCount(c.tissue, t.sums[c.tissue] + c.nCells));
    } else {
      var added := TissueCount(c.tissue, c.nCells);
      EntriesOfUnseen(t, c);
      TotalAppend(e, [added]);
      assert [added][1..] == [];
    }
  }

  /** Grouping neither adds nor loses cells: the entries sum to the pairs' total. */
  lemma {:induction false} GroupSumTotal(counts: seq<TissueCount>)
    ensures Total(Entries(GroupSum(counts))) == Total(counts)
    decreases |counts|
  {
    if |counts| > 0 {
      var init := counts[..|counts| - 1];
      var last := counts[|counts| - 1];
      assert counts == init + [last];
      GroupSumTotal(init);
      TotalAppend(init, [last]);
      assert [last][1..] == [];
      AccumulateTotal(GroupSum(init), last);
    }
  }

  /* ------------------------------------------------------------------------
   * The whole reduction
   * ------------------------------------------------------------------------ */

  /** The counts of the buckets, bucket by bucket. */
  function NCells(hist: seq<TissueCount>): (n: seq<nat>)
    ensures |n| == |hist|
  {
    seq(|hist|, i requires 0 <= i < |hist| => hist[i].nCells)
  }

  /** Sum of a sequence of counts, as the zero-seeded reduce computes it. */
  function Sum(xs: seq<nat>): nat {
    if |xs| == 0 then 0 else xs[0] + Sum(xs[1..])
  }

  lemma {:induction false} SumNCells(hist: seq<TissueCount>)
    ensures Sum(NCells(hist)) == Total(hist)
    decreases |hist|
  {
    if |hist| > 0 {
      assert NCells(hist)[1..] == NCells(hist[1..]);
      SumNCells(hist[1..]);
    }
  }

  /** The dictionary of per-tissue sums for a selection. */
  function Buckets(records: seq<Record>, sel: Selection): TissueTable {
    GroupSum(Normalize(Filter(records, sel)))
  }

  datatype Tally = Tally(hist: seq<TissueCount>, nCells: seq<nat>, totalCells: nat)

  /**
   * The memoised derivation: the buckets ascending by count, their counts
   * alone, and the grand total of those counts.
   */
  function ComputeTally(records: seq<Record>, sel: Selection): (t: Tally)
    ensures Sorted(t.hist)
    ensures |t.nCells| == |t.hist|
    ensures forall i :: 0 <= i < |t.hist| ==> t.nCells[i] == t.hist[i].nCells
    ensures t.totalCells == Total(t.hist)
  {
    var hist := Sort(Entries(Buckets(records, sel)));
    var nCells := NCells(hist);
    SumNCells(hist);
    Tally(hist, nCells, Sum(nCells))
  }

  /** The bars are exactly the dictionary's entries: a permutation of them, no key twice. */
  lemma TallyPermutesBuckets(records: seq<Record>, sel: Selection)
    ensures var t, b := ComputeTally(records, sel), Buckets(records, sel);
      && |t.hist| == |b.sums|
      && DistinctTissues(t.hist)
      && forall c :: c in t.hist <==> c.tissue in b.sums && b.sums[c.tissue] == c.nCells
  {
    var b := Buckets(records, sel);
    var e := Entries(b);
    SortPermutes(e);
    TableSize(b);
  }

  lemma TableSize(t: TissueTable)
    requires t.Valid()
    ensures |t.sums| == |t.keys|
  {
    DistinctCard(t.keys);
    assert t.sums.Keys == set k | k in t.keys;
  }

  /** The bar names are exactly the title-cased tissues of the kept records. */
  lemma TallyKeys(records: seq<Record>, sel: Selection)
    ensures TissuesOf(ComputeTally(records, sel).hist) == KeysOf(Filter(records, sel))
  {
    var b := Buckets(records, sel);
    var hist := ComputeTally(records, sel).hist;
    TallyPermutesBuckets(records, sel);
    NormalizeKeys(Filter(records, sel));
    forall k | k in b.sums
      ensures k in TissuesOf(hist)
    {
      assert TissueCount(k, b.sums[k]) in hist;
    }
  }

  /** Each bar holds the summed cells of the kept records whose title-cased tissue is its name. */
  lemma TallyCounts(records: seq<Record>, sel: Selection)
    ensures var kept, hist := Filter(records, sel), ComputeTally(records, sel).hist;
      forall i :: 0 <= i < |hist| ==> hist[i].nCells == CellsOf(kept, hist[i].tissue)
  {
    var kept := Filter(records, sel);
    var hist := ComputeTally(records, sel).hist;
    TallyPermutesBuckets(records, sel);
    forall i | 0 <= i < |hist|
      ensures hist[i].nCells == CellsOf(kept, hist[i].tissue)
    {
      assert hist[i] in hist;
      NormalizeCellsOf(kept, hist[i].tissue);
    }
  }

  /** Kept records whose tissues title-case alike are counted in one and the same bar. */
  lemma TallyMerges(records: seq<Record>, sel: Selection, r1: Record, r2: Record)
    requires r1 in Filter(records, sel) && r2 in Filter(records, sel)
    requires TitleCase(r1.tissue) == TitleCase(r2.tissue)
    ensures var hist := ComputeTally(records, sel).hist;
      && (exists i :: 0 <= i < |hist| && hist[i].tissue == TitleCase(r1.tissue))
      && (forall i, j ::
            (0 <= i < |hist| && 0 <= j < |hist| &&
             hist[i].tissue == TitleCase(r1.tissue) && hist[j].tissue == TitleCase(r2.tissue)) ==> i == j)
  {
    var hist := ComputeTally(records, sel).hist;
    TallyKeys(records, sel);
    TallyPermutesBuckets(records, sel);
    var key := TitleCase(r1.tissue);
    assert key in KeysOf(Filter(records, sel));
    var c :| c in hist && c.tissue == key;
  }

  /** No cell is dropped or counted twice: the total is the kept records' cells. */
  lemma TallyTotal(records: seq<Record>, sel: Selection)
    ensures var t := ComputeTally(records, sel);
      t.totalCells == Total(t.hist) == Cells(Filter(records, sel))
  {
    var kept := Filter(records, sel);
    var e := Entries(Buckets(records, sel));
    SortTotal(e);
    GroupSumTotal(Normalize(kept));
    NormalizeCells(kept);
  }

  /** There are no bars exactly when the selection keeps no record; then the total is 0. */
  lemma TallyEmpty(records: seq<Record>, sel: Selection)
    ensures var t := ComputeTally(records, sel);
      && (t.hist == [] <==> Filter(records, sel) == [])
      && (Filter(records, sel) == [] ==> t.nCells == [] && t.totalCells == 0)
  {
    var kept := Filter(records, sel);
    var t := ComputeTally(records, sel);
    TallyKeys(records, sel);
    TallyTotal(records, sel);
    if |kept| > 0 {
      assert TitleCase(kept[0].tissue) in KeysOf(kept);
      assert TitleCase(kept[0].tissue) in TissuesOf(t.hist);
    }
    if |t.hist| > 0 {
      assert t.hist[0].tissue in TissuesOf(t.hist);
    }
  }

  /**
   * Among bars with equal counts, the order is the object's entry order,
   * and that order is the order in which the title-cased tissues were first met.
   */
  lemma TallyTies(records: seq<Record>, sel: Selection, n: nat)
    ensures WithCount(ComputeTally(records, sel).hist, n) == WithCount(Entries(Buckets(records, sel)), n)
    ensures var e, order := Entries(Buckets(records, sel)), FirstSeen(Normalize(Filter(records, sel)));
      |e| == |order| && forall i :: 0 <= i < |e| ==> e[i].tissue == order[i]
  {
    SortIsStable(Entries(Buckets(records, sel)), n);
    GroupSumKeysFirstSeen(Normalize(Filter(records, sel)));
  }

  /** A tissue spelt "lung" and "Lung" among primary records, and one secondary record. */
  const LungRecords: seq<Record> := [
    Record(HomoSapiens, January2025, "lung", true, 1000),
    Record(HomoSapiens, January2025, "Lung", true, 2000),
    Record(HomoSapiens, January2025, "liver", false, 500)]

  const PrimaryHumans2025: Selection := Selection(HomoSapiens, January2025, Only(true))

  lemma LungScenarioKept()
    ensures Filter(LungRecords, PrimaryHumans2025) == LungRecords[..2]
  {
    var rs := LungRecords;
    assert rs[1..][1..][1..] == [];
    assert !Matches(PrimaryHumans2025, rs[2]);
  }

  lemma LungScenarioSums()
    ensures KeysOf(LungRecords[..2]) == {"Lung"}
    ensures CellsOf(LungRecords[..2], "Lung") == 3000
  {
    CaseMergeExample();
    var r0 := Record(HomoSapiens, January2025, "lung", true, 1000);
    var r1 := Record(HomoSapiens, January2025, "Lung", true, 2000);
    var kept := [r0, r1];
    assert LungRecords[..2] == kept;
    assert kept[1..] == [r1];
    assert kept[1..][1..] == [];
    assert CellsOf([r1], "Lung") == 2000;
    assert r0 in kept && r1 in kept;
  }

  /** A distinct-named sequence whose only name is `k` is a single bar. */
  lemma SingleKey(hist: seq<TissueCount>, k: string)
    requires DistinctTissues(hist) && TissuesOf(hist) == {k}
    ensures |hist| == 1 && hist[0].tissue == k
  {
    DistinctTissuesCard(hist);
    assert hist[0] in hist;
  }

  lemma SingleBucketHist(records: seq<Record>, sel: Selection, k: string)
    requires KeysOf(Filter(records, sel)) == {k}
    ensures ComputeTally(records, sel).hist == [TissueCount(k, CellsOf(Filter(records, sel), k))]
  {
    var hist := ComputeTally(records, sel).hist;
    TallyKeys(records, sel);
    TallyPermutesBuckets(records, sel);
    SingleKey(hist, k);
    TallyCounts(records, sel);
  }

  /** When the kept records share one title-cased tissue, the chart is one bar with all their cells. */
  lemma SingleBucketTally(records: seq<Record>, sel: Selection, k: string)
    requires KeysOf(Filter(records, sel)) == {k}
    ensures var n := CellsOf(Filter(records, sel), k);
      ComputeTally(records, sel) == Tally([TissueCount(k, n)], [n], n)
  {
    var n := CellsOf(Filter(records, sel), k);
    var t := ComputeTally(records, sel);
    var bar := TissueCount(k, n);
    SingleBucketHist(records, sel, k);
    assert t.hist == [bar];
    assert Total([bar]) == n by {
      assert [bar][1..] == [];
    }
    assert |t.nCells| == 1 && t.nCells[0] == n;
    assert t.nCells == [n];
  }

  /** The two lung records merge into one bar of 3000 cells; the secondary record is left out. */
  lemma LungScenario()
    ensures ComputeTally(LungRecords, PrimaryHumans2025) == Tally([TissueCount("Lung", 3000)], [3000], 3000)
  {
    LungScenarioKept();
    LungScenarioSums();
    SingleBucketTally(LungRecords, PrimaryHumans2025, "Lung");
  }
}
