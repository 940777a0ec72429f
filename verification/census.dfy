/**
 * The data the chart reduces: one record per (species, census version,
 * tissue, primary flag) with its cell count, the three-facet selection the
 * user makes, and the (tissue, count) buckets the reduction produces.
 */
module CensusData {

  datatype Species = HomoSapiens | MusMusculus

  /** The census releases, one constructor per date-stamped version. */
  datatype CensusVersion = May2023 | July2023 | December2023 | July2024 | January2025
  {
    function Date(): string {
      match this
      case May2023 => "2023-05-15"
      case July2023 => "2023-07-25"
      case December2023 => "2023-12-15"
      case July2024 => "2024-07-01"
      case January2025 => "2025-01-30"
    }
  }

  /** The versions in chronological order, as the version picker lists them. */
  const CensusVersions: seq<CensusVersion> :=
    [May2023, July2023, December2023, July2024, January2025]

  /** The tri-state primary facet: no constraint, or only one kind of sample. */
  datatype PrimaryFilter = All | Only(isPrimary: bool)

  datatype Record = Record(
    species: Species,
    census: CensusVersion,
    tissue: string,
    isPrimary: bool,
    nCells: nat)

  datatype Selection = Selection(species: Species, census: CensusVersion, primary: PrimaryFilter)

  /** One bar of the chart: a tissue name and its cell count. */
  datatype TissueCount = TissueCount(tissue: string, nCells: nat)

  /** Sum of the counts of a sequence of buckets. */
  function Total(s: seq<TissueCount>): nat {
    if |s| == 0 then 0 else s[0].nCells + Total(s[1..])
  }

  lemma {:induction false} TotalAppend(a: seq<TissueCount>, b: seq<TissueCount>)
    ensures Total(a + b) == Total(a) + Total(b)
    decreases |a|
  {
    if |a| > 0 {
      assert (a + b)[1..] == a[1..] + b;
      TotalAppend(a[1..], b);
    } else {
      assert a + b == b;
    }
  }

  /** Replacing one bucket changes the total by the difference of the two counts. */
  lemma {:induction false} TotalUpdate(s: seq<TissueCount>, i: nat, c: TissueCount)
    requires i < |s|
    ensures Total(s[i := c]) + s[i].nCells == Total(s) + c.nCells
    decreases |s|
  {
    if i > 0 {
      assert s[i := c][1..] == s[1..][i - 1 := c];
      TotalUpdate(s[1..], i - 1, c);
    }
  }

  /** No tissue name occurs in two buckets. */
  predicate DistinctTissues(s: seq<TissueCount>) {
    forall i, j :: 0 <= i < j < |s| ==> s[i].tissue != s[j].tissue
  }

  function TissuesOf(s: seq<TissueCount>): set<string> {
    set c | c in s :: c.tissue
  }

  /** A sequence without repetitions has as many elements as its set. */
  lemma {:induction false} DistinctCard<T>(xs: seq<T>)
    requires forall i, j :: 0 <= i < j < |xs| ==> xs[i] != xs[j]
    ensures |set x | x in xs| == |xs|
    decreases |xs|
  {
    if |xs| > 0 {
      var rest := xs[1..];
      DistinctCard(rest);
      assert (set x | x in xs) == (set x | x in rest) + {xs[0]};
      assert xs[0] !in rest;
    }
  }

  /** With no name repeated, there are as many names as buckets. */
  lemma DistinctTissuesCard(s: seq<TissueCount>)
    requires DistinctTissues(s)
    ensures |TissuesOf(s)| == |s|
  {
    var names := seq(|s|, i requires 0 <= i < |s| => s[i].tissue);
    DistinctCard(names);
    assert TissuesOf(s) == set x | x in names by {
      forall k | k in TissuesOf(s)
        ensures k in names
      {
        var c :| c in s && c.tissue == k;
        var i :| 0 <= i < |s| && s[i] == c;
        assert names[i] == k;
      }
    }
  }
}
