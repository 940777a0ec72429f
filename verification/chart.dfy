/**
 * The y-axis tick text of the bar chart: each bar's tissue name, elided to
 * fifteen characters and an ellipsis when it is longer than sixteen, and
 * always followed by one space of clearance.
 */
module Chart {
  import opened CensusData

  /** Names longer than ElideAt + 1 characters are cut to ElideAt of them. */
  const ElideAt: nat := 15

  /** The ellipsis character U+2026 that marks a cut name. */
  const Ellipsis: char := '\U{2026}'

  function Min(a: int, b: int): int {
    if a <= b then a else b
  }

  /**
   * One tick label. It is never longer than ElideAt + 2 characters, ends in
   * the clearance space, keeps the first characters of the name, and gives
   * back the whole name (before that space) exactly when no cut was needed.
   */
  function TickLabel(tissue: string): (tick: string)
    ensures |tick| == Min(|tissue|, ElideAt + 1) + 1
    ensures |tick| <= ElideAt + 2
    ensures tick[|tick| - 1] == ' '
    ensures tick[..|tick| - 1] == tissue <==> |tissue| <= ElideAt + 1
    ensures forall i :: 0 <= i < Min(|tissue|, ElideAt) ==> tick[i] == tissue[i]
    ensures |tissue| > ElideAt + 1 ==> tick[ElideAt] == Ellipsis
  {
    var abbrev := if |tissue| > ElideAt + 1 then tissue[..ElideAt] + [Ellipsis] else tissue;
    assert (abbrev + " ")[..|abbrev|] == abbrev;
    abbrev + " "
  }

  /** The tick text of all bars, one tick per bar in bar order. */
  function TickText(hist: seq<TissueCount>): (ticks: seq<string>)
    ensures |ticks| == |hist|
    ensures forall i :: 0 <= i < |hist| ==> ticks[i] == TickLabel(hist[i].tissue)
    ensures forall i :: 0 <= i < |ticks| ==> 1 <= |ticks[i]| <= ElideAt + 2 && ticks[i][|ticks[i]| - 1] == ' '
  {
    seq(|hist|, i requires 0 <= i < |hist| => TickLabel(hist[i].tissue))
  }

  /** A sixteen-character name is kept whole; a seventeen-character one is cut. */
  lemma ElisionBoundaryExample()
    ensures TickLabel("Abcdefghijklmnop") == "Abcdefghijklmnop "
    ensures TickLabel("Abcdefghijklmnopq") == "Abcdefghijklmno\U{2026} "
  {
  }
}
