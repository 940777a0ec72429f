/**
 * The string helpers of the census tissue chart: title-casing a tissue name,
 * replacing its first underscore, and the magnitude text of a cell count.
 *
 * The application defines each helper twice, once exported from the utilities
 * file and once privately inside the chart component; the two copies are
 * identical and are modelled once here.
 */
module Utils {

  datatype Option<T> = None | Some(value: T)

  /* ------------------------------------------------------------------------
   * titleCase: split at every single '_' or ' ', upper-case the first
   * character of each piece, join the pieces with single spaces.
   * ------------------------------------------------------------------------ */

  /** The splitter cuts a name at every single underscore or space. */
  predicate IsSeparator(c: char) {
    c == '_' || c == ' '
  }

  /** Upper-casing of one character; only the ASCII letters a-z change. */
  function Upper(c: char): (u: char)
    ensures !('a' <= u <= 'z')
    ensures 'a' <= c <= 'z' ==> 'A' <= u <= 'Z'
    ensures !('a' <= c <= 'z') ==> u == c
    ensures IsSeparator(u) <==> IsSeparator(c)
  {
    if 'a' <= c <= 'z' then (c as int - 32) as char else c
  }

  /** Number of separator characters in `s`. */
  function SeparatorCount(s: string): nat {
    if |s| == 0 then 0
    else (if IsSeparator(s[0]) then 1 else 0) + SeparatorCount(s[1..])
  }

  predicate NoSeparator(w: string) {
    forall i :: 0 <= i < |w| ==> !IsSeparator(w[i])
  }

  /**
   * The pieces between separators, empty pieces included: a string with k
   * separators always yields k + 1 pieces, none of which holds a separator.
   */
  function Split(s: string): (words: seq<string>)
    ensures |words| == SeparatorCount(s) + 1
    ensures forall w :: w in words ==> NoSeparator(w)
    decreases |s|
  {
    if |s| == 0 then [""]
    else
      var rest := Split(s[1..]);
      if IsSeparator(s[0]) then [""] + rest
      else
        assert NoSeparator([s[0]] + rest[0]) by {
          assert rest[0] in rest;
        }
        [[s[0]] + rest[0]] + rest[1..]
  }

  /** The pieces concatenated with one space between neighbours. */
  function Join(words: seq<string>): string
    requires |words| >= 1
    decreases |words|
  {
    if |words| == 1 then words[0] else words[0] + " " + Join(words[1..])
  }

  /** First character upper-cased, the rest untouched; "" stays "". */
  function Capitalize(w: string): string {
    if |w| == 0 then w else [Upper(w[0])] + w[1..]
  }

  function CapitalizeAll(words: seq<string>): (r: seq<string>)
    ensures |r| == |words|
  {
    if |words| == 0 then [] else [Capitalize(words[0])] + CapitalizeAll(words[1..])
  }

  /** Whether position `i` starts a word; `atStart` says whether position 0 does. */
  predicate StartsWord(s: string, i: nat, atStart: bool)
    requires i < |s|
  {
    if i == 0 then atStart else IsSeparator(s[i - 1])
  }

  /** What title-casing puts at position `i` of `s`. */
  function TitleChar(s: string, i: nat, atStart: bool): char
    requires i < |s|
  {
    if IsSeparator(s[i]) then ' '
    else if StartsWord(s, i, atStart) then Upper(s[i])
    else s[i]
  }

  /**
   * Reference definition of title-casing as one left-to-right pass over the
   * characters: a separator becomes a space, a character right after a
   * separator (or at the start, when `atStart`) is upper-cased.
   */
  function TitleScan(s: string, atStart: bool): (t: string)
    ensures |t| == |s|
    ensures forall i :: 0 <= i < |s| ==> t[i] == TitleChar(s, i, atStart)
    decreases |s|
  {
    if |s| == 0 then ""
    else
      var c := s[0];
      var rest := TitleScan(s[1..], IsSeparator(c));
      var t := (if IsSeparator(c) then [' '] else if atStart then [Upper(c)] else [c]) + rest;
      assert forall i :: 1 <= i < |s| ==> t[i] == TitleChar(s, i, atStart) by {
        forall i | 1 <= i < |s|
          ensures t[i] == TitleChar(s, i, atStart)
        {
          assert t[i] == rest[i - 1];
          assert s[1..][i - 1] == s[i];
          if i > 1 {
            assert s[1..][i - 2] == s[i - 1];
          }
        }
      }
      t
  }

  /**
   * titleCase of the source: split, capitalize every piece, join with spaces.
   * The result has the length of `s`, holds no underscore, and agrees with
   * the one-pass reference at every position.
   */
  function TitleCase(s: string): (t: string)
    ensures |t| == |s|
    ensures forall i :: 0 <= i < |s| ==> t[i] == TitleChar(s, i, true)
    ensures '_' !in t
  {
    var words := Split(s);
    ScanMatchesSplit(s, true);
    assert CapitalizeAll(words) == [Capitalize(words[0])] + CapitalizeAll(words[1..]);
    var t := Join(CapitalizeAll(words));
    assert forall i :: 0 <= i < |t| ==> t[i] != '_' by {
      forall i | 0 <= i < |t|
        ensures t[i] != '_'
      {
        assert t[i] == TitleChar(s, i, true);
      }
    }
    t
  }

  /** Capitalizes `w` when `doIt` holds. */
  function CapitalizeIf(doIt: bool, w: string): string {
    if doIt then Capitalize(w) else w
  }

  lemma JoinCons(x: char, w: string, ws: seq<string>)
    ensures Join([[x] + w] + ws) == [x] + Join([w] + ws)
  {
    var a := [[x] + w] + ws;
    var b := [w] + ws;
    if |ws| > 0 {
      assert a[1..] == ws;
      assert b[1..] == ws;
    }
  }

  /**
   * The split/capitalize/join composition equals the one-pass reference:
   * the first piece is capitalized exactly when `atStart`, every later one
   * always.
   */
  lemma {:induction false} ScanMatchesSplit(s: string, atStart: bool)
    ensures
      var ws := Split(s);
      TitleScan(s, atStart) == Join([CapitalizeIf(atStart, ws[0])] + CapitalizeAll(ws[1..]))
    decreases |s|
  {
    var ws := Split(s);
    if |s| == 0 {
      assert ws == [""];
    } else {
      var c := s[0];
      var rs := Split(s[1..]);
      if IsSeparator(c) {
        ScanMatchesSplit(s[1..], true);
        assert ws == [""] + rs;
        assert ws[1..] == rs;
        assert CapitalizeAll(rs) == [Capitalize(rs[0])] + CapitalizeAll(rs[1..]);
        var parts := [CapitalizeIf(atStart, ws[0])] + CapitalizeAll(ws[1..]);
        assert parts[0] == "";
        assert parts[1..] == CapitalizeAll(rs);
      } else {
        ScanMatchesSplit(s[1..], false);
        assert ws == [[c] + rs[0]] + rs[1..];
        assert ws[1..] == rs[1..];
        var y := if atStart then Upper(c) else c;
        assert ([c] + rs[0])[1..] == rs[0];
        assert CapitalizeIf(atStart, ws[0]) == [y] + rs[0];
        JoinCons(y, rs[0], CapitalizeAll(rs[1..]));
      }
    }
  }

  /** `s` with every separator, of either kind, turned into a space. */
  function Unify(s: string): string {
    seq(|s|, i requires 0 <= i < |s| => if IsSeparator(s[i]) then ' ' else s[i])
  }

  /**
   * Joining the pieces gives the name back with every separator a space, so
   * no character is lost and empty pieces are kept.
   */
  lemma {:induction false} SplitJoin(s: string)
    ensures Join(Split(s)) == Unify(s)
    decreases |s|
  {
    if |s| > 0 {
      var rs := Split(s[1..]);
      SplitJoin(s[1..]);
      assert Unify(s) == [if IsSeparator(s[0]) then ' ' else s[0]] + Unify(s[1..]);
      if IsSeparator(s[0]) {
        assert ([""] + rs)[1..] == rs;
      } else {
        JoinCons(s[0], rs[0], rs[1..]);
        assert [rs[0]] + rs[1..] == rs;
      }
    }
  }

  /** Title-casing twice is title-casing once. */
  lemma TitleCaseIdempotent(s: string)
    ensures TitleCase(TitleCase(s)) == TitleCase(s)
  {
    var t := TitleCase(s);
    var tt := TitleCase(t);
    forall i | 0 <= i < |s|
      ensures tt[i] == t[i]
    {
      assert IsSeparator(t[i]) <==> IsSeparator(s[i]);
      if i > 0 {
        assert IsSeparator(t[i - 1]) <==> IsSeparator(s[i - 1]);
      }
    }
  }

  /**
   * When two tissue names fall into the same bucket: separators (of either
   * kind) at the same positions, the first letter of every piece equal up to
   * upper-casing, every other character identical.
   */
  predicate SameBucket(a: string, b: string) {
    && |a| == |b|
    && (forall i :: 0 <= i < |a| ==> (IsSeparator(a[i]) <==> IsSeparator(b[i])))
    && (forall i :: 0 <= i < |a| && !IsSeparator(a[i]) ==>
          if StartsWord(a, i, true) then Upper(a[i]) == Upper(b[i]) else a[i] == b[i])
  }

  /** Two names title-case to the same key exactly when they are in the same bucket. */
  lemma TitleCaseMergesIff(a: string, b: string)
    ensures TitleCase(a) == TitleCase(b) <==> SameBucket(a, b)
  {
    var ta, tb := TitleCase(a), TitleCase(b);
    if ta == tb {
      forall i | 0 <= i < |a|
        ensures IsSeparator(a[i]) <==> IsSeparator(b[i])
      {
        assert ta[i] == tb[i];
      }
      forall i | 0 <= i < |a| && !IsSeparator(a[i])
        ensures if StartsWord(a, i, true) then Upper(a[i]) == Upper(b[i]) else a[i] == b[i]
      {
        assert ta[i] == tb[i];
        if i > 0 {
          assert ta[i - 1] == tb[i - 1];
          assert IsSeparator(a[i - 1]) <==> IsSeparator(b[i - 1]);
        }
      }
    }
    if SameBucket(a, b) {
      forall i | 0 <= i < |a|
        ensures ta[i] == tb[i]
      {
        if i > 0 {
          assert IsSeparator(a[i - 1]) <==> IsSeparator(b[i - 1]);
        }
      }
      assert ta == tb;
    }
  }

  /* ------------------------------------------------------------------------
   * unsnake: String.prototype.replace with a string pattern, which replaces
   * only the first occurrence.
   * ------------------------------------------------------------------------ */

  /** Position of the first `c` in `s`, if any. */
  function IndexOf(s: string, c: char): (r: Option<nat>)
    ensures r.None? <==> c !in s
    ensures r.Some? ==> r.value < |s| && s[r.value] == c && c !in s[..r.value]
    decreases |s|
  {
    if |s| == 0 then None
    else if s[0] == c then Some(0)
    else match IndexOf(s[1..], c)
      case None => None
      case Some(i) =>
        assert s[..i + 1] == [s[0]] + s[1..][..i];
        Some(i + 1)
  }

  /**
   * The first underscore becomes a space; later underscores and every other
   * character stay, so a name without underscores is returned as it is.
   */
  function Unsnake(s: string): (r: string)
    ensures |r| == |s|
    ensures forall i :: 0 <= i < |s| ==>
      r[i] == (if s[i] == '_' && '_' !in s[..i] then ' ' else s[i])
    ensures '_' !in s ==> r == s
  {
    match IndexOf(s, '_')
    case None => s
    case Some(k) =>
      var r := s[..k] + " " + s[k + 1..];
      assert forall i :: 0 <= i < |s| ==>
        r[i] == (if s[i] == '_' && '_' !in s[..i] then ' ' else s[i]) by {
        forall i | 0 <= i < |s|
          ensures r[i] == (if s[i] == '_' && '_' !in s[..i] then ' ' else s[i])
        {
          if i > k {
            assert s[..i][k] == '_';
          }
        }
      }
      r
  }

  /** Replacing the first underscore never changes a name's title-cased key. */
  lemma UnsnakeKeepsTitleCase(s: string)
    ensures TitleCase(Unsnake(s)) == TitleCase(s)
  {
    var u := Unsnake(s);
    forall i | 0 <= i < |u| && !IsSeparator(u[i])
      ensures u[i] == s[i]
    {
    }
    TitleCaseMergesIff(u, s);
  }

  /* ------------------------------------------------------------------------
   * humanize: tier by magnitude; only the integer branch is formatted here,
   * the three-significant-digit text of the other two is a parameter.
   * ------------------------------------------------------------------------ */

  datatype Tier = Units | Thousands | Millions

  function TierOf(n: nat): Tier {
    if n >= 1000000 then Millions else if n >= 1000 then Thousands else Units
  }

  function DigitChar(d: nat): (c: char)
    requires d < 10
    ensures '0' <= c <= '9'
  {
    (48 + d) as char
  }

  predicate IsDigits(s: string) {
    |s| >= 1 && forall i :: 0 <= i < |s| ==> '0' <= s[i] <= '9'
  }

  /** The value of a digit string, most significant digit first. */
  function DecimalValue(s: string): int
    decreases |s|
  {
    if |s| == 0 then 0
    else DecimalValue(s[..|s| - 1]) * 10 + (s[|s| - 1] as int - 48)
  }

  /** Decimal text of a non-negative integer, as template-literal conversion gives it. */
  function Decimal(n: nat): (s: string)
    ensures IsDigits(s)
    ensures s[0] == '0' ==> n == 0
    decreases n
  {
    if n < 10 then [DigitChar(n)] else Decimal(n / 10) + [DigitChar(n % 10)]
  }

  lemma {:induction false} DecimalRoundTrip(n: nat)
    ensures DecimalValue(Decimal(n)) == n
    decreases n
  {
    var s := Decimal(n);
    if n < 10 {
      assert s[..0] == [];
    } else {
      DecimalRoundTrip(n / 10);
      assert s[..|s| - 1] == Decimal(n / 10);
    }
  }

  function Pow10(k: nat): nat {
    if k == 0 then 1 else 10 * Pow10(k - 1)
  }

  lemma {:induction false} DecimalLength(n: nat, k: nat)
    requires 1 <= k && n < Pow10(k)
    ensures |Decimal(n)| <= k
    decreases k
  {
    if n >= 10 {
      DecimalLength(n / 10, k - 1);
    }
  }

  /**
   * humanize: counts of a million or more end in 'M', counts from a thousand
   * below a million end in 'k', both carrying the formatter's text of the
   * scaled count; smaller counts are their own decimal digits, at most three,
   * with no suffix.
   */
  function Humanize(n: nat, toPrecision3: real -> string): (r: string)
    ensures |r| >= 1
    ensures r[|r| - 1] == 'M' <==> n >= 1000000
    ensures r[|r| - 1] == 'k' <==> 1000 <= n < 1000000
    ensures IsDigits(r) <==> n < 1000
    ensures n < 1000 ==> DecimalValue(r) == n && |r| <= 3
    ensures n >= 1000000 ==> r[..|r| - 1] == toPrecision3(n as real / 1000000.0)
    ensures 1000 <= n < 1000000 ==> r[..|r| - 1] == toPrecision3(n as real / 1000.0)
  {
    match TierOf(n)
    case Millions =>
      var r := toPrecision3(n as real / 1000000.0) + "M";
      assert r[..|r| - 1] == toPrecision3(n as real / 1000000.0);
      r
    case Thousands =>
      var r := toPrecision3(n as real / 1000.0) + "k";
      assert r[..|r| - 1] == toPrecision3(n as real / 1000.0);
      r
    case Units =>
      DecimalRoundTrip(n);
      DecimalLength(n, 3);
      Decimal(n)
  }

  /* ------------------------------------------------------------------------
   * Worked examples.
   * ------------------------------------------------------------------------ */

  /** A doubled underscore leaves an empty piece, which keeps its space. */
  lemma DoubleUnderscoreExample()
    ensures Split("a__b") == ["a", "", "b"]
    ensures TitleCase("a__b") == "A  B"
  {
    DoubleUnderscoreSplit();
    var t := TitleCase("a__b");
    assert t[0] == 'A' && t[1] == ' ' && t[2] == ' ' && t[3] == 'B';
  }

  lemma DoubleUnderscoreSplit()
    ensures Split("a__b") == ["a", "", "b"]
  {
    assert Split("b") == ["b"] by {
      assert "b"[1..] == "";
      assert Split("") == [""];
      assert ['b'] + "" == "b";
      assert [""][1..] == [];
    }
    assert Split("_b") == ["", "b"] by {
      assert "_b"[1..] == "b";
    }
    assert Split("__b") == ["", "", "b"] by {
      assert "__b"[1..] == "_b";
    }
    assert "a__b"[1..] == "__b";
    assert ['a'] + "" == "a";
    assert ["", "", "b"][1..] == ["", "b"];
  }

  /** The tier thresholds at their edges; small counts are their own digits. */
  lemma HumanizeBoundaryExample(toPrecision3: real -> string)
    ensures Humanize(999, toPrecision3) == "999"
    ensures TierOf(999) == Units && TierOf(1000) == Thousands
    ensures TierOf(999999) == Thousands && TierOf(1000000) == Millions
  {
    assert Decimal(9) == "9";
    assert Decimal(99) == "99";
  }

  /** Case is merged only on the first letter of a piece. */
  lemma CaseMergeExample()
    ensures TitleCase("lung") == TitleCase("Lung") == "Lung"
    ensures TitleCase("LUNG") != TitleCase("lung")
  {
    var a, b, c := TitleCase("lung"), TitleCase("Lung"), TitleCase("LUNG");
    assert a[0] == 'L' && a[1] == 'u' && a[2] == 'n' && a[3] == 'g';
    assert b[0] == 'L' && b[1] == 'u' && b[2] == 'n' && b[3] == 'g';
    assert c[1] == 'U';
  }
}
