/**
 * The string validators and the cleaner of the pipeline's utility module:
 * each is one regular-expression `fullmatch` or `sub` in the source, written
 * here as a predicate or a recursive function over `string`. A value that
 * is not a string at all is `None`.
 */
module Utils {
  import opened Wrappers
  import opened Text

  /** One position of a regular expression made only of single-character classes. */
  datatype CharClass = UpperLetter | Digit | Literal(c: char)

  predicate InClass(c: char, k: CharClass)
  {
    match k
    case UpperLetter => IsAsciiUpper(c)
    case Digit => IsDigit(c)
    case Literal(l) => c == l
  }

  /** `re.fullmatch(p, s)` for such a pattern: the whole of `s` is consumed. */
  predicate FullMatch(s: string, p: seq<CharClass>)
  {
    if p == [] then s == [] else s != [] && InClass(s[0], p[0]) && FullMatch(s[1..], p[1..])
  }

  /** `re.fullmatch` of an alternation `(p1|p2|...)`. */
  predicate FullMatchAny(s: string, alternatives: seq<seq<CharClass>>)
  {
    alternatives != [] && (FullMatch(s, alternatives[0]) || FullMatchAny(s, alternatives[1..]))
  }

  lemma {:induction false} FullMatchPointwise(s: string, p: seq<CharClass>)
    ensures FullMatch(s, p) <==> |s| == |p| && forall i :: 0 <= i < |s| ==> InClass(s[i], p[i])
    decreases |p|
  {
    if p != [] && s != [] {
      FullMatchPointwise(s[1..], p[1..]);
      if |s| == |p| && forall i :: 0 <= i < |s| ==> InClass(s[i], p[i]) {
        assert forall i :: 0 <= i < |s| - 1 ==> InClass(s[1..][i], p[1..][i]) by {
          forall i | 0 <= i < |s| - 1 ensures InClass(s[1..][i], p[1..][i]) {
            assert InClass(s[i + 1], p[i + 1]);
          }
        }
      }
    }
  }

  // ----- ATC codes -----------------------------------------------------------

  /** The five levels of the WHO ATC structure: L, LNN, LNNL, LNNLL, LNNLLNN. */
  const AtcLevels: seq<seq<CharClass>> := [
    [UpperLetter],
    [UpperLetter, Digit, Digit],
    [UpperLetter, Digit, Digit, UpperLetter],
    [UpperLetter, Digit, Digit, UpperLetter, UpperLetter],
    [UpperLetter, Digit, Digit, UpperLetter, UpperLetter, Digit, Digit]
  ]

  /** `is_atccode_multi_level`: a string that is an ATC code at one of the five levels. */
  predicate IsAtcCodeMultiLevel(code: Option<string>)
  {
    code.Some? && FullMatchAny(code.value, AtcLevels)
  }

  /** The shape of an ATC code written out position by position. */
  ghost predicate AtcShape(s: string)
  {
    && (|s| == 1 || |s| == 3 || |s| == 4 || |s| == 5 || |s| == 7)
    && IsAsciiUpper(s[0])
    && (|s| >= 3 ==> IsDigit(s[1]) && IsDigit(s[2]))
    && (|s| >= 4 ==> IsAsciiUpper(s[3]))
    && (|s| >= 5 ==> IsAsciiUpper(s[4]))
    && (|s| == 7 ==> IsDigit(s[5]) && IsDigit(s[6]))
  }

  lemma AtcLevelsUnrolled(s: string)
    ensures FullMatchAny(s, AtcLevels) <==>
      FullMatch(s, AtcLevels[0]) || FullMatch(s, AtcLevels[1]) || FullMatch(s, AtcLevels[2]) ||
      FullMatch(s, AtcLevels[3]) || FullMatch(s, AtcLevels[4])
  {
    var a := AtcLevels;
    var a1, a2, a3, a4 := a[1..], a[2..], a[3..], a[4..];
    assert a1[1..] == a2 && a2[1..] == a3 && a3[1..] == a4 && a4[1..] == [];
    assert FullMatchAny(s, a4) == FullMatch(s, a[4]);
    assert FullMatchAny(s, a3) == (FullMatch(s, a[3]) || FullMatchAny(s, a4));
    assert FullMatchAny(s, a2) == (FullMatch(s, a[2]) || FullMatchAny(s, a3));
    assert FullMatchAny(s, a1) == (FullMatch(s, a[1]) || FullMatchAny(s, a2));
  }

  /** The regular expression accepts exactly the strings of one of the five shapes. */
  lemma AtcCodeShape(s: string)
    ensures IsAtcCodeMultiLevel(Some(s)) <==> AtcShape(s)
  {
    AtcLevelsUnrolled(s);
    FullMatchPointwise(s, AtcLevels[0]);
    FullMatchPointwise(s, AtcLevels[1]);
    FullMatchPointwise(s, AtcLevels[2]);
    FullMatchPointwise(s, AtcLevels[3]);
    FullMatchPointwise(s, AtcLevels[4]);
    if AtcShape(s) {
      if |s| == 7 {
        assert forall i :: 0 <= i < |s| ==> InClass(s[i], AtcLevels[4][i]);
      } else if |s| == 5 {
        assert forall i :: 0 <= i < |s| ==> InClass(s[i], AtcLevels[3][i]);
      } else if |s| == 4 {
        assert forall i :: 0 <= i < |s| ==> InClass(s[i], AtcLevels[2][i]);
      } else if |s| == 3 {
        assert forall i :: 0 <= i < |s| ==> InClass(s[i], AtcLevels[1][i]);
      }
    }
  }

  /** Every accepted code has length 1, 3, 4, 5 or 7 and starts with a capital letter. */
  lemma AtcCodeLengthAndLead(s: string)
    requires IsAtcCodeMultiLevel(Some(s))
    ensures |s| in {1, 3, 4, 5, 7}
    ensures IsAsciiUpper(s[0])
  {
    AtcCodeShape(s);
  }

  /** The levels nest: cutting a code at a shorter level boundary gives a code. */
  lemma AtcCodeHierarchy(s: string, k: nat)
    requires IsAtcCodeMultiLevel(Some(s))
    requires k in {1, 3, 4, 5} && k <= |s|
    ensures IsAtcCodeMultiLevel(Some(s[..k]))
  {
    AtcCodeShape(s);
    AtcCodeShape(s[..k]);
  }

  /** The valid codes of the project's unit tests at the first three levels. */
  lemma AtcCodeAcceptedShortCases()
    ensures IsAtcCodeMultiLevel(Some("A")) && IsAtcCodeMultiLevel(Some("R"))
    ensures IsAtcCodeMultiLevel(Some("A10")) && IsAtcCodeMultiLevel(Some("N02"))
    ensures IsAtcCodeMultiLevel(Some("A10B")) && IsAtcCodeMultiLevel(Some("C09A"))
  {
    AtcCodeShape("A");
    AtcCodeShape("R");
    AtcCodeShape("A10");
    AtcCodeShape("N02");
    AtcCodeShape("A10B");
    AtcCodeShape("C09A");
  }

  /** The valid codes of the project's unit tests at the fourth and fifth levels. */
  lemma AtcCodeAcceptedLongCases()
    ensures IsAtcCodeMultiLevel(Some("A04AD")) && IsAtcCodeMultiLevel(Some("A10BA"))
    ensures IsAtcCodeMultiLevel(Some("S01ED")) && IsAtcCodeMultiLevel(Some("A10BA02"))
    ensures IsAtcCodeMultiLevel(Some("N02BE51"))
  {
    AtcCodeShape("A04AD");
    AtcCodeShape("A10BA");
    AtcCodeShape("S01ED");
    AtcCodeShape("A10BA02");
    AtcCodeShape("N02BE51");
  }

  /** The invalid inputs of the project's unit tests, including a value that is not a string. */
  lemma AtcCodeRejectedCases()
    ensures !IsAtcCodeMultiLevel(Some("A10BA02X")) && !IsAtcCodeMultiLevel(Some("A10BA2"))
    ensures !IsAtcCodeMultiLevel(Some("a10ba02")) && !IsAtcCodeMultiLevel(Some("6302001"))
    ensures !IsAtcCodeMultiLevel(Some("A1B")) && !IsAtcCodeMultiLevel(Some("A10BCDE"))
    ensures !IsAtcCodeMultiLevel(Some("")) && !IsAtcCodeMultiLevel(Some(" "))
    ensures !IsAtcCodeMultiLevel(Some("A0")) && !IsAtcCodeMultiLevel(Some("A00A0"))
    ensures !IsAtcCodeMultiLevel(Some("A!")) && !IsAtcCodeMultiLevel(None)
  {
    AtcCodeShape("A10BA02X");
    AtcCodeShape("A10BA2");
    AtcCodeShape("a10ba02");
    AtcCodeShape("6302001");
    AtcCodeShape("A1B");
    AtcCodeShape("A10BCDE");
    AtcCodeShape("");
    AtcCodeShape(" ");
    AtcCodeShape("A0");
    AtcCodeShape("A00A0");
    AtcCodeShape("A!");
  }

  // ----- NCT numbers ---------------------------------------------------------

  /** `NCT` followed by exactly eight digits. */
  const NctPattern: seq<CharClass> :=
    [Literal('N'), Literal('C'), Literal('T'), Digit, Digit, Digit, Digit, Digit, Digit, Digit, Digit]

  /** `is_nct_number`. */
  predicate IsNctNumber(id: Option<string>)
  {
    id.Some? && FullMatch(id.value, NctPattern)
  }

  lemma NctNumberShape(s: string)
    ensures IsNctNumber(Some(s)) <==>
      |s| == 11 && s[..3] == "NCT" && forall i :: 3 <= i < |s| ==> IsDigit(s[i])
  {
    FullMatchPointwise(s, NctPattern);
    if |s| == 11 && s[..3] == "NCT" && forall i :: 3 <= i < |s| ==> IsDigit(s[i]) {
      assert s[0] == s[..3][0] && s[1] == s[..3][1] && s[2] == s[..3][2];
      assert forall i :: 0 <= i < |s| ==> InClass(s[i], NctPattern[i]);
    }
    if IsNctNumber(Some(s)) {
      assert InClass(s[0], NctPattern[0]) && InClass(s[1], NctPattern[1]) && InClass(s[2], NctPattern[2]);
      assert s[..3] == "NCT";
      assert forall i :: 3 <= i < |s| ==> InClass(s[i], NctPattern[i]);
    }
  }

  /** The example id of the validator's documentation is accepted. */
  lemma NctNumberAccepted()
    ensures IsNctNumber(Some("NCT12345678"))
  {
    var s := "NCT12345678";
    FullMatchPointwise(s, NctPattern);
    forall i | 0 <= i < |s| ensures InClass(s[i], NctPattern[i]) {
      assert i < 3 || IsDigit(s[i]);
    }
  }

  lemma NctNumberRejected()
    ensures !IsNctNumber(Some("NCT0196743")) && !IsNctNumber(Some("nct01967433"))
    ensures !IsNctNumber(Some("NCT019674330")) && !IsNctNumber(Some("NCT0196743A")) && !IsNctNumber(None)
  {
    FullMatchPointwise("NCT0196743", NctPattern);
    FullMatchPointwise("nct01967433", NctPattern);
    FullMatchPointwise("NCT019674330", NctPattern);
    FullMatchPointwise("NCT0196743A", NctPattern);
    assert !InClass("nct01967433"[0], NctPattern[0]);
    assert !InClass("NCT0196743A"[10], NctPattern[10]);
  }

  // ----- hex-escape cleaner --------------------------------------------------

  /** A match of `\\x[0-9a-fA-F]{2}` (backslash, `x`, two hex digits) starting at `i`. */
  predicate HexEscapeAt(s: string, i: int)
  {
    0 <= i && i + 4 <= |s| && s[i] == '\\' && s[i + 1] == 'x' && IsHexDigit(s[i + 2]) && IsHexDigit(s[i + 3])
  }

  /**
   * `clean_skipped_hex_sequences`: `re.sub` scans left to right, deletes a
   * match and resumes after it, so matches never overlap.
   */
  function CleanSkippedHexSequences(s: string): (r: string)
    ensures |r| <= |s|
    decreases |s|
  {
    if HexEscapeAt(s, 0) then CleanSkippedHexSequences(s[4..])
    else if s == [] then []
    else [s[0]] + CleanSkippedHexSequences(s[1..])
  }

  /** The number of sequences the same scan deletes. */
  function RemovedEscapes(s: string): nat
    decreases |s|
  {
    if HexEscapeAt(s, 0) then 1 + RemovedEscapes(s[4..])
    else if s == [] then 0
    else RemovedEscapes(s[1..])
  }

  /** `a` is obtained from `b` by deleting characters. */
  predicate IsSubsequence(a: string, b: string)
    decreases |b|
  {
    a == [] || (b != [] && ((a[0] == b[0] && IsSubsequence(a[1..], b[1..])) || IsSubsequence(a, b[1..])))
  }

  lemma {:induction false} SubsequenceOfSuffix(a: string, b: string, k: nat)
    requires k <= |b| && IsSubsequence(a, b[k..])
    ensures IsSubsequence(a, b)
    decreases k
  {
    if k > 0 {
      assert b[1..][k - 1..] == b[k..];
      SubsequenceOfSuffix(a, b[1..], k - 1);
    }
  }

  /** The cleaner only deletes characters. */
  lemma {:induction false} CleanIsSubsequence(s: string)
    ensures IsSubsequence(CleanSkippedHexSequences(s), s)
    decreases |s|
  {
    if HexEscapeAt(s, 0) {
      CleanIsSubsequence(s[4..]);
      SubsequenceOfSuffix(CleanSkippedHexSequences(s[4..]), s, 4);
    } else if s != [] {
      CleanIsSubsequence(s[1..]);
    }
  }

  /** Each deletion removes exactly four characters. */
  lemma {:induction false} CleanLength(s: string)
    ensures |CleanSkippedHexSequences(s)| + 4 * RemovedEscapes(s) == |s|
    decreases |s|
  {
    if HexEscapeAt(s, 0) {
      CleanLength(s[4..]);
    } else if s != [] {
      CleanLength(s[1..]);
    }
  }

  lemma {:induction false} NoRemovalUnchanged(s: string)
    requires RemovedEscapes(s) == 0
    ensures CleanSkippedHexSequences(s) == s
    decreases |s|
  {
    if s != [] {
      NoRemovalUnchanged(s[1..]);
    }
  }

  lemma {:induction false} RemovalIffEscape(s: string)
    ensures RemovedEscapes(s) == 0 <==> forall i :: !HexEscapeAt(s, i)
    decreases |s|
  {
    if !HexEscapeAt(s, 0) && s != [] {
      RemovalIffEscape(s[1..]);
      forall i | HexEscapeAt(s, i) ensures HexEscapeAt(s[1..], i - 1) {
        assert s[1..][i - 1] == s[i] && s[1..][i] == s[i + 1];
        assert s[1..][i + 1] == s[i + 2] && s[1..][i + 2] == s[i + 3];
      }
      forall j | HexEscapeAt(s[1..], j) ensures HexEscapeAt(s, j + 1) {
        assert s[1..][j] == s[j + 1] && s[1..][j + 1] == s[j + 2];
        assert s[1..][j + 2] == s[j + 3] && s[1..][j + 3] == s[j + 4];
      }
    }
  }

  /**
   * The leftmost match is the one deleted: the characters before it are kept,
   * its four characters (`\`, `x`, two hex digits) are dropped, and the scan
   * resumes right after it.
   */
  lemma {:induction false} CleanFirstMatch(s: string, i: nat)
    requires HexEscapeAt(s, i)
    requires forall k :: 0 <= k < i ==> !HexEscapeAt(s, k)
    ensures CleanSkippedHexSequences(s) == s[..i] + CleanSkippedHexSequences(s[i + 4..])
    decreases i
  {
    if i > 0 {
      var t := s[1..];
      assert !HexEscapeAt(s, 0);
      assert CleanSkippedHexSequences(s) == [s[0]] + CleanSkippedHexSequences(t);
      EscapeShift(s, i - 1);
      forall k | 0 <= k < i - 1 ensures !HexEscapeAt(t, k) {
        EscapeShift(s, k);
      }
      CleanFirstMatch(t, i - 1);
      assert t[i - 1 + 4..] == s[i + 4..];
      assert [s[0]] + t[..i - 1] == s[..i];
    }
  }

  /** Dropping the first character moves every match one place to the left. */
  lemma EscapeShift(s: string, k: nat)
    requires s != []
    ensures HexEscapeAt(s[1..], k) <==> HexEscapeAt(s, k + 1)
  {
    if k + 4 <= |s[1..]| {
      assert s[1..][k] == s[k + 1] && s[1..][k + 1] == s[k + 2];
      assert s[1..][k + 2] == s[k + 3] && s[1..][k + 3] == s[k + 4];
    }
  }

  /** The cleaner leaves a string alone exactly when it holds no `\xHH` anywhere. */
  lemma CleanUnchangedIff(s: string)
    ensures CleanSkippedHexSequences(s) == s <==> forall i :: !HexEscapeAt(s, i)
  {
    CleanLength(s);
    RemovalIffEscape(s);
    if RemovedEscapes(s) == 0 {
      NoRemovalUnchanged(s);
    }
  }

  /** A string without a backslash is returned unchanged. */
  lemma CleanWithoutBackslash(s: string)
    requires '\\' !in s
    ensures CleanSkippedHexSequences(s) == s
  {
    CleanUnchangedIff(s);
    forall i ensures !HexEscapeAt(s, i) {
      if 0 <= i < |s| {
        assert s[i] in s;
      }
    }
  }

  /** One pass is not idempotent: removing an inner match can expose a new one. */
  lemma CleanNotIdempotent()
    ensures CleanSkippedHexSequences("\\x\\x4142") == "\\x42"
    ensures CleanSkippedHexSequences("\\x42") == ""
  {
    var s := "\\x\\x4142";
    assert !HexEscapeAt(s, 0) && !HexEscapeAt(s[1..], 0) && HexEscapeAt(s[2..], 0);
    assert s[2..][4..] == "42";
    assert CleanSkippedHexSequences("2") == "2";
    assert CleanSkippedHexSequences("42") == "42";
    assert CleanSkippedHexSequences("\\x42"[4..]) == "";
  }
}
