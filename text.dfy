/**
 * Character classes and the string operations of Python's `str` that the
 * pipeline relies on: `upper()`, `lower()`, `capitalize()` and the substring
 * test `u in t`. Case mapping is modelled over ASCII letters only.
 */
module Text {

  predicate IsAsciiLower(c: char) { 'a' <= c <= 'z' }

  predicate IsAsciiUpper(c: char) { 'A' <= c <= 'Z' }

  /** Python regex `\d`, restricted to ASCII digits. */
  predicate IsDigit(c: char) { '0' <= c <= '9' }

  /** Regex class `[0-9a-fA-F]`. */
  predicate IsHexDigit(c: char) { IsDigit(c) || 'a' <= c <= 'f' || 'A' <= c <= 'F' }

  function UpperChar(c: char): (r: char)
    ensures !IsAsciiLower(r)
    ensures IsAsciiLower(c) || r == c
  {
    if IsAsciiLower(c) then (c as int - 32) as char else c
  }

  function LowerChar(c: char): (r: char)
    ensures !IsAsciiUpper(r)
    ensures UpperChar(r) == UpperChar(c)
  {
    if IsAsciiUpper(c) then (c as int + 32) as char else c
  }

  /** `s.upper()`: every ASCII lower-case letter replaced by its capital, length kept. */
  function Upper(s: string): (r: string)
    ensures |r| == |s|
    ensures forall i :: 0 <= i < |s| ==> r[i] == UpperChar(s[i])
  {
    if s == [] then [] else [UpperChar(s[0])] + Upper(s[1..])
  }

  /** `s.lower()`. */
  function Lower(s: string): (r: string)
    ensures |r| == |s|
    ensures forall i :: 0 <= i < |s| ==> r[i] == LowerChar(s[i])
  {
    if s == [] then [] else [LowerChar(s[0])] + Lower(s[1..])
  }

  /** `s.capitalize()`: the first character upper-cased, the rest lower-cased. */
  function Capitalize(s: string): (r: string)
    ensures |r| == |s|
    ensures |s| > 0 ==> r[0] == UpperChar(s[0]) && r[1..] == Lower(s[1..])
  {
    if s == [] then [] else [UpperChar(s[0])] + Lower(s[1..])
  }

  lemma UpperIdempotent(s: string)
    ensures Upper(Upper(s)) == Upper(s)
  {
    var u := Upper(s);
    assert forall i :: 0 <= i < |s| ==> Upper(u)[i] == u[i];
  }

  /** Capitalizing loses nothing that upper-casing keeps. */
  lemma UpperOfCapitalize(s: string)
    ensures Upper(Capitalize(s)) == Upper(s)
  {
    var c := Capitalize(s);
    if s != [] {
      assert c[1..] == Lower(s[1..]);
      forall i | 0 <= i < |s| ensures Upper(c)[i] == Upper(s)[i] {
        if i > 0 {
          assert c[i] == c[1..][i - 1];
        }
      }
    }
  }

  /** On upper-case keys `capitalize()` is injective: the key is recovered by `upper()`. */
  lemma CapitalizeInjectiveOnKeys(a: string, b: string)
    requires Upper(a) == a && Upper(b) == b
    ensures Capitalize(a) == Capitalize(b) <==> a == b
  {
    if Capitalize(a) == Capitalize(b) {
      UpperOfCapitalize(a);
      UpperOfCapitalize(b);
    }
  }

  /** `u` occurs in `t` starting at index `i`. */
  predicate OccursAt(t: string, u: string, i: int)
  {
    0 <= i && i + |u| <= |t| && t[i..i + |u|] == u
  }

  /** Python's `u in t` on strings: a literal substring test, with no word boundary. */
  function Contains(t: string, u: string): (r: bool)
    ensures r <==> exists i :: OccursAt(t, u, i)
    decreases |t|
  {
    if u <= t then
      assert OccursAt(t, u, 0);
      true
    else if t == [] then
      false
    else
      ShiftOccurrence(t, u);
      Contains(t[1..], u)
  }

  lemma ShiftOccurrence(t: string, u: string)
    requires t != [] && !(u <= t)
    ensures (exists i :: OccursAt(t, u, i)) <==> (exists i :: OccursAt(t[1..], u, i))
  {
    if i :| OccursAt(t, u, i) {
      assert i != 0;
      assert t[1..][i - 1..i - 1 + |u|] == t[i..i + |u|];
      assert OccursAt(t[1..], u, i - 1);
    }
    if i :| OccursAt(t[1..], u, i) {
      assert t[1..][i..i + |u|] == t[i + 1..i + 1 + |u|];
      assert OccursAt(t, u, i + 1);
    }
  }
}
