/** Character classes, stripping, joining and decimal conversion, with the
    meaning Python gives them (str.isspace, str.strip, str.join, int(), str()). */
module Strings {

  datatype Option<+T> = None | Some(value: T)

  datatype Result<+T, +E> = Ok(value: T) | Err(error: E)

  /** Python's str.isspace, which is also what `\s` matches in a str pattern:
      the ASCII controls 9-13 and 28-31, the space, and the Unicode White_Space
      characters above ASCII. */
  predicate IsSpace(c: char) {
    || ('\t' <= c <= '\r')
    || ('\U{1C}' <= c <= ' ')
    || c == '\U{85}' || c == '\U{A0}' || c == '\U{1680}'
    || ('\U{2000}' <= c <= '\U{200A}')
    || c == '\U{2028}' || c == '\U{2029}' || c == '\U{202F}' || c == '\U{205F}'
    || c == '\U{3000}'
  }

  predicate IsDigit(c: char) {
    '0' <= c <= '9'
  }

  predicate AllDigits(s: string) {
    forall k :: 0 <= k < |s| ==> IsDigit(s[k])
  }

  function DigitValue(c: char): (d: nat)
    requires IsDigit(c)
    ensures d < 10
  {
    (c as int) - ('0' as int)
  }

  function DigitChar(d: nat): (c: char)
    requires d < 10
    ensures IsDigit(c) && DigitValue(c) == d
  {
    (('0' as int) + d) as char
  }

  /** The end of the whitespace run starting at i: what a greedy `\s*` consumes. */
  function SkipSpaces(s: string, i: nat): (j: nat)
    requires i <= |s|
    ensures i <= j <= |s|
    ensures forall k :: i <= k < j ==> IsSpace(s[k])
    ensures j < |s| ==> !IsSpace(s[j])
    decreases |s| - i
  {
    if i == |s| || !IsSpace(s[i]) then i else SkipSpaces(s, i + 1)
  }

  /** Starting anywhere inside a whitespace run reaches the same end. */
  lemma SkipSpacesFromInside(s: string, i: nat, e: nat)
    requires i <= |s| && i <= e <= SkipSpaces(s, i)
    ensures SkipSpaces(s, e) == SkipSpaces(s, i)
  {
  }

  // ---------------------------------------------------------------------
  // str.strip(), str.join and the digits of a string
  // ---------------------------------------------------------------------

  function StripLeft(s: string): (r: string)
    ensures |r| <= |s|
    ensures r == [] || !IsSpace(r[0])
  {
    if |s| > 0 && IsSpace(s[0]) then StripLeft(s[1..]) else s
  }

  function StripRight(s: string): (r: string)
    ensures |r| <= |s|
    ensures r == [] || !IsSpace(r[|r| - 1])
    ensures r == s[..|r|]
  {
    if |s| > 0 && IsSpace(s[|s| - 1]) then StripRight(s[..|s| - 1]) else s
  }

  /** str.strip(): s without its leading and trailing whitespace. */
  function Strip(s: string): (r: string)
    ensures |r| <= |s|
    ensures r == [] || (!IsSpace(r[0]) && !IsSpace(r[|r| - 1]))
  {
    StripRight(StripLeft(s))
  }

  /** StripLeft keeps a suffix, and everything it drops is whitespace. */
  lemma {:induction false} StripLeftDropsSpaces(s: string)
    ensures StripLeft(s) == s[|s| - |StripLeft(s)|..]
    ensures forall k :: 0 <= k < |s| - |StripLeft(s)| ==> IsSpace(s[k])
  {
    if |s| > 0 && IsSpace(s[0]) {
      StripLeftDropsSpaces(s[1..]);
      assert s[1..][|s| - 1 - |StripLeft(s)|..] == s[|s| - |StripLeft(s)|..];
      forall k | 1 <= k < |s| - |StripLeft(s)|
        ensures IsSpace(s[k])
      {
        assert s[k] == s[1..][k - 1];
      }
    }
  }

  /** Everything StripRight drops is whitespace. */
  lemma {:induction false} StripRightDropsSpaces(s: string)
    ensures forall k :: |StripRight(s)| <= k < |s| ==> IsSpace(s[k])
  {
    if |s| > 0 && IsSpace(s[|s| - 1]) {
      StripRightDropsSpaces(s[..|s| - 1]);
    }
  }

  /** The stripped text is the middle of s with only whitespace around it;
      with Strip's own contract (no whitespace at either end) this fixes it
      uniquely. */
  lemma StripIsMiddle(s: string)
    ensures exists i :: SpaceFramed(s, i, Strip(s))
  {
    var l := StripLeft(s);
    var r := StripRight(l);
    var i := |s| - |l|;
    StripLeftDropsSpaces(s);
    StripRightDropsSpaces(l);
    assert l == s[i..];
    assert r == l[..|r|];
    assert r == s[i..i + |r|];
    forall k | i + |r| <= k < |s|
      ensures IsSpace(s[k])
    {
      assert s[k] == l[k - i];
    }
    assert SpaceFramed(s, i, r);
    assert Strip(s) == r;
  }

  /** r occurs in s at i, and everything before and after it is whitespace. */
  predicate SpaceFramed(s: string, i: int, r: string) {
    && 0 <= i <= |s| - |r|
    && r == s[i..i + |r|]
    && (forall k :: 0 <= k < i ==> IsSpace(s[k]))
    && (forall k :: i + |r| <= k < |s| ==> IsSpace(s[k]))
  }

  /** sep.join(parts) */
  function Join(sep: string, parts: seq<string>): string {
    if |parts| == 0 then ""
    else if |parts| == 1 then parts[0]
    else parts[0] + sep + Join(sep, parts[1..])
  }

  /** s.replace(c, '') */
  function RemoveChar(s: string, c: char): (r: string)
    ensures forall k :: 0 <= k < |r| ==> r[k] != c
  {
    if |s| == 0 then ""
    else (if s[0] == c then "" else [s[0]]) + RemoveChar(s[1..], c)
  }

  /** The digits of s, in order. */
  function DigitsOf(s: string): (r: string)
    ensures AllDigits(r)
  {
    if |s| == 0 then ""
    else (if IsDigit(s[0]) then [s[0]] else "") + DigitsOf(s[1..])
  }

  lemma {:induction false} DigitsOfConcat(a: string, b: string)
    ensures DigitsOf(a + b) == DigitsOf(a) + DigitsOf(b)
  {
    if |a| > 0 {
      assert (a + b)[1..] == a[1..] + b;
      DigitsOfConcat(a[1..], b);
    } else {
      assert a + b == b;
    }
  }

  lemma {:induction false} DigitsOfAllDigits(s: string)
    requires AllDigits(s)
    ensures DigitsOf(s) == s
  {
    if |s| > 0 {
      DigitsOfAllDigits(s[1..]);
    }
  }

  lemma {:induction false} StripLeftKeepsDigits(s: string)
    ensures DigitsOf(StripLeft(s)) == DigitsOf(s)
  {
    if |s| > 0 && IsSpace(s[0]) {
      StripLeftKeepsDigits(s[1..]);
    }
  }

  lemma {:induction false} StripRightKeepsDigits(s: string)
    ensures DigitsOf(StripRight(s)) == DigitsOf(s)
  {
    if |s| > 0 && IsSpace(s[|s| - 1]) {
      StripRightKeepsDigits(s[..|s| - 1]);
      assert s == s[..|s| - 1] + [s[|s| - 1]];
      DigitsOfConcat(s[..|s| - 1], [s[|s| - 1]]);
    }
  }

  /** Stripping whitespace never removes a digit. */
  lemma StripKeepsDigits(s: string)
    ensures DigitsOf(Strip(s)) == DigitsOf(s)
  {
    StripLeftKeepsDigits(s);
    StripRightKeepsDigits(StripLeft(s));
  }

  // ---------------------------------------------------------------------
  // int(digits) and str(n)
  // ---------------------------------------------------------------------

  /** int(s) for a string of ASCII digits (leading zeros allowed, as in int()). */
  function DecimalValue(s: string): nat
    requires AllDigits(s)
  {
    if |s| == 0 then 0 else DecimalValue(s[..|s| - 1]) * 10 + DigitValue(s[|s| - 1])
  }

  /** str(n) for a natural number: its canonical decimal numeral. */
  function NatToString(n: nat): (r: string)
    ensures IsCanonicalNumeral(r)
    ensures r[0] == '0' <==> n == 0
    decreases n
  {
    if n < 10 then [DigitChar(n)] else NatToString(n / 10) + [DigitChar(n % 10)]
  }

  /** str(i) for any integer: a minus sign before a negative number's numeral. */
  function IntToString(i: int): (r: string)
    ensures i >= 0 ==> r == NatToString(i)
    ensures i < 0 ==> r == "-" + NatToString(-i)
  {
    if i < 0 then "-" + NatToString(-i) else NatToString(i)
  }

  /** str() of an int reads back as that int: the canonical numeral of a
      natural number, or a minus sign before the canonical numeral of the
      magnitude of a negative one. */
  lemma IntToStringMeaning(i: int)
    ensures var r := IntToString(i);
      && (i >= 0 ==> IsCanonicalNumeral(r) && DecimalValue(r) == i)
      && (i < 0 ==> && |r| >= 2 && r[0] == '-' && r[1] != '0'
                    && IsCanonicalNumeral(r[1..]) && DecimalValue(r[1..]) == -i)
  {
    if i >= 0 {
      DecimalOfNatToString(i);
    } else {
      assert IntToString(i)[1..] == NatToString(-i);
      DecimalOfNatToString(-i);
    }
  }

  /** A numeral is canonical when it has no superfluous leading zero. */
  predicate IsCanonicalNumeral(s: string) {
    |s| >= 1 && AllDigits(s) && (s[0] == '0' ==> |s| == 1)
  }

  /** int(str(n)) == n */
  lemma {:induction false} DecimalOfNatToString(n: nat)
    ensures DecimalValue(NatToString(n)) == n
    decreases n
  {
    if n >= 10 {
      DecimalOfNatToString(n / 10);
      var s := NatToString(n);
      assert s[..|s| - 1] == NatToString(n / 10);
    }
  }

  /** str(int(s)) == s for a canonical numeral. */
  lemma {:induction false} NatToStringOfDecimal(s: string)
    requires IsCanonicalNumeral(s)
    ensures NatToString(DecimalValue(s)) == s
    decreases |s|
  {
    if |s| > 1 {
      var p := s[..|s| - 1];
      assert p[0] == s[0];
      NatToStringOfDecimal(p);
      NatValueAtLeastTen(s);
    }
  }

  lemma {:induction false} NatValueAtLeastTen(s: string)
    requires IsCanonicalNumeral(s) && |s| > 1
    ensures DecimalValue(s) >= 10
    ensures DecimalValue(s) / 10 == DecimalValue(s[..|s| - 1])
    ensures DecimalValue(s) % 10 == DigitValue(s[|s| - 1])
    decreases |s|
  {
    var p := s[..|s| - 1];
    assert p[0] == s[0];
    if |p| > 1 {
      NatValueAtLeastTen(p);
    } else {
      assert DecimalValue(p) == DigitValue(p[0]) >= 1;
    }
  }

  lemma NatToStringInjective(m: nat, n: nat)
    requires NatToString(m) == NatToString(n)
    ensures m == n
  {
    DecimalOfNatToString(m);
    DecimalOfNatToString(n);
  }

  /** A numeral of four or more digits is exactly a number of at least 1000. */
  lemma {:induction false} NatToStringLength(n: nat)
    ensures |NatToString(n)| >= 4 <==> n >= 1000
    ensures |NatToString(n)| <= 4 <==> n < 10000
    decreases n
  {
    if n >= 10 {
      NatToStringLength(n / 10);
      assert |NatToString(n)| == |NatToString(n / 10)| + 1;
    }
  }
}
