/** What `strtol` makes of a text, told from the numerals themselves: the sixteen digits in their order, in either case. */
module Numerals {
  import opened Text

  const LOWER: string := "0123456789abcdef"
  const UPPER: string := "0123456789ABCDEF"

  /** The place of a character, or -1. */
  function PlaceIn(digits: string, c: char): (k: int)
    ensures -1 <= k < |digits| && (k >= 0 ==> digits[k] == c) && (k < 0 ==> c !in digits)
  {
    if digits == "" then -1
    else if digits[0] == c then 0
    else var k := PlaceIn(digits[1..], c); if k < 0 then -1 else k + 1
  }

  function Place(c: char): int {
    if c in LOWER then PlaceIn(LOWER, c) else PlaceIn(UPPER, c)
  }

  lemma PlacesInOrder(k: nat)
    requires k < 16
    ensures DigitValue(LOWER[k]) == k && DigitValue(UPPER[k]) == k
    ensures LOWER[k] == UPPER[k] || (10 <= k && LOWER[k] as int == UPPER[k] as int + 32)
  {
  }

  /** The value of a digit is its place among the sixteen digits, in either case; nothing else is a digit. */
  lemma DigitIsPlace(c: char)
    ensures DigitValue(c) == Place(c)
    ensures DigitValue(c) >= 0 <==> c in LOWER || c in UPPER
  {
    var k := Place(c);
    if k >= 0 {
      assert c == LOWER[k] || c == UPPER[k];
      PlacesInOrder(k);
    } else {
      NoOtherDigit(c);
    }
  }

  lemma NoOtherDigit(c: char)
    ensures DigitValue(c) >= 0 ==> c in LOWER || c in UPPER
  {
    if '0' <= c <= '9' {
      assert c == LOWER[c as int - 48];
    } else if 'a' <= c <= 'f' {
      assert c == LOWER[c as int - 87];
    } else if 'A' <= c <= 'F' {
      assert c == UPPER[c as int - 55];
    }
  }

  /** A text of digits of the base. */
  predicate IsNumeral(s: string, base: Base) {
    s != "" && forall k :: 0 <= k < |s| ==> 0 <= Place(s[k]) < base
  }

  /** The number that it denotes. */
  function Numeral(s: string, base: Base): (n: nat)
    requires forall k :: 0 <= k < |s| ==> 0 <= Place(s[k]) < base
  {
    if s == "" then 0 else base * Numeral(s[..|s| - 1], base) + Place(s[|s| - 1])
  }

  lemma {:induction false} ValueIsNumeral(s: string, base: Base)
    requires forall k :: 0 <= k < |s| ==> 0 <= Place(s[k]) < base
    ensures forall k :: 0 <= k < |s| ==> IsDigit(s[k], base)
    ensures Value(s, base) == Numeral(s, base)
  {
    forall k | 0 <= k < |s| ensures IsDigit(s[k], base) { DigitIsPlace(s[k]); }
    if s != "" {
      ValueIsNumeral(s[..|s| - 1], base);
      DigitIsPlace(s[|s| - 1]);
    }
  }

  function Lower(c: char): char {
    if 'A' <= c <= 'F' then (c as int + 32) as char else c
  }

  function LowerAll(s: string): (t: string)
    ensures |t| == |s| && forall k :: 0 <= k < |s| ==> t[k] == Lower(s[k])
  {
    if s == "" then "" else LowerAll(s[..|s| - 1]) + [Lower(s[|s| - 1])]
  }

  /** A number is the same in upper and in lower case. */
  lemma {:induction false} CaseIsFree(s: string)
    requires forall k :: 0 <= k < |s| ==> IsDigit(s[k], 16)
    ensures forall k :: 0 <= k < |s| ==> IsDigit(LowerAll(s)[k], 16)
    ensures Value(LowerAll(s), 16) == Value(s, 16)
  {
    if s != "" {
      var n := |s| - 1;
      CaseIsFree(s[..n]);
      assert LowerAll(s)[..n] == LowerAll(s[..n]);
      assert IsDigit(s[n], 16);
    }
  }

  // ----- strtol

  datatype Sign = Unsigned | Plus | Minus

  function SignText(sign: Sign): string {
    if sign.Unsigned? then "" else if sign.Plus? then "+" else "-"
  }

  /** What `strtol` reads, in either base: white space, a sign, digits, and in base 16 perhaps `0x` before them. The number
      is cut to a `long`, and the text behind the digits is where it ends. */
  lemma StrtolReads(spaces: string, sign: Sign, prefix: string, digits: string, more: string, base: Base)
    requires forall k :: 0 <= k < |spaces| ==> spaces[k] in {' ', '\t', '\n', 11 as char, 12 as char, '\r'}
    requires IsNumeral(digits, base) && (more != "" ==> Place(more[0]) < 0 || Place(more[0]) >= base)
    requires prefix == "" || (base == 16 && (prefix == "0x" || prefix == "0X"))
    requires prefix == "" && base == 16 && |digits| == 1 && more != "" ==> more[0] != 'x' && more[0] != 'X'
    ensures var v: int := Numeral(digits, base);
            var n := if sign.Minus? then -v else v;
            Strtol(spaces + SignText(sign) + prefix + digits + more, 0, base)
            == Number(if n > 0x7fff_ffff_ffff_ffff then 0x7fff_ffff_ffff_ffff
                      else if n < -0x8000_0000_0000_0000 then -0x8000_0000_0000_0000 else n,
                      |spaces + SignText(sign) + prefix + digits|)
  {
    hide Value, Place, Numeral, SkipSpaces, Strtol, DigitStart, ScanDigits;
    var s, p := spaces + SignText(sign) + prefix + digits + more, |spaces|;
    var q := p + |SignText(sign)|;
    var d := q + |prefix|;
    var e := d + |digits|;
    Parts(spaces, SignText(sign), prefix, digits, more);
    ValueIsNumeral(digits, base);
    assert e < |s| ==> s[e] == more[0];
    if e < |s| { DigitIsPlace(s[e]); }
    assert forall k :: d <= k < e ==> s[k] == digits[k - d];
    StartsAfter(s, p, sign, prefix, digits, base);
    SpaceRun(s, p);
    DigitRun(s, d, e, base);
    StrtolAt(s, p, d, e, base);
  }

  /** The number between the start and the end of the digits. */
  lemma StrtolAt(s: string, p: nat, d: nat, e: nat, base: Base)
    requires p <= d < e <= |s| && SkipSpaces(s, 0) == p && DigitStart(s, p, base) == d && ScanDigits(s, d, base) == e
    ensures (forall k :: d <= k < e ==> IsDigit(s[k], base)) && (forall k :: 0 <= k < e - d ==> IsDigit(s[d..e][k], base))
    ensures var v: int := Value(s[d..e], base);
            Strtol(s, 0, base) == Number(ClampToLong(if At(s, p) == '-' then -v else v), e)
  {
    hide Value;
  }

  lemma Parts(a: string, b: string, c: string, d: string, e: string)
    ensures var s := a + b + c + d + e;
            && s[..|a|] == a && s[|a|..|a + b|] == b && s[|a + b|..|a + b + c|] == c
            && s[|a + b + c|..|a + b + c + d|] == d && s[|a + b + c + d|..] == e
  {
  }

  /** White space is the six characters that `isspace` knows. */
  lemma SpaceCharacters(c: char)
    ensures IsSpace(c) <==> c in {' ', '\t', '\n', 11 as char, 12 as char, '\r'}
    ensures IsBlank(c) <==> c in {' ', 9 as char}
  {
  }

  lemma SpaceRun(s: string, p: nat)
    requires p < |s| && !IsSpace(s[p])
    requires forall k :: 0 <= k < p ==> s[..p][k] in {' ', '\t', '\n', 11 as char, 12 as char, '\r'}
    ensures SkipSpaces(s, 0) == p
  {
    assert forall k :: 0 <= k < p ==> s[k] == s[..p][k];
    SpaceRunFrom(s, 0, p);
  }

  lemma {:induction false} SpaceRunFrom(s: string, from: nat, p: nat)
    requires from <= p < |s| && !IsSpace(s[p]) && forall k :: from <= k < p ==> IsSpace(s[k])
    ensures SkipSpaces(s, from) == p
    decreases p - from
  {
    if from < p { SpaceRunFrom(s, from + 1, p); }
  }

  /** Behind the white space comes no white space, and the digits start behind the sign and the `0x`. */
  lemma StartsAfter(s: string, p: nat, sign: Sign, prefix: string, digits: string, base: Base)
    requires var q := p + |SignText(sign)|; var d := q + |prefix|; var e := d + |digits|;
             e <= |s| && s[p..q] == SignText(sign) && s[q..d] == prefix && s[d..e] == digits
    requires digits != "" && forall k :: 0 <= k < |digits| ==> IsDigit(digits[k], base)
    requires prefix == "" || (base == 16 && (prefix == "0x" || prefix == "0X"))
    requires var e := p + |SignText(sign)| + |prefix| + |digits|;
             prefix == "" && base == 16 && |digits| == 1 && e < |s| ==> s[e] != 'x' && s[e] != 'X'
    ensures p < |s| && !IsSpace(s[p]) && DigitStart(s, p, base) == p + |SignText(sign)| + |prefix|
    ensures At(s, p) == '-' <==> sign.Minus?
  {
    var q := p + |SignText(sign)|;
    var d := q + |prefix|;
    assert forall k :: 0 <= k < |digits| ==> s[d + k] == digits[k];
    assert IsDigit(s[d], base);
    if !sign.Unsigned? { assert s[p] == SignText(sign)[0]; }
    if prefix != "" {
      assert s[q] == prefix[0] && s[q + 1] == prefix[1];
    } else if |digits| > 1 {
      assert IsDigit(digits[1], base) && s[d + 1] == digits[1];
    }
  }

  /** A printed number is its numeral, in lower case and without leading zeros. */
  lemma {:induction false} PrintedIs(n: nat, base: Base)
    ensures IsNumeral(Digits(n, base), base) && Numeral(Digits(n, base), base) == n
    ensures forall k :: 0 <= k < |Digits(n, base)| ==> Digits(n, base)[k] in LOWER
    ensures n > 0 ==> Digits(n, base)[0] != '0'
    decreases n
  {
    hide Place;
    var s := Digits(n, base);
    if n < base {
      PrintedDigit(n);
      assert s[..0] == "";
    } else {
      PrintedIs(n / base, base);
      PrintedDigit(n % base);
      assert base * (n / base) + n % base == n;
      assert s[..|s| - 1] == Digits(n / base, base);
    }
  }

  lemma PrintedDigit(d: nat)
    requires d < 16
    ensures DigitChar(d) == LOWER[d] && Place(DigitChar(d)) == d && (d > 0 ==> DigitChar(d) != '0')
  {
    PlacesInOrder(d);
    DigitIsPlace(DigitChar(d));
  }
}
