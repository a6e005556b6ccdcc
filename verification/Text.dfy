/** Byte strings as the C code sees them: a `string` is a run of bytes, and the C library routines that
    the parsers call (`strtol`, `strnstr`, the numeric formats of `snprintf`) are functions on it. */
module Text {

  const CRLF: string := "\r\n"

  /** The byte at `i`; past the end of the known bytes a reader sees a NUL. */
  function At(s: string, i: nat): char {
    if i < |s| then s[i] else '\0'
  }

  predicate IsSpace(c: char) {
    c == ' ' || '\t' <= c <= '\r'
  }

  predicate IsBlank(c: char) {
    c == ' ' || c == '\t'
  }

  /** The two bases that the protocol text uses. */
  type Base = b: nat | b == 10 || b == 16 witness 10

  /** The value of a digit character, or -1. */
  function DigitValue(c: char): (v: int)
    ensures -1 <= v < 16
  {
    if '0' <= c <= '9' then c as int - '0' as int
    else if 'a' <= c <= 'f' then c as int - 'a' as int + 10
    else if 'A' <= c <= 'F' then c as int - 'A' as int + 10
    else -1
  }

  predicate IsDigit(c: char, base: Base) {
    0 <= DigitValue(c) < base
  }

  /** The first position from `i` on that holds no white space (`isspace`). */
  function SkipSpaces(s: string, i: nat): (j: nat)
    requires i <= |s|
    ensures i <= j <= |s| && (j < |s| ==> !IsSpace(s[j]))
    decreases |s| - i
  {
    if i < |s| && IsSpace(s[i]) then SkipSpaces(s, i + 1) else i
  }

  /** The first position from `i` on that holds neither a space nor a tab. */
  function SkipBlanks(s: string, i: nat): (j: nat)
    requires i <= |s|
    ensures i <= j <= |s| && (j < |s| ==> !IsBlank(s[j]))
    decreases |s| - i
  {
    if i < |s| && IsBlank(s[i]) then SkipBlanks(s, i + 1) else i
  }

  function ScanDigits(s: string, i: nat, base: Base): (j: nat)
    requires i <= |s|
    ensures i <= j <= |s| && (j < |s| ==> !IsDigit(s[j], base))
    ensures forall k :: i <= k < j ==> IsDigit(s[k], base)
    decreases |s| - i
  {
    if i < |s| && IsDigit(s[i], base) then ScanDigits(s, i + 1, base) else i
  }

  function Times(v: int, base: Base): int {
    if base == 16 then 16 * v else 10 * v
  }

  /** The number that a run of digits denotes. */
  function Value(digits: string, base: Base): (v: int)
    requires forall k :: 0 <= k < |digits| ==> IsDigit(digits[k], base)
    ensures v >= 0
  {
    if digits == "" then 0
    else
      var last := |digits| - 1;
      assert IsDigit(digits[last], base);
      Times(Value(digits[..last], base), base) + DigitValue(digits[last])
  }

  const LONG_MAX: int := 0x7fff_ffff_ffff_ffff

  function ClampToLong(v: int): int {
    if v > LONG_MAX then LONG_MAX else if v < -LONG_MAX - 1 then -LONG_MAX - 1 else v
  }

  /** What `strtol` stores: the value, and the position of the first byte that is not part of it. */
  datatype Number = Number(value: int, end: nat)

  /** The start of the digits: after an optional sign and, in base 16, an optional `0x`. */
  function DigitStart(s: string, p: nat, base: Base): (d: nat)
    requires p <= |s|
    ensures p <= d <= |s|
  {
    var q := if At(s, p) == '-' || At(s, p) == '+' then p + 1 else p;
    if base == 16 && At(s, q) == '0' && (At(s, q + 1) == 'x' || At(s, q + 1) == 'X') && IsDigit(At(s, q + 2), 16)
    then q + 2 else q
  }

  function Strtol(s: string, from: nat, base: Base): (n: Number)
    requires from <= |s|
    ensures from <= n.end <= |s|
  {
    var p := SkipSpaces(s, from);
    var d := DigitStart(s, p, base);
    var e := ScanDigits(s, d, base);
    if e == d then Number(0, from)
    else
      var v := Value(s[d..e], base);
      Number(ClampToLong(if At(s, p) == '-' then -v else v), e)
  }

  // ----- what a parser may conclude before the rest of the stream has arrived

  /** A complete line: it ends in the only CRLF that it contains. */
  predicate IsLine(s: string) {
    |s| >= 2 && FindCrlf(s) == |s| - 2
  }

  /** `strnstr(s, "\r\n", |s|)` as a position, or -1. */
  function FindCrlf(s: string): (k: int)
    ensures -1 <= k < |s|
    ensures k >= 0 ==> k + 2 <= |s| && s[k] == '\r' && s[k + 1] == '\n'
  {
    FindCrlfFrom(s, 0)
  }

  function FindCrlfFrom(s: string, from: nat): (k: int)
    ensures -1 <= k < |s|
    ensures k >= 0 ==> from <= k && k + 2 <= |s| && s[k] == '\r' && s[k + 1] == '\n'
    decreases |s| - from
  {
    if from + 2 > |s| then -1
    else if s[from] == '\r' && s[from + 1] == '\n' then from
    else FindCrlfFrom(s, from + 1)
  }

  predicate CrlfAt(s: string, i: nat) {
    i + 2 <= |s| && s[i] == '\r' && s[i + 1] == '\n'
  }

  /** `FindCrlf` is the first CRLF, and misses none. */
  lemma FirstCrlf(s: string, from: nat, i: nat)
    requires from <= i && CrlfAt(s, i)
    ensures 0 <= FindCrlfFrom(s, from) <= i
    decreases i - from
  {
    if from < i && !CrlfAt(s, from) { FirstCrlf(s, from + 1, i); }
  }

  lemma {:induction false} CrlfBehind(s: string, from: nat, k: nat)
    requires from <= k && CrlfAt(s, k) && forall i :: from <= i < k ==> s[i] != '\r'
    ensures FindCrlfFrom(s, from) == k
    decreases k - from
  {
    if from < k { CrlfBehind(s, from + 1, k); }
  }

  /** A CRLF that has been found stays the first one when more bytes arrive. */
  lemma CrlfStable(s: string, more: string)
    requires FindCrlf(s) >= 0
    ensures FindCrlf(s + more) == FindCrlf(s)
  {
    CrlfStableFrom(s, more, 0);
  }

  lemma CrlfStableFrom(s: string, more: string, from: nat)
    requires FindCrlfFrom(s, from) >= 0
    ensures FindCrlfFrom(s + more, from) == FindCrlfFrom(s, from)
    decreases |s| - from
  {
    if !CrlfAt(s, from) { CrlfStableFrom(s, more, from + 1); }
  }

  // A scan stops no later than the first byte that cannot be part of it.

  lemma SpacesStop(s: string, from: nat, stop: nat)
    requires from <= stop < |s| && !IsSpace(s[stop])
    ensures SkipSpaces(s, from) <= stop
    decreases stop - from
  {
    if from < stop && IsSpace(s[from]) { SpacesStop(s, from + 1, stop); }
  }

  lemma BlanksStop(s: string, from: nat, stop: nat)
    requires from <= stop < |s| && !IsBlank(s[stop])
    ensures SkipBlanks(s, from) <= stop
    decreases stop - from
  {
    if from < stop && IsBlank(s[from]) { BlanksStop(s, from + 1, stop); }
  }

  lemma DigitsStop(s: string, from: nat, stop: nat, base: Base)
    requires from <= stop < |s| && !IsDigit(s[stop], base)
    ensures ScanDigits(s, from, base) <= stop
    decreases stop - from
  {
    if from < stop && IsDigit(s[from], base) { DigitsStop(s, from + 1, stop, base); }
  }

  /** Where a scan stops on a line is where it stops on any stream that starts with the line. */
  lemma SpacesSettled(line: string, more: string, from: nat)
    requires from <= |line| && SkipSpaces(line, from) < |line|
    ensures SkipSpaces(line + more, from) == SkipSpaces(line, from)
    decreases |line| - from
  {
    if IsSpace(line[from]) { SpacesSettled(line, more, from + 1); }
  }

  lemma BlanksSettled(line: string, more: string, from: nat)
    requires from <= |line| && SkipBlanks(line, from) < |line|
    ensures SkipBlanks(line + more, from) == SkipBlanks(line, from)
    decreases |line| - from
  {
    if IsBlank(line[from]) { BlanksSettled(line, more, from + 1); }
  }

  lemma DigitsSettled(line: string, more: string, from: nat, base: Base)
    requires from <= |line| && ScanDigits(line, from, base) < |line|
    ensures ScanDigits(line + more, from, base) == ScanDigits(line, from, base)
    decreases |line| - from
  {
    if IsDigit(line[from], base) { DigitsSettled(line, more, from + 1, base); }
  }

  lemma DigitStartSettled(line: string, more: string, p: nat, base: Base)
    requires IsLine(line) && p < |line| - 2 && !IsSpace(line[p])
    ensures DigitStart(line + more, p, base) == DigitStart(line, p, base) <= |line| - 2
  {
    var t, n := line + more, |line| - 2;
    assert forall i :: 0 <= i < |line| ==> t[i] == line[i];
    assert line[n] == '\r' && line[n + 1] == '\n';
  }

  /** `strtol` on a line decides the same way whatever follows the line, unless the line is blank from
      `from` on: then it would run over the CRLF into bytes that may not have arrived yet. */
  lemma StrtolSettled(line: string, more: string, from: nat, base: Base)
    requires IsLine(line) && from <= |line| - 2
    requires SkipSpaces(line, from) < |line| - 2
    ensures Strtol(line + more, from, base) == Strtol(line, from, base)
    ensures Strtol(line, from, base).end <= |line| - 2
  {
    var p := SkipSpaces(line, from);
    SpacesSettled(line, more, from);
    DigitStartSettled(line, more, p, base);
    var d := DigitStart(line, p, base);
    var e := ScanDigits(line, d, base);
    DigitsStop(line, d, |line| - 2, base);
    DigitsSettled(line, more, d, base);
    assert (line + more)[d..e] == line[d..e];
    assert At(line + more, p) == At(line, p);
  }

  // ----- printing and reading back

  function DigitChar(d: nat): (c: char)
    requires d < 16
    ensures DigitValue(c) == d && c != '\0' && c != 'x' && c != 'X' && c != '-' && c != '+' && !IsSpace(c)
  {
    if d < 10 then (d + '0' as int) as char else (d - 10 + 'a' as int) as char
  }

  /** A digit as `snprintf` prints it. */
  predicate IsPrinted(c: char, base: Base) {
    exists d: nat :: d < base && c == DigitChar(d)
  }

  /** `%d` (base 10) and `%x` (base 16) of a non-negative number. */
  function Digits(n: nat, base: Base): (s: string)
    ensures s != ""
    ensures forall k :: 0 <= k < |s| ==> IsPrinted(s[k], base)
    decreases n
  {
    if n < base then [DigitChar(n)]
    else Digits(n / base, base) + [DigitChar(n % base)]
  }

  lemma {:induction false} ValueOfDigits(n: nat, base: Base)
    ensures forall k :: 0 <= k < |Digits(n, base)| ==> IsDigit(Digits(n, base)[k], base)
    ensures Value(Digits(n, base), base) == n
    decreases n
  {
    var s := Digits(n, base);
    if n < base {
      assert Value("", base) == 0;
    } else {
      ValueOfDigits(n / base, base);
      assert s[..|s| - 1] == Digits(n / base, base);
    }
  }

  function Power(base: Base, k: nat): int {
    if k == 0 then 1 else if base == 16 then 16 * Power(base, k - 1) else 10 * Power(base, k - 1)
  }

  /** A number below the `k`-th power of the base prints in at most `k` digits. */
  lemma {:induction false} DigitsLength(n: nat, base: Base, k: nat)
    requires 1 <= k && n < Power(base, k)
    ensures |Digits(n, base)| <= k
  {
    if n >= base {
      assert k > 1 && n < Times(Power(base, k - 1), base);
      DigitsLength(n / base, base, k - 1);
    }
  }

  lemma DigitRun(s: string, from: nat, end: nat, base: Base)
    requires from <= end <= |s| && (end < |s| ==> !IsDigit(s[end], base))
    requires forall k :: from <= k < end ==> IsDigit(s[k], base)
    ensures ScanDigits(s, from, base) == end
    decreases end - from
  {
    if from < end { DigitRun(s, from + 1, end, base); }
  }

  /** A zero that `strtol` takes for the start of a `0x`. */
  predicate HexPrefix(s: string, from: nat) {
    from + 2 < |s| && s[from] == '0' && (s[from + 1] == 'x' || s[from + 1] == 'X') && IsDigit(s[from + 2], 16)
  }

  /** A digit run that does not start with `0x` is read as its value. */
  lemma StrtolOfRun(s: string, from: nat, end: nat, base: Base)
    requires from < end <= |s| && (end < |s| ==> !IsDigit(s[end], base))
    requires forall k :: from <= k < end ==> IsDigit(s[k], base)
    requires !HexPrefix(s, from)
    requires Value(s[from..end], base) <= LONG_MAX
    ensures Strtol(s, from, base) == Number(Value(s[from..end], base), end)
  {
    assert IsDigit(s[from], base);
    assert SkipSpaces(s, from) == from;
    assert DigitStart(s, from, base) == from;
    DigitRun(s, from, end, base);
  }

  /** Reading back a printed number, in place, whatever follows it. */
  lemma StrtolOfDigits(s: string, from: nat, n: nat, base: Base)
    requires n <= LONG_MAX
    requires from + |Digits(n, base)| <= |s|
    requires s[from..from + |Digits(n, base)|] == Digits(n, base)
    requires from + |Digits(n, base)| < |s| ==>
               var stop := s[from + |Digits(n, base)|]; !IsDigit(stop, base) && stop != 'x' && stop != 'X'
    ensures Strtol(s, from, base) == Number(n, from + |Digits(n, base)|)
  {
    hide Digits, Value, Strtol, IsPrinted;
    var ds := Digits(n, base);
    var end := from + |ds|;
    ValueOfDigits(n, base);
    assert forall k :: from <= k < end ==> s[k] == ds[k - from];
    assert |ds| > 1 ==> s[from + 1] == ds[1] && IsDigit(ds[1], base);
    StrtolOfRun(s, from, end, base);
  }

  /** The two ends of a part of a string. */
  lemma PartsOf(s: string, from: nat, len: nat, taken: nat, k: nat)
    requires from + len <= |s| && taken <= len && k <= len
    ensures s[from + taken..from + len] == s[from..from + len][taken..] && s[from..from + k] == s[from..from + len][..k]
  {
  }

  lemma ThreeParts(s: string, a: nat, b: nat, c: nat, d: nat)
    requires a <= b <= c <= d <= |s|
    ensures s[a..d] == s[a..b] + s[b..c] + s[c..d]
  {
  }

  lemma Behind(s: string, at: nat, text: string)
    requires at + |text| <= |s| && s[at..at + |text|] == text
    ensures s[..at + |text|] == s[..at] + text
  {
  }

  lemma LineCrlf(line: string, tail: string)
    requires IsLine(line)
    ensures FindCrlf(line + tail) == |line| - 2
  {
    CrlfStable(line, tail);
  }
}
