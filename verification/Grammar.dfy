/** The streams of section 3.6.1 of RFC 2616, as far as a recipient must understand them, and the sizes on which the
    parser's arithmetic wraps around. */
module Grammar {
  import opened Common
  import opened Text
  import opened ChunkDecoder
  import opened ChunkReader
  import opened Numerals

  predicate IsHex(s: string) {
    IsNumeral(s, 16)
  }

  /** The number that a size denotes, told from its numerals. */
  function Hex(s: string): nat
    requires IsHex(s)
  {
    Numeral(s, 16)
  }

  lemma HexIsValue(s: string)
    requires IsHex(s)
    ensures s != "" && (forall k :: 0 <= k < |s| ==> IsDigit(s[k], 16)) && Value(s, 16) == Hex(s)
  {
    ValueIsNumeral(s, 16);
  }

  predicate AllBlank(s: string) {
    forall k :: 0 <= k < |s| ==> IsBlank(s[k])
  }

  // ----- lines

  lemma {:induction false} BlankRun(s: string, from: nat, end: nat)
    requires from <= end <= |s| && (end < |s| ==> !IsBlank(s[end])) && forall k :: from <= k < end ==> IsBlank(s[k])
    ensures SkipBlanks(s, from) == end
    decreases end - from
  {
    if from < end { BlankRun(s, from + 1, end); }
  }

  /** A number at the start of a line, with blanks behind it: upper or lower case, leading zeros or not. */
  lemma NumberedLine(hex: string, blanks: string, more: string)
    requires IsHex(hex) && AllBlank(blanks) && Hex(hex) <= LONG_MAX
    requires more != "" && !IsBlank(more[0]) && !IsDigit(more[0], 16) && !HexPrefix(hex + blanks + more, 0)
    ensures var s := hex + blanks + more;
            && Strtol(s, 0, 16) == Number(Hex(hex), |hex|) && SkipSpaces(s, 0) == 0
            && SkipBlanks(s, |hex|) == |hex| + |blanks| && s[|hex| + |blanks|..] == more
  {
    hide Strtol, Hex, Value, IsHex, AllBlank, SkipBlanks, SkipSpaces, HexPrefix;
    HexIsValue(hex);
    var s := hex + blanks + more;
    Layout(hex, blanks, more);
    NumberAt(s, |hex|, |hex| + |blanks|);
  }

  lemma NumberAt(s: string, n: nat, k: nat)
    requires 0 < n <= k < |s| && (forall i :: 0 <= i < n ==> IsDigit(s[i], 16)) && (forall i :: n <= i < k ==> IsBlank(s[i]))
    requires !IsBlank(s[k]) && !IsDigit(s[n], 16) && !HexPrefix(s, 0) && !IsSpace(s[0])
    requires Value(s[0..n], 16) <= LONG_MAX
    ensures Strtol(s, 0, 16) == Number(Value(s[0..n], 16), n) && SkipSpaces(s, 0) == 0 && SkipBlanks(s, n) == k
  {
    hide Strtol, Value, SkipBlanks, SkipSpaces, IsBlank, IsDigit;
    StrtolOfRun(s, 0, n, 16);
    BlankRun(s, n, k);
    FirstIsNoSpace(s);
  }

  lemma Layout(hex: string, blanks: string, more: string)
    requires IsHex(hex) && AllBlank(blanks)
    requires more != "" && !IsDigit(more[0], 16)
    ensures var s, n := hex + blanks + more, |hex|;
            && (forall k :: 0 <= k < n ==> IsDigit(s[k], 16)) && (forall k :: n <= k < n + |blanks| ==> IsBlank(s[k]))
            && s[0..n] == hex && s[n + |blanks|] == more[0] && s[n + |blanks|..] == more
            && !IsDigit(s[n], 16) && !IsSpace(s[0])
  {
    hide IsHex;
    HexIsValue(hex);
    ThreeParts(hex, blanks, more);
    assert IsDigit(hex[0], 16);
    assert blanks != "" ==> IsBlank(blanks[0]);
  }

  /** Digits and blanks that are not followed by an `x` are no `0x`. */
  lemma NoPrefix(hex: string, blanks: string, more: string)
    requires IsHex(hex) && AllBlank(blanks) && more != "" && more[0] != 'x' && more[0] != 'X'
    ensures !HexPrefix(hex + blanks + more, 0)
  {
    hide IsHex;
    HexIsValue(hex);
    ThreeParts(hex, blanks, more);
    assert blanks != "" ==> IsBlank(blanks[0]);
    assert |hex| > 1 ==> IsDigit(hex[1], 16);
  }

  lemma ThreeParts(a: string, b: string, c: string)
    requires a != "" && c != ""
    ensures var s, n, m := a + b + c, |a|, |a| + |b|;
            && (forall k :: 0 <= k < n ==> s[k] == a[k]) && (forall k :: n <= k < m ==> s[k] == b[k - n])
            && s[0..n] == a && s[m] == c[0] && s[m..] == c
            && s[n] == (if b == "" then c[0] else b[0]) && s[1] == (if n > 1 then a[1] else s[n])
  {
  }

  lemma NoCrIn(hex: string, blanks: string)
    requires IsHex(hex) && AllBlank(blanks)
    ensures forall i :: 0 <= i < |hex + blanks| ==> (hex + blanks)[i] != '\r'
  {
    HexIsValue(hex);
    assert forall i :: 0 <= i < |hex| ==> IsDigit(hex[i], 16);
    assert forall i :: 0 <= i < |blanks| ==> IsBlank(blanks[i]);
  }

  /** The size cut to 32 bits. */
  function Size(hex: string): (n: nat)
    requires IsHex(hex)
    ensures n < 0x1_0000_0000
  {
    Hex(hex) % 0x1_0000_0000
  }

  /** Every size line is clear, and what it announces is its size with two bytes more, as an unsigned number. */
  lemma SizeLineDefines(hex: string, blanks: string, rest: string)
    requires IsHex(hex) && AllBlank(blanks) && Hex(hex) <= LONG_MAX && |hex + blanks| + 2 <= BUFSIZE
    requires Size(hex) != 0
    ensures var line := hex + blanks + CRLF;
            && Clear(line) && IsLine(line)
            && ReadDefinition(line + rest, |line + rest|)
               == (if Size(hex) == 0xffff_fffe then Last(|line|, false, None) else Chunk((Size(hex) + 2) % 0x1_0000_0000, |line|))
            && Define(line + rest) == (if Size(hex) == 0xffff_fffe then Stop(Done("", false, None, rest))
                                       else Go((Size(hex) + 2) % 0x1_0000_0000, |line|))
  {
    hide Strtol, Hex, Value, IsHex, AllBlank, SkipBlanks, SkipSpaces, FindCrlf, IsLine;
    var line, k := hex + blanks + CRLF, |hex + blanks|;
    var s := line + rest;
    PlainLine(hex, blanks);
    PlainIsClear(line, |hex|, k, Hex(hex));
    LineHead(line, rest, |s|);
    LineCrlf(line, rest);
    LineThen(line, rest);
    LineEnds(line);
  }

  // ----- bodies

  /** A chunk: the size in hexadecimal, blanks, the data and the two bytes behind them, which nobody looks at. */
  datatype Piece = Piece(hex: string, blanks: string, data: string, close: string)

  predicate WellFormed(p: Piece) {
    && IsHex(p.hex) && AllBlank(p.blanks) && |p.hex + p.blanks| + 2 <= BUFSIZE && |p.close| == 2
    && Hex(p.hex) == |p.data| && 0 < |p.data| < BACKWARD - 2
  }

  function PieceText(p: Piece): string {
    p.hex + p.blanks + CRLF + (p.data + p.close)
  }

  lemma PieceParts(line: string, data: string, close: string, rest: string)
    requires |close| == 2
    ensures var body := data + close + rest; var s := line + (data + close) + rest;
            s == line + body && s[|line|..] == body && body[..|data|] == data && body[|data| + 2..] == rest
  {
  }

  lemma PieceDecodes(p: Piece, rest: string)
    requires WellFormed(p)
    ensures Decode(0, PieceText(p) + rest) == Prefixed(p.data, Decode(0, rest))
  {
    hide Define, Hex, Value, Decode, Clear, IsLine, ReadDefinition, IsHex, AllBlank, Prefixed;
    var line, body := p.hex + p.blanks + CRLF, p.data + p.close + rest;
    var s := PieceText(p) + rest;
    PieceParts(p.hex + p.blanks + CRLF, p.data, p.close, rest);
    SizeLineDefines(p.hex, p.blanks, body);
    DecodeDefined(s);
    DecodeChunk(|p.data| + 2, body);
  }

  /** The end of a body: a zero, or a zero with the extension `ieof`. */
  datatype End = Plain(hex: string, blanks: string) | Ieof(hex: string, blanks: string, gap: string, comment: string)

  predicate WellFormedEnd(e: End) {
    && IsHex(e.hex) && AllBlank(e.blanks) && Hex(e.hex) <= LONG_MAX && Size(e.hex) == 0
    && |EndText(e)| <= BUFSIZE
    && (e.Ieof? ==> AllBlank(e.gap) && forall i :: 0 <= i < |e.comment| ==> e.comment[i] != '\r')
  }

  /** What stands behind the size and its blanks. */
  function EndMark(e: End): string {
    if e.Plain? then "" else ";" + e.gap + "ieof" + e.comment
  }

  function EndText(e: End): string {
    e.hex + e.blanks + EndMark(e) + CRLF + CRLF
  }

  lemma EndLine(e: End)
    requires WellFormedEnd(e)
    ensures var line, at := LineOf(e), |e.hex| + |e.blanks|;
            && IsLine(line) && |line| + 2 <= BUFSIZE && SkipSpaces(line, 0) == 0
            && Strtol(line, 0, 16) == Number(Hex(e.hex), |e.hex|) && SkipBlanks(line, |e.hex|) == at
            && line[at..] == EndMark(e) + CRLF
  {
    hide Strtol, Hex, Value, EndMark, IsHex, AllBlank, IsLine;
    var mark := EndMark(e);
    assert e.hex + e.blanks + mark + CRLF == e.hex + e.blanks + (mark + CRLF);
    MarkHasNoCr(e);
    NoPrefix(e.hex, e.blanks, mark + CRLF);
    NumberedLine(e.hex, e.blanks, mark + CRLF);
    NoCrIn(e.hex, e.blanks);
    OnlyCrlf(e.hex + e.blanks, mark);
  }

  lemma OnlyCrlf(a: string, b: string)
    requires (forall i :: 0 <= i < |a| ==> a[i] != '\r') && (forall i :: 0 <= i < |b| ==> b[i] != '\r')
    ensures IsLine(a + b + CRLF)
  {
    var line, k := a + b + CRLF, |a + b|;
    assert forall i :: 0 <= i < k ==> line[i] == if i < |a| then a[i] else b[i - |a|];
    CrlfBehind(line, 0, k);
  }

  lemma MarkHasNoCr(e: End)
    requires WellFormedEnd(e)
    ensures forall i :: 0 <= i < |EndMark(e)| ==> EndMark(e)[i] != '\r'
    ensures var c := (EndMark(e) + CRLF)[0]; c == if e.Ieof? then ';' else '\r'
  {
    hide IsHex, Hex, AllBlank, Size;
    if e.Ieof? {
      KeywordIsPlain(e.comment);
      MarkIsPlain(e.gap, "ieof" + e.comment);
      assert ";" + e.gap + "ieof" + e.comment == ";" + e.gap + ("ieof" + e.comment);
      RegroupWord("", e.gap, "ieof" + e.comment);
    }
  }

  lemma KeywordIsPlain(comment: string)
    requires forall i :: 0 <= i < |comment| ==> comment[i] != '\r'
    ensures NoCr("ieof" + comment)
  {
    var s := "ieof" + comment;
    assert s[0] == 'i' && s[1] == 'e' && s[2] == 'o' && s[3] == 'f';
    assert forall i :: 4 <= i < |s| ==> s[i] == comment[i - 4];
  }

  function LineOf(e: End): string {
    e.hex + e.blanks + EndMark(e) + CRLF
  }

  lemma GapRun(front: string, gap: string, tail: string)
    requires AllBlank(gap) && tail != "" && !IsBlank(tail[0])
    ensures var s, f := front + gap + tail, |front| + |gap|;
            SkipBlanks(s, |front|) == f && s[f..] == tail
  {
    hide SkipBlanks, IsBlank;
    var p, n := front + gap, |front|;
    assert forall i :: n <= i < |p| ==> p[i] == gap[i - n];
    Joint(p, tail);
    BlankRun(p + tail, n, |p|);
  }

  lemma Joint(p: string, tail: string)
    ensures (p + tail)[|p|..] == tail && (tail != "" ==> (p + tail)[|p|] == tail[0])
    ensures forall i :: 0 <= i < |p| ==> (p + tail)[i] == p[i]
  {
  }

  lemma KeywordTail(comment: string)
    requires forall i :: 0 <= i < |comment| ==> comment[i] != '\r'
    ensures var tail := "ieof" + comment + CRLF;
            |tail| >= 6 && tail[..4] == "ieof" && tail[0] == 'i' && !IsBlank('i') && forall i :: 0 <= i < |tail| - 2 ==> tail[i] != '\r'
  {
    var tail := "ieof" + comment + CRLF;
    assert forall i :: 4 <= i < |tail| - 2 ==> tail[i] == comment[i - 4];
    assert tail[0] == 'i' && tail[1] == 'e' && tail[2] == 'o' && tail[3] == 'f';
  }

  /** Where the extension of a zero chunk has its keyword. */
  lemma IeofAt(e: End)
    requires WellFormedEnd(e) && e.Ieof?
    ensures var line, at, f := LineOf(e), |e.hex| + |e.blanks|, |e.hex| + |e.blanks| + 1 + |e.gap|;
            && f + 4 <= |line| - 2 && line[at] == ';' && SkipBlanks(line, at + 1) == f && line[f..f + 4] == "ieof"
            && forall i :: f <= i < |line| - 2 ==> line[i] != '\r'
  {
    hide Hex, Value, SkipBlanks, IsHex, IsBlank, Size;
    var line, front, tail := LineOf(e), e.hex + e.blanks + ";", "ieof" + e.comment + CRLF;
    var f := |front| + |e.gap|;
    Regroup(e.hex + e.blanks, e.gap, e.comment);
    KeywordTail(e.comment);
    GapRun(front, e.gap, tail);
    SemicolonAt(e.hex + e.blanks, e.gap + tail);
    EndOf(line, f, tail);
  }

  lemma Regroup(p: string, gap: string, comment: string)
    ensures p + (";" + gap + "ieof" + comment) + CRLF == p + ";" + gap + ("ieof" + comment + CRLF)
    ensures p + ";" + gap + ("ieof" + comment + CRLF) == p + ";" + (gap + ("ieof" + comment + CRLF))
  {
    var a, b := gap + "ieof" + comment + CRLF, gap + ("ieof" + comment + CRLF);
    assert a == b;
    assert p + (";" + gap + "ieof" + comment) + CRLF == p + ";" + a;
  }

  lemma SemicolonAt(p: string, more: string)
    ensures (p + ";" + more)[|p|] == ';'
  {
  }

  lemma EndOf(s: string, f: nat, tail: string)
    requires f <= |s| && s[f..] == tail && |tail| >= 4
    ensures s[f..f + 4] == tail[..4] && |s| == f + |tail| && forall i :: f <= i < |s| ==> s[i] == tail[i - f]
  {
    assert forall i :: f <= i < |s| ==> s[i] == s[f..][i - f];
    assert s[f..f + 4] == s[f..][..4];
  }

  lemma EndIsClear(e: End)
    requires WellFormedEnd(e)
    ensures Clear(LineOf(e))
  {
    hide Strtol, Hex, Value, EndMark, IsLine, SkipBlanks, SkipSpaces, WellFormedEnd;
    var line := LineOf(e);
    HexIsThere(e);
    EndLine(e);
    MarkHasNoCr(e);
    if e.Ieof? {
      IeofAt(e);
    } else {
      assert line[|e.hex| + |e.blanks|..][0] == '\r';
    }
  }

  lemma HexIsThere(e: End)
    requires WellFormedEnd(e)
    ensures |e.hex| > 0
  {
  }

  lemma {:induction false} CrAt(s: string, from: nat, k: nat)
    requires from <= k < |s| && s[k] == '\r' && forall i :: from <= i < k ==> s[i] != '\r'
    ensures SeekCr(s, from) == k
    decreases k - from
  {
    if from < k { CrAt(s, from + 1, k); }
  }

  lemma IeofReads(e: End, tail: string)
    requires WellFormedEnd(e) && e.Ieof? && |tail| >= 2
    ensures var line, from := LineOf(e), |e.hex| + |e.blanks| + 1;
            from <= |line| && ReadExtension(line + tail, |line + tail|, from, |line| + 2) == Last(|line| + 2, true, None)
  {
    hide Hex, Value, EndMark, WellFormedEnd, SkipBlanks, Strtol;
    var line, from := LineOf(e), |e.hex| + |e.blanks| + 1;
    var s, f, k := line + tail, from + |e.gap|, |line| - 2;
    EndLine(e);
    IeofAt(e);
    BlanksSettled(line, tail, from);
    assert s[f..f + 4] == line[f..f + 4] && s[f] == line[f] == 'i';
    assert !HasOriginal(s, |s|, f);
    assert s[k] == '\r' && s[k + 1] == '\n' && forall i :: f <= i < k ==> s[i] == line[i];
    CrAt(s, f, k);
  }

  lemma EndReads(e: End, tail: string)
    requires WellFormedEnd(e) && |tail| >= 2 && tail[0] == '\r'
    ensures var line, at := LineOf(e), |e.hex| + |e.blanks|;
            at <= |line| - 2 &&
            ReadAfterSize(line + tail, |line + tail|, |line| - 2, 0, at) == Last(|line| + 2, e.Ieof?, None)
  {
    hide Hex, Value, EndMark, WellFormedEnd, SkipBlanks, Strtol, ReadExtension, IsLine, IsHex, AllBlank, SkipSpaces, LineOf;
    var line, at := LineOf(e), |e.hex| + |e.blanks|;
    var s := line + tail;
    EndLine(e);
    MarkHasNoCr(e);
    LineEnds(line);
    assert s[|line|] == '\r' && s[at] == line[at] == line[at..][0];
    if e.Ieof? {
      IeofReads(e, tail);
    } else {
      PlainMark(e);
      assert s[at + 1] == line[at + 1] == line[at..][1] == '\n';
    }
  }

  lemma PlainMark(e: End)
    requires e.Plain?
    ensures EndMark(e) + CRLF == CRLF
  {
  }

  /** A zero with or without `ieof` ends the body, and says which of them it was. */
  lemma EndDecodes(e: End, rest: string)
    requires WellFormedEnd(e)
    ensures Decode(0, EndText(e) + rest) == Done("", e.Ieof?, None, rest)
  {
    hide Decode, Strtol, Hex, Value, Clear, EndMark, ReadAfterSize, IsLine, WellFormedEnd, LineOf, ReadDefinition;
    hide IsHex, AllBlank, SkipBlanks, SkipSpaces, EndText, FindCrlf;
    var line, tail := LineOf(e), CRLF + rest;
    var s := line + tail;
    EndTextIs(e, rest);
    EndLine(e);
    EndIsClear(e);
    ZeroSize(e);
    LineHead(line, tail, |s|);
    LineCrlf(line, tail);
    assert s[..|line|] == line && s[..|s|] == s && s[|line| + 2..] == rest;
    EndReads(e, tail);
    DecodeDefined(s);
  }

  lemma ZeroSize(e: End)
    requires WellFormedEnd(e)
    ensures |e.hex| > 0 && IsHex(e.hex) && Hex(e.hex) % 0x1_0000_0000 == 0
  {
  }

  lemma EndTextIs(e: End, rest: string)
    ensures EndText(e) + rest == LineOf(e) + (CRLF + rest)
  {
  }

  function BodyText(pieces: seq<Piece>): string {
    if pieces == [] then "" else PieceText(pieces[0]) + BodyText(pieces[1..])
  }

  function Payload(pieces: seq<Piece>): string {
    if pieces == [] then "" else pieces[0].data + Payload(pieces[1..])
  }

  /** Every body of the grammar is understood: its payload is the data of its chunks. */
  lemma {:induction false} GrammarDecodes(pieces: seq<Piece>, e: End, rest: string)
    requires (forall i :: 0 <= i < |pieces| ==> WellFormed(pieces[i])) && WellFormedEnd(e)
    ensures Decode(0, BodyText(pieces) + EndText(e) + rest) == Done(Payload(pieces), e.Ieof?, None, rest)
  {
    hide Decode, PieceText, EndText, WellFormed, WellFormedEnd;
    if pieces == [] {
      assert BodyText(pieces) + EndText(e) + rest == EndText(e) + rest;
      EndDecodes(e, rest);
    } else {
      var more := BodyText(pieces[1..]) + EndText(e) + rest;
      assert BodyText(pieces) + EndText(e) + rest == PieceText(pieces[0]) + more;
      PieceDecodes(pieces[0], more);
      GrammarDecodes(pieces[1..], e, rest);
    }
  }

  // ----- what is refused

  predicate NoCr(s: string) {
    forall i :: 0 <= i < |s| ==> s[i] != '\r'
  }

  /** A line that starts with no number. */
  lemma NoNumberRefused(text: string, rest: string)
    requires text != "" && NoCr(text) && |text| + 2 <= BUFSIZE
    requires text[0] !in LOWER && text[0] !in UPPER && text[0] !in {'+', '-', ' ', '\t', '\n', 11 as char, 12 as char}
    ensures Decode(0, text + CRLF + rest) == Malformed("")
  {
    hide Decode;
    var line := text + CRLF;
    var s := line + rest;
    assert text + "" == text;
    OnlyCrlf(text, "");
    LineCrlf(line, rest);
    DigitIsPlace(text[0]);
    SpaceCharacters(text[0]);
    assert line[0] == text[0] == s[0] && s[..|line|] == line && s[..|s|] == s;
    FirstIsNoSpace(line);
    FirstIsNoSpace(s);
    NoNumberAt(line);
    NoNumberAt(s);
    DecodeDefined(s);
  }

  lemma NoNumberAt(s: string)
    requires |s| > 1 && !IsSpace(s[0]) && DigitValue(s[0]) < 0 && s[0] != '+' && s[0] != '-'
    ensures Strtol(s, 0, 16) == Number(0, 0)
  {
  }

  /** A size that is followed by something else than blanks and the line end. */
  lemma JunkRefused(hex: string, blanks: string, junk: string, rest: string)
    requires IsHex(hex) && AllBlank(blanks) && Hex(hex) <= LONG_MAX && NoCr(junk)
    requires junk != "" && Place(junk[0]) < 0 && junk[0] !in {' ', '\t'} && !HexPrefix(hex + blanks + junk, 0)
    requires |hex + blanks + junk| + 4 <= BUFSIZE && (if Size(hex) == 0 then junk[0] != ';' && |rest| >= 2 else true)
    ensures Decode(0, hex + blanks + junk + CRLF + rest) == Malformed("")
  {
    hide Decode, Strtol, Hex, IsHex, AllBlank, ReadDefinition, Clear, IsLine, SkipBlanks, SkipSpaces, FindCrlf, HexPrefix;
    var line, at := hex + blanks + junk + CRLF, |hex| + |blanks|;
    var s := line + rest;
    JunkLine(hex, blanks, junk);
    JunkIsClear(line, |hex|, at, Hex(hex));
    LineHead(line, rest, |s|);
    LineCrlf(line, rest);
    assert s[..|line|] == line && s[..|s|] == s && s[at] == line[at];
    DecodeDefined(s);
  }

  lemma JunkLine(hex: string, blanks: string, junk: string)
    requires IsHex(hex) && AllBlank(blanks) && Hex(hex) <= LONG_MAX && NoCr(junk)
    requires junk != "" && Place(junk[0]) < 0 && junk[0] !in {' ', '\t'} && !HexPrefix(hex + blanks + junk, 0)
    ensures var line, at := hex + blanks + junk + CRLF, |hex| + |blanks|;
            && IsLine(line) && SkipSpaces(line, 0) == 0 && Strtol(line, 0, 16) == Number(Hex(hex), |hex|) && |hex| > 0
            && SkipBlanks(line, |hex|) == at < |line| - 2 && line[at] == junk[0] != '\r'
  {
    hide Strtol, Hex, IsHex, AllBlank, IsLine, SkipBlanks, SkipSpaces, HexPrefix, Place;
    MarkThenEnd(hex + blanks, junk);
    DigitIsPlace(junk[0]);
    SpaceCharacters(junk[0]);
    NoPrefixBehind(hex + blanks + junk);
    NumberedLine(hex, blanks, junk + CRLF);
    NoCrIn(hex, blanks);
    OnlyCrlf(hex + blanks, junk);
    HexIsValue(hex);
  }

  lemma NoPrefixBehind(s: string)
    requires !HexPrefix(s, 0)
    ensures !HexPrefix(s + CRLF, 0)
  {
  }

  lemma JunkIsClear(line: string, n: nat, at: nat, value: nat)
    requires IsLine(line) && SkipSpaces(line, 0) == 0 && Strtol(line, 0, 16) == Number(value, n) && n > 0
    requires n <= |line| && SkipBlanks(line, n) == at < |line| - 2
    requires value % 0x1_0000_0000 == 0 ==> line[at] != ';'
    ensures Clear(line)
  {
    hide IsLine, SkipSpaces, SkipBlanks, Strtol, ClearExtension;
  }

  /** A zero chunk with an extension that is none of the two. */
  lemma ExtensionRefused(hex: string, blanks: string, gap: string, word: string, rest: string)
    requires IsHex(hex) && AllBlank(blanks) && AllBlank(gap) && Hex(hex) <= LONG_MAX && Size(hex) == 0
    requires NoCr(word) && (word != "" ==> word[0] !in {' ', '\t'}) && |hex + blanks + gap + word| + 5 <= BUFSIZE
    requires !("ieof" <= word) && !("use-original-body=" <= word)
    ensures Decode(0, hex + blanks + (";" + gap + word) + CRLF + CRLF + rest) == Malformed("")
  {
    hide Decode, Strtol, Hex, IsHex, AllBlank, ReadDefinition, Clear, IsLine, SkipBlanks, SkipSpaces, FindCrlf, ReadExtension;
    var line := hex + blanks + (";" + gap + word) + CRLF;
    Behind2(line, rest);
    ExtensionLine(hex, blanks, gap, word);
    WordEnds(line, |hex|, |hex| + |blanks|, |gap|, word, Hex(hex), rest);
  }

  /** The same in terms of the places in the line. */
  lemma WordEnds(line: string, n: nat, at: nat, gap: nat, word: string, value: nat, rest: string)
    requires IsLine(line) && SkipSpaces(line, 0) == 0 && Strtol(line, 0, 16) == Number(value, n) && 0 < n <= |line|
    requires SkipBlanks(line, n) == at && at + 1 + gap <= |line| - 2 && SkipBlanks(line, at + 1) == at + 1 + gap
    requires line[at] == ';' && line[at + 1 + gap..] == word + CRLF && value % 0x1_0000_0000 == 0
    requires NoCr(word) && !("ieof" <= word) && !("use-original-body=" <= word) && |line| + 2 <= BUFSIZE
    ensures Decode(0, line + (CRLF + rest)) == Malformed("")
  {
    hide Decode, Strtol, ReadDefinition, Clear, IsLine, SkipBlanks, SkipSpaces, FindCrlf, ReadExtension;
    var tail := CRLF + rest;
    var s := line + tail;
    LineHead(line, tail, |s|);
    LineCrlf(line, tail);
    WordRefused(line, at + 1, gap, word, tail);
    WordIsClear(line, n, at, gap, word, value);
    assert s[..|line|] == line && s[..|s|] == s && s[at] == line[at] && s[|line|] == '\r';
    DecodeDefined(s);
  }

  lemma ExtensionLine(hex: string, blanks: string, gap: string, word: string)
    requires IsHex(hex) && AllBlank(blanks) && AllBlank(gap) && Hex(hex) <= LONG_MAX
    requires NoCr(word) && (word != "" ==> word[0] !in {' ', '\t'})
    ensures var line, at := hex + blanks + (";" + gap + word) + CRLF, |hex| + |blanks|; var f := at + 1 + |gap|;
            && IsLine(line) && SkipSpaces(line, 0) == 0 && Strtol(line, 0, 16) == Number(Hex(hex), |hex|) && |hex| > 0
            && SkipBlanks(line, |hex|) == at && line[at] == ';' && f <= |line| - 2
            && SkipBlanks(line, at + 1) == f && line[f..] == word + CRLF
  {
    hide Strtol, Hex, IsHex, IsLine, SkipBlanks, SkipSpaces, AllBlank, NoCr, HexPrefix;
    assert |hex + blanks| == |hex| + |blanks|;
    MarkIsPlain(gap, word);
    SemicolonLine(hex, blanks, ";" + gap + word);
    WordBehindGap(hex + blanks, gap, word);
  }

  lemma MarkThenEnd(p: string, mark: string)
    requires mark != ""
    ensures p + mark + CRLF == p + (mark + CRLF) && (mark + CRLF)[0] == mark[0] && mark + CRLF != ""
  {
  }

  lemma SemicolonLine(hex: string, blanks: string, mark: string)
    requires IsHex(hex) && AllBlank(blanks) && Hex(hex) <= LONG_MAX && NoCr(mark) && mark != "" && mark[0] == ';'
    ensures var line, at := hex + blanks + mark + CRLF, |hex + blanks|;
            && IsLine(line) && SkipSpaces(line, 0) == 0 && Strtol(line, 0, 16) == Number(Hex(hex), |hex|) && |hex| > 0
            && SkipBlanks(line, |hex|) == at
  {
    hide Strtol, Hex, IsHex, IsLine, SkipBlanks, SkipSpaces, HexPrefix, AllBlank, NoCr, Place;
    DigitIsPlace(';');
    NoPrefix(hex, blanks, mark);
    JunkLine(hex, blanks, mark);
  }

  lemma WordBehindGap(p: string, gap: string, word: string)
    requires AllBlank(gap) && (word != "" ==> word[0] !in {' ', '\t'})
    ensures var line := p + (";" + gap + word) + CRLF; var f := |p| + 1 + |gap|;
            line[|p|] == ';' && f <= |line| - 2 && SkipBlanks(line, |p| + 1) == f && line[f..] == word + CRLF
  {
    hide SkipBlanks, AllBlank;
    var tail := word + CRLF;
    RegroupWord(p, gap, word);
    SpaceCharacters(tail[0]);
    GapRun(p + ";", gap, tail);
    SemicolonAt(p, gap + tail);
  }

  lemma Behind2(line: string, rest: string)
    ensures line + CRLF + rest == line + (CRLF + rest)
  {
  }

  lemma RegroupWord(p: string, gap: string, word: string)
    ensures var line := p + (";" + gap + word) + CRLF;
            && line == p + ((";" + gap + word) + CRLF) && (";" + gap + word + CRLF)[0] == ';'
            && line == p + ";" + gap + (word + CRLF) && line == p + ";" + (gap + (word + CRLF))
            && (word + CRLF)[0] == if word == "" then '\r' else word[0]
  {
  }

  lemma MarkIsPlain(gap: string, word: string)
    requires AllBlank(gap) && NoCr(word)
    ensures var mark := ";" + gap + word; NoCr(mark) && mark != "" && mark[0] == ';'
  {
    GapHasNoCr(gap);
    var mark := ";" + gap + word;
    assert forall i :: 0 <= i < |mark| ==> mark[i] == if i == 0 then ';' else if i <= |gap| then gap[i - 1] else word[i - 1 - |gap|];
  }

  lemma GapHasNoCr(gap: string)
    requires AllBlank(gap)
    ensures NoCr(gap)
  {
    assert forall i :: 0 <= i < |gap| ==> IsBlank(gap[i]);
  }

  lemma WordRefused(line: string, from: nat, gap: nat, word: string, tail: string)
    requires IsLine(line) && from + gap <= |line| - 2 && SkipBlanks(line, from) == from + gap && line[from + gap..] == word + CRLF
    requires !("ieof" <= word) && !("use-original-body=" <= word) && |tail| >= 2 && NoCr(word)
    ensures ReadExtension(line + tail, |line + tail|, from, |line| + 2) == Bad
    ensures !HasOriginal(line, |line|, from + gap)
  {
    hide SkipBlanks, IsLine;
    var s, f := line + tail, from + gap;
    BlanksSettled(line, tail, from);
    assert s[f..] == word + CRLF + tail;
    NotThere(s, f, word, CRLF + tail, "ieof");
    NotThere(s, f, word, CRLF + tail, "use-original-body=");
    NotThere(line, f, word, CRLF, "use-original-body=");
    assert s[f..] == word + (CRLF + tail);
  }

  /** A keyword without CR that the word does not start with is not there either when the word ends early. */
  lemma NotThere(s: string, f: nat, word: string, more: string, keyword: string)
    requires f <= |s| && s[f..] == word + more && more != "" && more[0] == '\r' && NoCr(keyword) && !(keyword <= word)
    ensures f + |keyword| <= |s| ==> s[f..f + |keyword|] != keyword
  {
    var t := word + more;
    if f + |keyword| <= |s| {
      assert s[f..f + |keyword|] == t[..|keyword|];
      if |keyword| <= |word| {
        assert t[..|keyword|] == word[..|keyword|];
      } else {
        assert t[..|keyword|][|word|] == '\r';
      }
    }
  }

  lemma WordIsClear(line: string, n: nat, at: nat, gap: nat, word: string, value: nat)
    requires IsLine(line) && SkipSpaces(line, 0) == 0 && Strtol(line, 0, 16) == Number(value, n) && 0 < n <= |line|
    requires SkipBlanks(line, n) == at && at + 1 + gap <= |line| - 2 && SkipBlanks(line, at + 1) == at + 1 + gap
    requires !HasOriginal(line, |line|, at + 1 + gap)
    ensures Clear(line)
  {
    hide IsLine, SkipSpaces, SkipBlanks, Strtol, HasOriginal;
  }

  /** A zero whose line is followed by two bytes: neither a CR first nor a LF second, and it is refused; one of them is
      enough. */
  lemma TwoBytesClose(hex: string, blanks: string, rest: string)
    requires IsHex(hex) && AllBlank(blanks) && Hex(hex) <= LONG_MAX && Size(hex) == 0 && |hex + blanks| + 4 <= BUFSIZE
    requires |rest| >= 2
    ensures Decode(0, hex + blanks + CRLF + rest)
         == if rest[0] == '\r' || rest[1] == '\n' then Done("", false, None, rest[2..]) else Malformed("")
  {
    hide Decode, Strtol, Hex, IsHex, AllBlank, ReadDefinition, Clear, IsLine, SkipBlanks, SkipSpaces, FindCrlf;
    var line, at := hex + blanks + CRLF, |hex| + |blanks|;
    var s := line + rest;
    PlainLine(hex, blanks);
    PlainIsClear(line, |hex|, at, Hex(hex));
    LineHead(line, rest, |s|);
    LineCrlf(line, rest);
    LineThenTwo(line, rest);
    LineEnds(line);
    DecodeDefined(s);
  }

  lemma PlainLine(hex: string, blanks: string)
    requires IsHex(hex) && AllBlank(blanks) && Hex(hex) <= LONG_MAX
    ensures var line := hex + blanks + CRLF;
            && IsLine(line) && SkipSpaces(line, 0) == 0 && Strtol(line, 0, 16) == Number(Hex(hex), |hex|) && |hex| > 0
            && SkipBlanks(line, |hex|) == |hex| + |blanks|
  {
    hide Strtol, Hex, IsHex, IsLine, SkipBlanks, SkipSpaces, HexPrefix, AllBlank;
    NoPrefix(hex, blanks, CRLF);
    NumberedLine(hex, blanks, CRLF);
    NoCrIn(hex, blanks);
    assert hex + blanks + "" == hex + blanks;
    OnlyCrlf(hex + blanks, "");
    HexIsValue(hex);
  }

  lemma LineThen(line: string, rest: string)
    requires |line| >= 2
    ensures var s, n := line + rest, |line|;
            && s[..n] == line && s[..|s|] == s && s[n..] == rest && s[n - 2] == line[n - 2] && s[n - 1] == line[n - 1]
  {
  }

  lemma LineThenTwo(line: string, rest: string)
    requires |line| >= 2 && |rest| >= 2
    ensures var s, n := line + rest, |line|;
            && s[..n] == line && s[..|s|] == s && s[n] == rest[0] && s[n + 1] == rest[1] && s[n + 2..] == rest[2..]
            && s[n - 2] == line[n - 2] && s[n - 1] == line[n - 1]
  {
  }

  lemma PlainIsClear(line: string, n: nat, at: nat, value: nat)
    requires IsLine(line) && SkipSpaces(line, 0) == 0 && Strtol(line, 0, 16) == Number(value, n) && 0 < n <= at == |line| - 2
    requires SkipBlanks(line, n) == at
    ensures Clear(line)
  {
    hide IsLine, SkipSpaces, SkipBlanks, Strtol, ClearExtension;
    LineEnds(line);
  }

  /** A definition that fills the buffer without a line end. */
  lemma LongLineRefused(s: string)
    requires |s| >= BUFSIZE && forall i :: 0 <= i < BUFSIZE - 1 ==> !(s[i] == '\r' && s[i + 1] == '\n')
    ensures Decode(0, s) == Malformed("")
  {
    hide Decode, Clear, ReadDefinition;
    DecodeDefined(s);
  }

  // ----- sizes that wrap around

  /** A size of 2^32-2 ends the body behind its own line. */
  lemma WrappedEnd(hex: string, blanks: string, rest: string)
    requires IsHex(hex) && AllBlank(blanks) && Hex(hex) <= LONG_MAX && |hex + blanks| + 2 <= BUFSIZE
    requires Size(hex) == 0xffff_fffe
    ensures Decode(0, hex + blanks + CRLF + rest) == Done("", false, None, rest)
  {
    hide Decode, Define, Clear, IsLine, ReadDefinition;
    SizeLineDefines(hex, blanks, rest);
    DecodeDefined(hex + blanks + CRLF + rest);
  }

  /** So does a size of -2. */
  lemma MinusTwoEnds(rest: string)
    ensures ReadDefinition("-2\r\n" + rest, |"-2\r\n" + rest|) == Last(4, false, None)
  {
    var s := "-2\r\n" + rest;
    assert s[0] == '-' && s[1] == '2' && s[2] == '\r' && s[3] == '\n' && s[..|s|] == s;
    CrlfBehind(s, 0, 2);
    assert ScanDigits(s, 2, 16) == 2 && s[1..2] == "2" && "2"[..0] == "";
    assert Value("2", 16) == Times(Value("", 16), 16) + 2;
    assert Strtol(s, 0, 16) == Number(-2, 2);
    assert SkipBlanks(s, 2) == 2;
  }

  /** A size from 2^31-2 to 2^32-3 makes the parser go back, by one byte for the largest and by 2^31 for the smallest. From
      the start of its buffer it leaves the buffer exactly if that is more than the line; if it is just the line, the
      parser stands where it stood before, and will do the same again. */
  method GoBack(hex: string, blanks: string, rest: string) returns (reader: Reader, inside: bool)
    requires IsHex(hex) && AllBlank(blanks) && Hex(hex) <= LONG_MAX && rest != ""
    requires |hex + blanks| + 2 + |rest| <= BUFSIZE && BACKWARD - 2 <= Size(hex) < 0xffff_fffe
    ensures var line, steps := hex + blanks + CRLF, 0xffff_fffe - Size(hex);
            && (inside <==> steps <= |line|)
            && (inside ==> reader.Valid() && reader.Need() == 0 && reader.Unread() == (line + rest)[|line| - steps..])
            && (steps == |line| ==> inside && reader.Unread() == line + rest)
  {
    hide Hex, Value, IsHex, AllBlank;
    var line := hex + blanks + CRLF;
    ghost var text, steps := line + rest, 0xffff_fffe - Size(hex);
    reader := AtChunk(hex, blanks, rest);
    inside := reader.StepBack();
    if inside {
      SuffixOf(reader.rbuf[..], text, |line| - steps);
      assert reader.readPos == |line| - steps && reader.readPos + reader.readLen == |text|;
      assert text[0..] == text;
    }
  }

  /** A parser behind the size line at the start of its buffer. */
  method AtChunk(hex: string, blanks: string, rest: string) returns (reader: Reader)
    requires IsHex(hex) && AllBlank(blanks) && Hex(hex) <= LONG_MAX
    requires |hex + blanks| + 2 + |rest| <= BUFSIZE && 0 < Size(hex) < 0xffff_fffe
    ensures var line := hex + blanks + CRLF;
            && fresh(reader) && reader.Valid() && reader.Need() == Size(hex) + 2 && reader.pending == 0
            && reader.readPos == |line| && reader.readLen == |rest| && reader.rbuf[..|line + rest|] == line + rest
  {
    hide ReadDefinition, Decode, Advances, Hex, Value, IsHex, AllBlank, Finishes, Rejects, Open;
    var text := hex + blanks + CRLF + rest;
    reader := Filled(text);
    ChunkAhead(hex, blanks, rest, reader.rbuf[|text|..]);
    var d := reader.ParseDefinition();
  }

  lemma ChunkAhead(hex: string, blanks: string, rest: string, stale: string)
    requires IsHex(hex) && AllBlank(blanks) && Hex(hex) <= LONG_MAX && |hex + blanks| + 2 <= BUFSIZE
    requires 0 < Size(hex) < 0xffff_fffe
    ensures var line := hex + blanks + CRLF;
            ReadDefinition(line + rest + stale, |line + rest|) == Chunk(Size(hex) + 2, |line|)
  {
    hide Clear, IsLine, ReadDefinition, Define, Hex, Value, IsHex, AllBlank;
    SizeLineDefines(hex, blanks, rest);
    StaleAside(hex + blanks + CRLF, rest, stale);
  }

  lemma SuffixOf(all: string, text: string, p: nat)
    requires p <= |text| <= |all| && all[..|text|] == text
    ensures all[p..|text|] == text[p..]
  {
  }

  /** A parser at the start of its buffer. */
  method Filled(text: string) returns (reader: Reader)
    requires |text| <= BUFSIZE
    ensures fresh(reader) && fresh(reader.rbuf) && reader.Valid() && reader.readPos == 0 && reader.readLen == |text|
    ensures reader.Need() == 0 && reader.pending == 0 && reader.rbuf[..|text|] == text
    ensures reader.rbuf[0..] == text + reader.rbuf[|text|..]
  {
    reader := new Reader();
    var ok, taken := reader.NetDataRead(text, false);
    assert text[..taken] == text && reader.Unread() == text;
    assert reader.rbuf[..|text|] == text;
    assert reader.rbuf[0..] == reader.rbuf[..|text|] + reader.rbuf[|text|..];
  }

  lemma StaleAside(line: string, rest: string, stale: string)
    requires IsLine(line) && Clear(line)
    ensures ReadDefinition(line + rest + stale, |line + rest|) == ReadDefinition(line + rest, |line + rest|)
  {
    ClearIsIndependent(line, rest, stale, "");
    assert line + rest + "" == line + rest;
  }
}
