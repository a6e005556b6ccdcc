/** The incremental decoder of chunked bodies, `parse_chunk_data`, over the buffer that `net_data_read` refills.

    `Decode` is the reference: what a chunked stream means when all of it is at hand. `ChunkReader` is the
    code, which sees the stream through a window of BUFSIZE bytes cut at arbitrary places. */
module ChunkDecoder {
  import opened Common
  import opened Text

  // ----- a chunk definition line

  /** What the bytes at the read position say, seen as a chunk definition. */
  datatype Definition =
    | NoLine                                                          // its CRLF has not arrived
    | Awaiting                                                        // a zero chunk, second CRLF not complete
    | Bad                                                             // answered with CI_ERROR
    | Chunk(need: nat, length: nat)                                   // `need` bytes of data and CRLF follow the line
    | Last(length: nat, extension: bool, original: Option<int>)       // the end of the body
    | OutOfRange                                                      // the search for a CR would leave the buffer

  const USE_ORIGINAL: string := "use-original-body="

  /** The first CR from `i` on, or the end of the bytes. */
  function SeekCr(s: string, i: nat): (j: nat)
    requires i <= |s|
    ensures i <= j <= |s| && (j < |s| ==> s[j] == '\r')
    decreases |s| - i
  {
    if i < |s| && s[i] != '\r' then SeekCr(s, i + 1) else i
  }

  /** The keyword lies at `e`, within the first `len` bytes. */
  predicate HasOriginal(s: string, len: nat, e: nat)
    requires len <= |s|
  {
    e + 18 <= len && s[e..e + 18] == USE_ORIGINAL
  }

  predicate LacksIeof(s: string, len: nat, e: nat)
    requires len <= |s|
  {
    e + 4 <= len && s[e..e + 4] != "ieof"
  }

  /** The text after the `;` of a zero chunk whose definition takes `length` bytes. */
  function ReadExtension(s: string, len: nat, from: nat, length: nat): (d: Definition)
    requires len <= |s| && from <= |s|
    ensures d.Bad? || d.OutOfRange? || (d.Last? && d.length == length)
  {
    var e := SkipBlanks(s, from);
    if HasOriginal(s, len, e) then
      var n := Strtol(s, e + 18, 10);
      CloseExtension(s, n.end, length, Some(n.value))
    else if LacksIeof(s, len, e) then Bad
    else CloseExtension(s, e, length, None)
  }

  function CloseExtension(s: string, from: nat, length: nat, original: Option<int>): (d: Definition)
    requires from <= |s|
    ensures d.Bad? || d.OutOfRange? || (d.Last? && d.length == length)
  {
    var e := SeekCr(s, from);
    if e == |s| then OutOfRange else if At(s, e + 1) == '\n' then Last(length, true, original) else Bad
  }

  /** The definition at the start of `s`, of which `len` bytes have been received; the rest of `s` is whatever
      the buffer held before. The size is `strtol` cut to 32 bits. */
  function ReadDefinition(s: string, len: nat): (d: Definition)
    requires len <= |s|
    ensures d.NoLine? == (FindCrlf(s[..len]) < 0)
    ensures d.Chunk? ==> 0 < d.need < 0x1_0000_0000 && d.length == FindCrlf(s[..len]) + 2
    ensures d.Last? ==> FindCrlf(s[..len]) + 2 <= d.length <= FindCrlf(s[..len]) + 4 && d.length <= len
    ensures d.Awaiting? ==> len < FindCrlf(s[..len]) + 4
  {
    var k := FindCrlf(s[..len]);
    if k < 0 then NoLine
    else
      var number := Strtol(s, 0, 16);
      if number.end == 0 then Bad
      else ReadAfterSize(s, len, k, number.value % 0x1_0000_0000, SkipBlanks(s, number.end))
  }

  /** The same, once the line end `k`, the size and the position `e` behind it are known. The length of the chunk with
      its CRLF is an unsigned number, so that a size of 2^32-2 ends the body. */
  function ReadAfterSize(s: string, len: nat, k: nat, size: nat, e: nat): (d: Definition)
    requires k + 2 <= len <= |s| && e <= |s| && size < 0x1_0000_0000
    ensures !d.NoLine?
    ensures d.Chunk? ==> size > 0 && d.need == (size + 2) % 0x1_0000_0000 > 0 && d.length == k + 2
    ensures d.Last? ==> d.length == (if size == 0 then k + 4 else k + 2) <= len
    ensures d.Awaiting? ==> len < k + 4 && size == 0
  {
    if size == 0 then
      if len < k + 4 then Awaiting
      else if s[k + 2] != '\r' && s[k + 3] != '\n' then Bad
      else if At(s, e) == ';' then ReadExtension(s, len, e + 1, k + 4)
      else if At(s, e) == '\r' && At(s, e + 1) == '\n' then Last(k + 4, false, None)
      else Bad
    else if !(At(s, e) == '\r' && At(s, e + 1) == '\n') then Bad
    else if size == 0xffff_fffe then Last(k + 2, false, None)
    else Chunk((size + 2) % 0x1_0000_0000, k + 2)
  }

  /** A line on which every `strtol` call that matters finds something to look at before the CRLF. */
  predicate Clear(line: string) {
    IsLine(line) && SkipSpaces(line, 0) < |line| - 2 && (Extended(line) ==> ClearExtension(line, ExtensionAt(line)))
  }

  /** The line of a zero chunk with an extension. */
  predicate Extended(line: string) {
    var number := Strtol(line, 0, 16);
    number.end > 0 && number.value % 0x1_0000_0000 == 0 && At(line, SkipBlanks(line, number.end)) == ';'
  }

  function ExtensionAt(line: string): (from: nat)
    requires Extended(line)
    ensures from <= |line|
  {
    SkipBlanks(line, Strtol(line, 0, 16).end) + 1
  }

  predicate ClearExtension(line: string, from: nat)
    requires from <= |line|
  {
    var f := SkipBlanks(line, from);
    HasOriginal(line, |line|, f) ==> SkipSpaces(line, f + 18) < |line| - 2
  }

  /** A clear line and its closing bytes decide the definition: neither bytes that arrive later nor stale
      bytes in the buffer can change it. */
  lemma DefinitionSettled(line: string, tail: string, len: nat, c: nat)
    requires IsLine(line) && Clear(line) && |line| <= len <= |line| + |tail|
    requires c == if len < |line| + 2 then len - |line| else 2
    ensures ReadDefinition(line + tail, len) == ReadDefinition(line + tail[..c], |line| + c)
  {
    hide ReadDefinition, ReadAfterSize, Strtol, ClearExtension;
    LineHead(line, tail, len);
    LineHead(line, tail[..c], |line| + c);
    var number := Strtol(line, 0, 16);
    if number.end > 0 {
      AfterSizeSettled(line, tail, len, c, number.value % 0x1_0000_0000, SkipBlanks(line, number.end));
    }
  }

  /** What `ReadDefinition` knows about a stream that starts with a line that is not blank. */
  lemma LineHead(line: string, tail: string, len: nat)
    requires IsLine(line) && SkipSpaces(line, 0) < |line| - 2 && |line| <= len <= |line| + |tail|
    ensures var number := Strtol(line, 0, 16); var e := SkipBlanks(line, number.end);
            e <= |line| - 2 &&
            ReadDefinition(line + tail, len) ==
            if number.end == 0 then Bad
            else ReadAfterSize(line + tail, len, |line| - 2, number.value % 0x1_0000_0000, e)
  {
    CrlfStable(line, tail[..len - |line|]);
    assert (line + tail)[..len] == line + tail[..len - |line|];
    StrtolSettled(line, tail, 0, 16);
    BlanksStopAtCr(line, Strtol(line, 0, 16).end);
    BlanksSettled(line, tail, Strtol(line, 0, 16).end);
  }

  lemma AfterSizeSettled(line: string, tail: string, len: nat, c: nat, size: nat, e: nat)
    requires IsLine(line) && |line| <= len <= |line| + |tail| && e <= |line| - 2 && size < 0x1_0000_0000
    requires c == if len < |line| + 2 then len - |line| else 2
    requires size == 0 && line[e] == ';' ==> ClearExtension(line, e + 1)
    ensures ReadAfterSize(line + tail, len, |line| - 2, size, e)
         == ReadAfterSize(line + tail[..c], |line| + c, |line| - 2, size, e)
    ensures size == 0 ==> !ReadAfterSize(line + tail, len, |line| - 2, size, e).OutOfRange?
  {
    hide ReadExtension, ClearExtension, IsLine;
    LineEnds(line);
    var t, u := line + tail, line + tail[..c];
    assert At(t, e) == line[e] && At(u, e) == line[e];
    assert At(t, e + 1) == line[e + 1] && At(u, e + 1) == line[e + 1];
    if c == 2 {
      assert t[|line|] == tail[0] == u[|line|] && t[|line| + 1] == tail[1] == u[|line| + 1];
      if size == 0 && line[e] == ';' { ExtensionSettled(line, tail, len, e + 1); }
    }
  }

  lemma LineEnds(line: string)
    requires IsLine(line)
    ensures |line| >= 2 && line[|line| - 2] == '\r' && line[|line| - 1] == '\n'
  {
  }

  lemma BlanksStopAtCr(line: string, from: nat)
    requires IsLine(line) && from <= |line| - 2
    ensures SkipBlanks(line, from) <= |line| - 2
  {
    BlanksStop(line, from, |line| - 2);
  }

  lemma ExtensionSettled(line: string, tail: string, len: nat, from: nat)
    requires IsLine(line) && |line| + 2 <= len <= |line| + |tail| && from <= |line| - 2
    requires ClearExtension(line, from)
    ensures ReadExtension(line + tail, len, from, |line| + 2)
         == ReadExtension(line + tail[..2], |line| + 2, from, |line| + 2)
    ensures !ReadExtension(line + tail, len, from, |line| + 2).OutOfRange?
  {
    hide Strtol, HasOriginal, LacksIeof, IsLine, CloseExtension;
    var f := SkipBlanks(line, from);
    BlanksStopAtCr(line, from);
    BlanksSettled(line, tail, from);
    BlanksSettled(line, tail[..2], from);
    KeywordSettled(line, tail, len, f);
    KeywordSettled(line, tail[..2], |line| + 2, f);
    IeofSettled(line, tail, len, f);
    if HasOriginal(line, |line|, f) {
      StrtolSettled(line, tail, f + 18, 10);
      StrtolSettled(line, tail[..2], f + 18, 10);
      var n := Strtol(line, f + 18, 10);
      CloseSettled(line, tail, n.end, Some(n.value));
    } else {
      CloseSettled(line, tail, f, None);
    }
  }

  lemma KeywordSettled(line: string, tail: string, len: nat, f: nat)
    requires IsLine(line) && |line| <= len <= |line| + |tail| && f <= |line| - 2
    ensures HasOriginal(line + tail, len, f) == HasOriginal(line, |line|, f)
    ensures HasOriginal(line, |line|, f) ==> f + 18 <= |line| - 2
  {
    var t, n := line + tail, |line| - 2;
    assert t[n] == line[n] == '\r';
    if f + 18 <= len {
      assert n < f + 18 ==> t[f..f + 18][n - f] == '\r';
      assert f + 18 <= |line| ==> t[f..f + 18] == line[f..f + 18];
    }
  }

  lemma IeofSettled(line: string, tail: string, len: nat, f: nat)
    requires IsLine(line) && |line| + 2 <= len <= |line| + |tail| && f <= |line| - 2
    ensures LacksIeof(line + tail, len, f) == LacksIeof(line + tail[..2], |line| + 2, f)
  {
    assert (line + tail)[f..f + 4] == (line + tail[..2])[f..f + 4];
  }

  lemma CloseSettled(line: string, tail: string, from: nat, original: Option<int>)
    requires IsLine(line) && |tail| >= 2 && from <= |line| - 2
    ensures CloseExtension(line + tail, from, |line| + 2, original)
         == CloseExtension(line + tail[..2], from, |line| + 2, original)
    ensures !CloseExtension(line + tail, from, |line| + 2, original).OutOfRange?
  {
    SeekCrSettled(line, tail, from, |line| - 2);
    SeekCrSettled(line, tail[..2], from, |line| - 2);
  }

  lemma SeekCrSettled(line: string, more: string, from: nat, stop: nat)
    requires from <= stop < |line| && line[stop] == '\r'
    ensures SeekCr(line + more, from) == SeekCr(line, from) <= stop
    decreases stop - from
  {
    if line[from] != '\r' { SeekCrSettled(line, more, from + 1, stop); }
  }

  /** The same definition is read from a partly received stream (stale bytes behind what has been seen) as from
      the whole stream, unless it is a zero chunk whose closing CRLF is still under way. */
  lemma DefinitionAgrees(line: string, seen: string, stale: string, more: string)
    requires Clear(line)
    ensures var early := ReadDefinition(line + seen + stale, |line + seen|);
            var whole := ReadDefinition(line + seen + more, |line + seen + more|);
            early == whole
            || (early == Awaiting && |seen| < 2 && (whole.Bad? || (whole.Last? && whole.length == |line| + 2)))
  {
    hide ReadDefinition, Clear;
    ClearIsLine(line);
    assert line + seen + stale == line + (seen + stale) && line + seen + more == line + (seen + more);
    if |seen| >= 2 {
      DefinitionSettled(line, seen + stale, |line + seen|, 2);
      DefinitionSettled(line, seen + more, |line + seen + more|, 2);
      assert (seen + stale)[..2] == (seen + more)[..2];
    } else {
      ShortDefinition(line, seen + stale, |line + seen|, seen + more, |line + seen + more|);
    }
  }

  lemma ClearIsLine(line: string)
    requires Clear(line)
    ensures IsLine(line)
  {
  }

  lemma ShortDefinition(line: string, a: string, lenA: nat, b: string, lenB: nat)
    requires Clear(line) && |line| <= lenA < |line| + 2 && lenA <= |line| + |a| && |line| <= lenB <= |line| + |b|
    ensures ReadDefinition(line + a, lenA) == ReadDefinition(line + b, lenB)
         || (ReadDefinition(line + a, lenA) == Awaiting
             && var d := ReadDefinition(line + b, lenB); d.Bad? || (d.Last? && d.length == |line| + 2))
  {
    hide ReadDefinition, ReadExtension, Strtol, ClearExtension;
    LineHead(line, a, lenA);
    LineHead(line, b, lenB);
    var number := Strtol(line, 0, 16);
    var e := SkipBlanks(line, number.end);
    assert (line + a)[e] == (line + b)[e] && (line + a)[e + 1] == (line + b)[e + 1];
    var c := if lenB < |line| + 2 then lenB - |line| else 2;
    if number.end > 0 { AfterSizeSettled(line, b, lenB, c, number.value % 0x1_0000_0000, e); }
  }

  // ----- the condition is exact

  /** Behind the received bytes `line + seen` the buffer holds whatever it held before, and that does not matter. */
  predicate Same(line: string, seen: string, a: string, b: string) {
    ReadDefinition(line + seen + a, |line + seen|) == ReadDefinition(line + seen + b, |line + seen|)
  }

  ghost predicate Independent(line: string) {
    forall seen, a, b :: Same(line, seen, a, b)
  }

  /** The clear lines are exactly those whose definition does not depend on stale bytes. */
  lemma ClearExactly(line: string)
    requires IsLine(line)
    ensures Clear(line) <==> Independent(line)
  {
    hide Clear, Same;
    if Clear(line) {
      forall seen, a, b ensures Same(line, seen, a, b) { ClearIsIndependent(line, seen, a, b); }
    } else {
      UnclearDepends(line);
    }
  }

  lemma ClearIsIndependent(line: string, seen: string, a: string, b: string)
    requires IsLine(line) && Clear(line)
    ensures Same(line, seen, a, b)
  {
    hide ReadDefinition, Clear;
    var c := if |seen| < 2 then |seen| else 2;
    assert line + seen + a == line + (seen + a) && line + seen + b == line + (seen + b);
    DefinitionSettled(line, seen + a, |line + seen|, c);
    DefinitionSettled(line, seen + b, |line + seen|, c);
    assert (seen + a)[..c] == (seen + b)[..c];
  }

  lemma UnclearDepends(line: string)
    requires IsLine(line) && !Clear(line)
    ensures exists seen, a, b :: !Same(line, seen, a, b)
  {
    hide ReadDefinition, ClearExtension, Strtol;
    if SkipSpaces(line, 0) >= |line| - 2 {
      BlankLine(line);
      assert !Same(line, "", "5\r\n", "z\r\n");
    } else {
      BlankOffset(line);
      assert !Same(line, "\r\n", "5\r\n", "z\r\n");
    }
  }

  /** A blank size line: the size is looked for behind it. */
  lemma BlankLine(line: string)
    requires IsLine(line) && SkipSpaces(line, 0) >= |line| - 2
    ensures ReadDefinition(line + "" + "5\r\n", |line + ""|) == Chunk(7, |line|)
    ensures ReadDefinition(line + "" + "z\r\n", |line + ""|) == Bad
  {
    hide ReadDefinition, SkipSpaces, IsLine;
    assert line + "" == line;
    var s, t := line + "5\r\n", line + "z\r\n";
    SpacesGoOn(line, "5\r\n", 0);
    SpacesGoOn(line, "z\r\n", 0);
    FirstIsNoSpace("5\r\n");
    FirstIsNoSpace("z\r\n");
    FiveThere(s, 0, |line|, 16);
    NoDigitsThere(t, 0, |line|, 16);
    BlankReads(line, "5\r\n");
    BlankReads(line, "z\r\n");
  }

  lemma FirstIsNoSpace(s: string)
    requires s != "" && !IsSpace(s[0])
    ensures SkipSpaces(s, 0) == 0
  {
  }

  lemma BlankReads(line: string, stale: string)
    requires IsLine(line) && |stale| == 3 && stale[1] == '\r' && stale[2] == '\n'
    requires Strtol(line + stale, 0, 16) == Number(5, |line| + 1) || Strtol(line + stale, 0, 16) == Number(0, 0)
    ensures ReadDefinition(line + stale, |line|)
         == if Strtol(line + stale, 0, 16).end == 0 then Bad else Chunk(7, |line|)
  {
    hide Strtol;
    var s, n := line + stale, |line|;
    assert s[..n] == line && s[n + 1] == '\r' && s[n + 2] == '\n';
    assert SkipBlanks(s, n + 1) == n + 1;
  }

  /** A blank offset: it is looked for behind the closing CRLF. */
  lemma BlankOffset(line: string)
    requires IsLine(line) && !Clear(line) && SkipSpaces(line, 0) < |line| - 2
    ensures var d := ReadDefinition(line + "\r\n" + "5\r\n", |line + "\r\n"|); d.Last? && d.original == Some(5)
    ensures var d := ReadDefinition(line + "\r\n" + "z\r\n", |line + "\r\n"|); d.Last? ==> d.original == Some(0)
  {
    hide ReadDefinition, ReadExtension, Strtol, ClearExtension;
    var from := ExtensionAt(line);
    ExtensionFollows(line, "5\r\n");
    ExtensionFollows(line, "z\r\n");
    OffsetBehind(line, from, "5\r\n");
    OffsetBehind(line, from, "z\r\n");
  }

  lemma ExtensionFollows(line: string, stale: string)
    requires IsLine(line) && Extended(line) && SkipSpaces(line, 0) < |line| - 2
    ensures ExtensionAt(line) <= |line| - 2
    ensures ReadDefinition(line + "\r\n" + stale, |line + "\r\n"|)
         == ReadExtension(line + ("\r\n" + stale), |line| + 2, ExtensionAt(line), |line| + 2)
  {
    hide ReadDefinition, ReadExtension, Strtol;
    var tail, e := "\r\n" + stale, ExtensionAt(line) - 1;
    assert line + "\r\n" + stale == line + tail && |line + "\r\n"| == |line| + 2;
    BlanksStopAtCr(line, Strtol(line, 0, 16).end);
    LineHead(line, tail, |line| + 2);
    assert (line + tail)[e] == line[e] == ';' && (line + tail)[|line|] == '\r';
  }

  lemma OffsetBehind(line: string, from: nat, stale: string)
    requires IsLine(line) && from <= |line| - 2 && !ClearExtension(line, from) && (stale == "5\r\n" || stale == "z\r\n")
    ensures var d := ReadExtension(line + ("\r\n" + stale), |line| + 2, from, |line| + 2);
            if stale[0] == '5' then d == Last(|line| + 2, true, Some(5)) else d.Last? ==> d.original == Some(0)
  {
    hide Strtol, HasOriginal;
    var tail, n := "\r\n" + stale, |line| + 2;
    var s, f := line + tail, SkipBlanks(line, from);
    BlanksStopAtCr(line, from);
    BlanksSettled(line, tail, from);
    KeywordSettled(line, tail, n, f);
    SpacesGoOn(line, tail, f + 18);
    assert tail[2] == stale[0] && SkipSpaces(tail, 2) == 2 && SkipSpaces(tail, 1) == 2;
    assert s[n] == stale[0] && s[n + 1] == '\r' && s[n + 2] == '\n';
    if stale[0] == '5' {
      FiveThere(s, f + 18, n, 10);
      assert SeekCr(s, n + 1) == n + 1;
    } else {
      NoDigitsThere(s, f + 18, n, 10);
    }
  }

  lemma SpacesGoOn(line: string, tail: string, from: nat)
    requires IsLine(line) && from <= |line| && SkipSpaces(line, from) >= |line| - 2
    ensures SkipSpaces(line + tail, from) == |line| + SkipSpaces(tail, 0)
    decreases |line| - from
  {
    var s := line + tail;
    assert line[|line| - 2] == '\r' && line[|line| - 1] == '\n';
    if from == |line| {
      SpacesBehind(line, tail, 0);
    } else {
      assert s[from] == line[from];
      SpacesGoOn(line, tail, from + 1);
    }
  }

  lemma SpacesBehind(line: string, tail: string, i: nat)
    requires i <= |tail|
    ensures SkipSpaces(line + tail, |line| + i) == |line| + SkipSpaces(tail, i)
    decreases |tail| - i
  {
    if i < |tail| && IsSpace(tail[i]) { SpacesBehind(line, tail, i + 1); }
  }

  lemma FiveThere(s: string, from: nat, p: nat, base: Base)
    requires from <= |s| && SkipSpaces(s, from) == p && p + 1 < |s| && s[p] == '5' && s[p + 1] == '\r'
    ensures Strtol(s, from, base) == Number(5, p + 1)
  {
    assert ScanDigits(s, p + 1, base) == p + 1;
    assert s[p..p + 1] == "5" && "5"[..0] == "";
    assert Value("5", base) == Times(Value("", base), base) + 5;
  }

  lemma NoDigitsThere(s: string, from: nat, p: nat, base: Base)
    requires from <= |s| && SkipSpaces(s, from) == p && p < |s| && s[p] == 'z'
    ensures Strtol(s, from, base) == Number(0, from)
  {
  }

  // ----- the meaning of a stream

  /** What a stream means as the rest of a chunked body, and the payload up to there. `Unclear` streams contain a
      line that is not clear or a size that makes the parser go back; nothing is promised about them. */
  datatype Outcome =
    | Done(payload: string, extension: bool, original: Option<int>, rest: string)
    | Malformed(payload: string)
    | Incomplete(payload: string)
    | Unclear(payload: string)

  function Prefixed(payload: string, o: Outcome): Outcome {
    o.(payload := payload + o.payload)
  }

  /** The data bytes among the next `need` bytes: all but the closing CRLF. */
  function DataPart(need: nat): nat {
    if need > 2 then need - 2 else 0
  }

  /** One definition: either it settles the outcome, or `need` bytes of a chunk follow its `length` bytes. */
  datatype Step = Stop(outcome: Outcome) | Go(need: nat, length: nat)

  /** A definition that does not fit the buffer is an error. */
  function Define(s: string): (r: Step)
    ensures r.Go? ==> 0 < r.need && 2 <= r.length <= |s|
    ensures r.Stop? ==> r.outcome.payload == ""
  {
    var k := FindCrlf(s);
    if k < 0 then Stop(if |s| >= BUFSIZE then Malformed("") else Incomplete(""))
    else if k + 2 > BUFSIZE then Stop(Malformed(""))
    else if !Clear(s[..k + 2]) then Stop(Unclear(""))
    else
      assert s[..|s|] == s;
      match ReadDefinition(s, |s|)
      case Bad => Stop(Malformed(""))
      case Awaiting => Stop(if k + 4 > BUFSIZE then Malformed("") else Incomplete(""))
      case Chunk(need, length) => Go(need, length)
      case Last(length, extension, original) =>
        Stop(if length > BUFSIZE then Malformed("") else Done("", extension, original, s[length..]))
      case _ => Stop(Unclear(""))
  }

  /** The data bytes among the first bytes of a chunk that has not arrived in full. */
  function Begun(need: nat, s: string): string {
    if |s| <= DataPart(need) then s else s[..DataPart(need)]
  }

  /** From this length on, the number of bytes to come is negative for the parser. */
  const BACKWARD: nat := 0x8000_0000

  /** The meaning of `s` when `need` bytes of the current chunk, its closing CRLF included, are still to come. */
  function Decode(need: nat, s: string): Outcome
    decreases |s|
  {
    if need >= BACKWARD then Unclear("")
    else if need > 0 then
      if |s| < need then Incomplete(Begun(need, s))
      else Prefixed(s[..DataPart(need)], Decode(0, s[need..]))
    else match Define(s)
      case Stop(outcome) => outcome
      case Go(next, length) => Decode(next, s[length..])
  }

  lemma DecodeDefined(s: string)
    ensures var d := Define(s); Decode(0, s) == if d.Stop? then d.outcome else Decode(d.need, s[d.length..])
  {
  }

  lemma DecodeChunk(need: nat, s: string)
    requires 0 < need < BACKWARD && need <= |s|
    ensures Decode(need, s) == Prefixed(s[..DataPart(need)], Decode(0, s[need..]))
  {
  }

  /** The definition at the start of `s` is the one that a longer stream starts with. */
  lemma DefinitionStable(s: string, more: string)
    requires FindCrlf(s) >= 0 && Clear(s[..FindCrlf(s) + 2])
    ensures var early := ReadDefinition(s, |s|);
            var whole := ReadDefinition(s + more, |s + more|);
            early == whole
            || (early == Awaiting && (whole.Bad? || (whole.Last? && whole.length == FindCrlf(s) + 4)))
  {
    var k := FindCrlf(s);
    assert s == s[..k + 2] + s[k + 2..] + "" && s + more == s[..k + 2] + s[k + 2..] + more;
    DefinitionAgrees(s[..k + 2], s[k + 2..], "", more);
  }

  /** What an outcome becomes when `more` bytes turn out to follow: an incomplete stream may become anything, but
      never takes back its payload. */
  predicate Extends(early: Outcome, late: Outcome, more: string) {
    if early.Incomplete? then early.payload <= late.payload
    else late == if early.Done? then early.(rest := early.rest + more) else early
  }

  lemma DefineStable(s: string, more: string)
    ensures var early, late := Define(s), Define(s + more);
            if early.Stop? then early.outcome.Incomplete? || (late.Stop? && Extends(early.outcome, late.outcome, more))
            else late == early
  {
    hide ReadDefinition, Clear;
    var k, t := FindCrlf(s), s + more;
    if k < 0 {
      LateCrlf(s, more);
    } else {
      CrlfStable(s, more);
      assert t[..k + 2] == s[..k + 2] && t[..|t|] == t && s[..|s|] == s;
      if Clear(s[..k + 2]) {
        DefinitionStable(s, more);
        var d := ReadDefinition(s, |s|);
        assert d.Last? ==> t[d.length..] == s[d.length..] + more;
      }
    }
  }

  /** A verdict on the bytes received so far is final. */
  lemma {:induction false} DecodeStable(need: nat, s: string, more: string)
    ensures Extends(Decode(need, s), Decode(need, s + more), more)
    decreases |s|
  {
    hide Define;
    var t := s + more;
    if need > 0 {
      if |s| >= need {
        DecodeStable(0, s[need..], more);
        assert t[need..] == s[need..] + more;
        assert t[..DataPart(need)] == s[..DataPart(need)];
      }
    } else {
      DefineStable(s, more);
      var d := Define(s);
      if d.Go? {
        DecodeStable(d.need, s[d.length..], more);
        assert t[d.length..] == s[d.length..] + more;
      }
    }
  }

  lemma LineAt(s: string)
    requires FindCrlf(s) >= 0
    ensures IsLine(s[..FindCrlf(s) + 2])
  {
    var k := FindCrlf(s);
    LineAtFrom(s, k, 0);
  }

  lemma LineAtFrom(s: string, k: nat, from: nat)
    requires FindCrlfFrom(s, from) == k
    ensures FindCrlfFrom(s[..k + 2], from) == k
    decreases |s| - from
  {
    if from < k { LineAtFrom(s, k, from + 1); }
  }

  /** With no CRLF among the bytes received, the first one can only end behind them. */
  lemma LateCrlf(s: string, more: string)
    requires FindCrlf(s) < 0
    ensures var k := FindCrlf(s + more); k >= 0 ==> k + 2 > |s|
  {
    var k := FindCrlf(s + more);
    if 0 <= k && k + 2 <= |s| {
      assert CrlfAt(s, k);
      FirstCrlf(s, 0, k);
    }
  }

  /** The bytes behind the body have no say in it. */
  lemma {:induction false} DecodeLocal(need: nat, s: string)
    requires Decode(need, s).Done?
    ensures var o := Decode(need, s);
            |o.rest| <= |s| && Decode(need, s[..|s| - |o.rest|]) == o.(rest := "")
    decreases |s|
  {
    hide Define;
    var o := Decode(need, s);
    if need > 0 {
      DecodeLocal(0, s[need..]);
      var t := s[..|s| - |o.rest|];
      assert t[need..] == s[need..][..|s[need..]| - |o.rest|];
      assert t[..DataPart(need)] == s[..DataPart(need)];
    } else {
      var d := Define(s);
      if d.Go? {
        DecodeLocal(d.need, s[d.length..]);
        var t := s[..|s| - |o.rest|];
        assert t[d.length..] == s[d.length..][..|s[d.length..]| - |o.rest|];
        DefineLocal(s, |t|);
      } else {
        DefineEnds(s);
        DefineLocal(s, |s| - |o.rest|);
      }
    }
  }

  /** A definition is read the same from any prefix that contains it. */
  lemma DefineLocal(s: string, n: nat)
    requires n <= |s|
    requires var d := Define(s); (d.Go? && d.length <= n) || (d.Stop? && d.outcome.Done? && |s| - |d.outcome.rest| <= n)
    ensures var d := Define(s);
            Define(s[..n]) == if d.Go? then d else Stop(d.outcome.(rest := s[|s| - |d.outcome.rest|..n]))
  {
    hide ReadDefinition, Clear, FindCrlf, IsLine;
    var t, k := s[..n], FindCrlf(s);
    assert s == t + s[n..] && s[..|s|] == s;
    DefineEnds(s);
    assert k + 2 <= n;
    CrlfInPrefix(s, n);
    assert t[..k + 2] == s[..k + 2] && t[..|t|] == t;
    DefinitionStable(t, s[n..]);
  }

  lemma CrlfInPrefix(s: string, n: nat)
    requires 0 <= FindCrlf(s) && FindCrlf(s) + 2 <= n <= |s|
    ensures FindCrlf(s[..n]) == FindCrlf(s)
  {
    var t, k := s[..n], FindCrlf(s);
    LineAt(s);
    assert t == s[..k + 2] + t[k + 2..];
    CrlfStable(s[..k + 2], t[k + 2..]);
  }

  lemma DefineEnds(s: string)
    ensures var d := Define(s); d.Stop? && d.outcome.Done? ==>
              && FindCrlf(s) >= 0 && d.outcome.payload == "" && FindCrlf(s) + 2 <= |s| - |d.outcome.rest|
              && d.outcome.rest == s[|s| - |d.outcome.rest|..]
    ensures var d := Define(s); d.Go? ==> FindCrlf(s) >= 0 && d.length == FindCrlf(s) + 2
  {
    hide ReadDefinition, Clear;
    assert s[..|s|] == s;
  }

  /** However much of a stream has been read when its body ends, the payload, the extension and the place in the
      stream where the body ends are the same. */
  lemma PrefixesAgree(stream: string, a: nat, b: nat)
    requires a <= |stream| && b <= |stream|
    requires Decode(0, stream[..a]).Done? && Decode(0, stream[..b]).Done?
    ensures var x, y := Decode(0, stream[..a]), Decode(0, stream[..b]);
            && x.payload == y.payload && x.extension == y.extension && x.original == y.original
            && a - |x.rest| == b - |y.rest|
  {
    hide Decode;
    DecodeStable(0, stream[..a], stream[a..]);
    DecodeStable(0, stream[..b], stream[b..]);
    assert stream[..a] + stream[a..] == stream == stream[..b] + stream[b..];
  }

  /** A run cannot miss the end: it is found exactly when the last byte of the body has arrived. */
  lemma FoundExactly(stream: string, n: nat)
    requires n <= |stream| && Decode(0, stream).Done?
    ensures Decode(0, stream[..n]).Done? <==> n >= |stream| - |Decode(0, stream).rest|
  {
    hide Decode;
    var o := Decode(0, stream);
    DecodeLocal(0, stream);
    var end := |stream| - |o.rest|;
    assert stream[..n] + stream[n..] == stream;
    DecodeStable(0, stream[..n], stream[n..]);
    if n >= end {
      assert stream[..end] + stream[end..n] == stream[..n];
      DecodeStable(0, stream[..end], stream[end..n]);
    }
  }
}
