/** Sender and receiver together: what the service produces is what the peer's `parse_chunk_data` hands out. */
module EndToEnd {
  import opened Common
  import opened Text
  import opened ChunkDecoder
  import opened ChunkReader
  import S = ResponseSender

  /** A service that produces `blocks` and then ends the body. */
  function Script(blocks: seq<string>): seq<S.Io> {
    if blocks == [] then [S.Eof] else [S.Data(blocks[0])] + Script(blocks[1..])
  }

  predicate Sendable(blocks: seq<string>) {
    forall i :: 0 <= i < |blocks| ==> 0 < |blocks[i]| <= S.MAX_CHUNK_SIZE
  }

  // ----- lines

  lemma PrintedIsPlain(c: char, base: Base)
    requires IsPrinted(c, base)
    ensures c != '\r' && IsDigit(c, base) && !IsSpace(c) && !IsBlank(c)
  {
  }

  /** A size line is a clear line that announces its size. */
  lemma SizeLine(n: nat)
    requires 0 < n <= S.MAX_CHUNK_SIZE
    ensures var line := Digits(n, 16) + CRLF;
            && |line| <= 5 && Clear(line) && Strtol(line, 0, 16) == Number(n, |line| - 2)
            && SkipBlanks(line, |line| - 2) == |line| - 2
  {
    var ds := Digits(n, 16);
    var line, k := ds + CRLF, |ds|;
    assert Power(16, 3) == 4096;
    DigitsLength(n, 16, 3);
    forall i | 0 <= i < k ensures line[i] != '\r' && !IsSpace(line[i]) {
      assert line[i] == ds[i];
      PrintedIsPlain(ds[i], 16);
    }
    CrlfBehind(line, 0, k);
    assert line[0..k] == ds;
    StrtolOfDigits(line, 0, n, 16);
    assert SkipBlanks(line, k) == k;
  }

  /** What follows a clear size line is its chunk. */
  lemma SizeLineDefines(n: nat, rest: string)
    requires 0 < n <= S.MAX_CHUNK_SIZE
    ensures var line := Digits(n, 16) + CRLF;
            Define(line + rest) == Go(n + 2, |line|)
  {
    hide Clear, Digits, Strtol;
    var line := Digits(n, 16) + CRLF;
    var s, k := line + rest, |line| - 2;
    SizeLine(n);
    ClearIsLine(line);
    CrlfStable(line, rest);
    assert s[..k + 2] == line && s[..|s|] == s;
    LineHead(line, rest, |s|);
    assert s[k] == '\r' && s[k + 1] == '\n';
  }

  lemma ChunkDecodes(data: string, rest: string)
    requires 0 < |data| <= S.MAX_CHUNK_SIZE
    ensures Decode(0, S.Chunk(data) + rest) == Prefixed(data, Decode(0, rest))
  {
    hide Define;
    var line := Digits(|data|, 16) + CRLF;
    var s, body := S.Chunk(data) + rest, data + CRLF + rest;
    assert s == line + body;
    SizeLineDefines(|data|, body);
    assert s[|line|..] == body;
    assert body[..|data|] == data && body[|data| + 2..] == rest;
  }

  /** The plain zero chunk ends the body without an extension. */
  lemma PlainEnd(rest: string)
    ensures Define("0\r\n\r\n" + rest) == Stop(Done("", false, None, rest))
  {
    var s, line := "0\r\n\r\n" + rest, "0\r\n";
    CrlfBehind(line, 0, 1);
    CrlfBehind(s, 0, 1);
    assert s[..3] == line && s[..|s|] == s && s[5..] == rest;
    StrtolOfZero(line);
    StrtolOfZero(s);
    hide Strtol;
    assert SkipBlanks(line, 1) == 1 && SkipBlanks(s, 1) == 1;
  }

  lemma OriginalLineEnds(n: nat)
    requires n <= LONG_MAX
    ensures var line := "0; use-original-body=" + Digits(n, 10) + CRLF;
            |line| <= 64 && IsLine(line)
  {
    hide Digits;
    var ds := Digits(n, 10);
    var front := "0; use-original-body=";
    var line := front + ds + CRLF;
    assert |front| == 21;
    S.TerminatorFits(true, n);
    assert forall i :: 0 <= i < 21 ==> front[i] != '\r';
    forall i | 0 <= i < |line| - 2 ensures line[i] != '\r' {
      if i >= 21 { assert line[i] == ds[i - 21]; PrintedIsPlain(ds[i - 21], 10); } else { assert line[i] == front[i]; }
    }
    CrlfBehind(line, 0, |line| - 2);
  }

  /** The zero chunk of a 206 answer. */
  lemma OriginalLine(n: nat)
    requires n <= LONG_MAX
    ensures var line := "0; use-original-body=" + Digits(n, 10) + CRLF;
            && |line| <= 64 && IsLine(line) && Strtol(line, 0, 16) == Number(0, 1)
            && Strtol(line, 21, 10) == Number(n, |line| - 2) && SkipSpaces(line, 21) == 21
  {
    OriginalLineEnds(n);
    hide IsLine, Digits, Strtol;
    var ds := Digits(n, 10);
    var line := "0; use-original-body=" + ds + CRLF;
    assert line[21..21 + |ds|] == ds;
    StrtolOfDigits(line, 21, n, 10);
    StrtolOfZero(line);
    assert line[21] == ds[0];
    PrintedIsPlain(ds[0], 10);
  }

  lemma StrtolOfZero(line: string)
    requires |line| > 1 && line[0] == '0' && (line[1] == ';' || line[1] == '\r')
    ensures Strtol(line, 0, 16) == Number(0, 1)
  {
    assert Digits(0, 16) == "0" && line[0..1] == "0";
    StrtolOfDigits(line, 0, 0, 16);
  }

  lemma OriginalKeyword(line: string, n: nat)
    requires n <= LONG_MAX && line == "0; use-original-body=" + Digits(n, 10) + CRLF
    ensures |line| > 23 && line[1] == ';' && SkipBlanks(line, 1) == 1 && SkipBlanks(line, 2) == 3
    ensures HasOriginal(line, |line|, 3) && line[|line| - 2] == '\r' && line[|line| - 1] == '\n'
  {
    hide Digits;
    var front := "0; use-original-body=";
    assert |front| == 21 && front[3..21] == USE_ORIGINAL && front[3] == 'u';
    assert line[..21] == front && line[3..21] == line[..21][3..21];
  }

  /** The extension of the 206 zero chunk carries the offset. */
  lemma OriginalExtension(line: string, n: nat, tail: string)
    requires n <= LONG_MAX && line == "0; use-original-body=" + Digits(n, 10) + CRLF && |tail| >= 2
    ensures Clear(line)
    ensures ReadExtension(line + tail, |line + tail|, 2, |line| + 2) == Last(|line| + 2, true, Some(n))
  {
    hide Digits, Strtol, IsLine, HasOriginal, LacksIeof;
    OriginalLine(n);
    OriginalKeyword(line, n);
    assert IsLine(line) && SkipSpaces(line, 0) == 0;
    BlanksSettled(line, tail, 2);
    KeywordSettled(line, tail, |line + tail|, 3);
    StrtolSettled(line, tail, 21, 10);
    assert (line + tail)[|line| - 2] == '\r' && (line + tail)[|line| - 1] == '\n';
  }

  lemma OriginalEnd(n: nat, rest: string)
    requires n <= LONG_MAX
    ensures Define(S.Terminator(true, n) + rest) == Stop(Done("", true, Some(n), rest))
  {
    hide Digits, Strtol, IsLine, Clear, ReadExtension;
    var line := "0; use-original-body=" + Digits(n, 10) + CRLF;
    var tail := CRLF + rest;
    var s := line + tail;
    assert S.Terminator(true, n) + rest == s;
    OriginalLine(n);
    OriginalKeyword(line, n);
    OriginalExtension(line, n, tail);
    ClearIsLine(line);
    LineCrlf(line, tail);
    assert s[..|line|] == line && s[..|s|] == s && s[|line| + 2..] == rest;
    LineHead(line, tail, |s|);
    assert s[1] == ';' && s[|line|] == '\r';
  }

  lemma EndDecodes(partial: bool, original: int, rest: string)
    requires original <= LONG_MAX
    ensures var ext := partial && original >= 0;
            Decode(0, S.Terminator(partial, original) + rest)
            == Done("", ext, if ext then Some(original) else None, rest)
  {
    hide Define;
    if partial && original >= 0 { OriginalEnd(original, rest); } else { PlainEnd(rest); }
  }

  /** Decode after encode: the body on the wire means the concatenated blocks, and it ends where it ends. */
  lemma {:induction false} BodyDecodes(blocks: seq<string>, partial: bool, original: int, rest: string)
    requires Sendable(blocks) && original <= LONG_MAX
    ensures var ext := partial && original >= 0;
            Decode(0, S.BodyWire(Script(blocks), S.Terminator(partial, original)) + rest)
            == Done(Concat(blocks), ext, if ext then Some(original) else None, rest)
  {
    hide Decode, S.Terminator, S.Chunk;
    var last := S.Terminator(partial, original);
    if blocks == [] {
      EndDecodes(partial, original, rest);
    } else {
      var tail := S.BodyWire(Script(blocks[1..]), last) + rest;
      BodyDecodes(blocks[1..], partial, original, rest);
      assert Script(blocks)[1..] == Script(blocks[1..]);
      assert S.BodyWire(Script(blocks), last) + rest == S.Chunk(blocks[0]) + tail;
      ChunkDecodes(blocks[0], tail);
    }
  }

  lemma {:induction false} ScriptFits(blocks: seq<string>)
    requires Sendable(blocks)
    ensures (forall i :: 0 <= i < |Script(blocks)| ==> S.FitsChunk(Script(blocks)[i])) && S.NeverFails(Script(blocks))
  {
    if blocks != [] { ScriptFits(blocks[1..]); }
  }

  /** Until its last byte has arrived, a whole body looks incomplete, with some of the payload; then it is the body. */
  lemma PrefixVerdict(wire: string, n: nat)
    requires n <= |wire| && Decode(0, wire).Done? && Decode(0, wire).rest == ""
    ensures if n == |wire| then wire[..n] == wire
            else Decode(0, wire[..n]).Incomplete? && Decode(0, wire[..n]).payload <= Decode(0, wire).payload
  {
    hide Decode;
    FoundExactly(wire, n);
    PrefixOfDone(wire, n);
  }

  /** The body as it should go over the wire. */
  function Encoded(blocks: seq<string>, partial: bool, original: int): string {
    S.BodyWire(Script(blocks), S.Terminator(partial, original))
  }

  /** The sender's half of a transfer: a response that is nothing but a body. */
  method Send(blocks: seq<string>, partial: bool, original: int, writes: seq<int>)
    returns (complete: bool, wire: string)
    requires Sendable(blocks) && original <= LONG_MAX
    ensures wire <= Encoded(blocks, partial, original)
    ensures complete ==> wire == Encoded(blocks, partial, original)
    ensures Enough(writes, |Encoded(blocks, partial, original)|) ==> complete
  {
    hide S.BodyWire, S.Terminator;
    ScriptFits(blocks);
    var sender := new S.Sender("", [S.Entity(ResBody, "")], false, partial, original);
    assert sender.Pending() == "" && sender.Queued() == "" && sender.BodyComes() && !S.Stuck(sender.Carried());
    assert sender.Pending() + sender.Behind(Script(blocks)) == Encoded(blocks, partial, original);
    var r := sender.SendRemaining(Script(blocks), writes);
    complete, wire := r == S.CI_OK, sender.sent;
  }

  /** A whole transfer. The sender writes its body with any schedule of partial writes, and the receiver reads what
      was sent with any schedule of its own. The receiver never gets anything but a part of what the service
      produced; it gets all of it, the offset and the end as soon as the last byte has arrived; and enough writes and
      reads make it so. */
  method Transfer(blocks: seq<string>, partial: bool, original: int, writes: seq<int>, schedule: seq<int>)
    returns (complete: bool, wire: string, r: Status, received: string, consumed: nat, offset: int)
    requires Sendable(blocks) && original <= LONG_MAX
    ensures wire <= Encoded(blocks, partial, original) && consumed <= |wire| && received <= Concat(blocks)
    ensures r == Eof <==> consumed == |Encoded(blocks, partial, original)|
    ensures r == Eof || r == NeedsMore || (r == Failed && !NoFailure(schedule))
    ensures r == Eof ==> received == Concat(blocks) && offset == if partial && original >= 0 then original else -1
    ensures var length := |Encoded(blocks, partial, original)|;
            Enough(writes, length) && Enough(schedule, length) ==> complete && r == Eof
  {
    hide Decode, Encoded, Advances;
    ghost var whole := Encoded(blocks, partial, original);
    complete, wire := Send(blocks, partial, original, writes);
    WholeDecodes(blocks, partial, original);
    var reader := new Reader();
    r, received, consumed := reader.ReadBody(wire, schedule);
    assert wire[..consumed] == whole[..consumed];
    PrefixVerdict(whole, consumed);
    offset := reader.originalBody;
  }

  lemma WholeDecodes(blocks: seq<string>, partial: bool, original: int)
    requires Sendable(blocks) && original <= LONG_MAX
    ensures var ext := partial && original >= 0;
            Decode(0, Encoded(blocks, partial, original))
            == Done(Concat(blocks), ext, if ext then Some(original) else None, "")
  {
    hide Decode, S.BodyWire, S.Terminator;
    BodyDecodes(blocks, partial, original, "");
    assert Encoded(blocks, partial, original) + "" == Encoded(blocks, partial, original);
  }
}
