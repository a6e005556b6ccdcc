/** `parse_chunk_data` and `net_data_read` as the request struct runs them, and the loop that drives them. */
module ChunkReader {
  import opened Common
  import opened Text
  import opened ChunkDecoder

  /** What `parse_chunk_data` and the loops around it answer. `Failed` is the error of a connection that cannot be
      read. `Back` stands for a parser that goes on with bytes it has read before, `Lost` for one that leaves its
      buffer. */
  datatype Status = Ok | NeedsMore | Eof | Error | Failed | Back | Lost

  // ----- what one piece of parsing means for every continuation of the stream

  predicate Matches(o: Outcome, expected: Outcome) {
    o == expected || o.Unclear?
  }

  /** Whatever bytes follow, delivering `got` is what separates the two parser states. */
  ghost predicate Advances(need: nat, unread: string, got: string, need': nat, unread': string) {
    forall more: string :: Matches(Decode(need, unread + more), Prefixed(got, Decode(need', unread' + more)))
  }

  /** Whatever bytes follow, the body ends after `got`, and `rest` are the first bytes behind it. */
  ghost predicate Finishes(need: nat, unread: string, got: string, ext: bool, original: Option<int>, rest: string) {
    forall more: string :: Matches(Decode(need, unread + more), Done(got, ext, original, rest + more))
  }

  /** Whatever bytes follow, there is no body to deliver. */
  ghost predicate Rejects(need: nat, unread: string, verdict: Outcome) {
    forall more: string :: Matches(Decode(need, unread + more), verdict)
  }

  /** The definition read from the buffer, stale bytes and all, is the one that the stream has. */
  lemma DefinitionOfStream(unread: string, stale: string, more: string)
    requires |unread| <= BUFSIZE && FindCrlf(unread) >= 0 && Clear(unread[..FindCrlf(unread) + 2])
    ensures var early := ReadDefinition(unread + stale, |unread|);
            var whole := ReadDefinition(unread + more, |unread + more|);
            early == whole
            || (early == Awaiting && (whole.Awaiting? || whole.Bad? || (whole.Last? && whole.length == FindCrlf(unread) + 4)))
  {
    hide ReadDefinition, Clear;
    var k := FindCrlf(unread);
    assert unread + stale == unread[..k + 2] + unread[k + 2..] + stale;
    assert unread + more == unread[..k + 2] + unread[k + 2..] + more;
    assert unread == unread[..k + 2] + unread[k + 2..];
    DefinitionAgrees(unread[..k + 2], unread[k + 2..], stale, more);
  }

  /** What the buffer says about the stream's next definition. */
  predicate Reads(d: Definition, unread: string, stream: string, w: Step) {
    match d
    case NoLine => |unread| >= BUFSIZE ==> w == Stop(Malformed(""))
    case Awaiting => |unread| >= BUFSIZE ==> w.Stop? && Matches(w.outcome, Malformed(""))
    case Bad => w.Stop? && Matches(w.outcome, Malformed(""))
    case OutOfRange => w == Stop(Unclear(""))
    case Chunk(need, length) => w == Go(need, length) || w == Stop(Unclear(""))
    case Last(length, ext, original) =>
      length <= |stream| && w.Stop? && Matches(w.outcome, Done("", ext, original, stream[length..]))
  }

  lemma DefineStream(unread: string, stale: string, more: string)
    requires |unread| <= BUFSIZE
    ensures Reads(ReadDefinition(unread + stale, |unread|), unread, unread + more, Define(unread + more))
  {
    hide ReadDefinition, Clear;
    var t := unread + more;
    var k := FindCrlf(unread);
    assert (unread + stale)[..|unread|] == unread && t[..|t|] == t;
    if k < 0 {
      LateCrlf(unread, more);
    } else {
      CrlfStable(unread, more);
      assert t[..k + 2] == unread[..k + 2];
      if Clear(unread[..k + 2]) { DefinitionOfStream(unread, stale, more); }
    }
  }

  /** A whole chunk definition has been taken from the buffer. */
  lemma TakeDefinition(unread: string, stale: string, need: nat, length: nat)
    requires |unread| <= BUFSIZE && ReadDefinition(unread + stale, |unread|) == Chunk(need, length)
    ensures length <= |unread| && Advances(0, unread, "", need, unread[length..])
  {
    hide ReadDefinition, Define;
    assert (unread + stale)[..|unread|] == unread;
    forall more: string
      ensures Matches(Decode(0, unread + more), Prefixed("", Decode(need, unread[length..] + more)))
    {
      DefineStream(unread, stale, more);
      assert (unread + more)[length..] == unread[length..] + more;
    }
  }

  /** The zero chunk has been taken from the buffer. */
  lemma TakeLast(unread: string, stale: string, length: nat, ext: bool, original: Option<int>)
    requires |unread| <= BUFSIZE && ReadDefinition(unread + stale, |unread|) == Last(length, ext, original)
    ensures length <= |unread| && Finishes(0, unread, "", ext, original, unread[length..])
  {
    hide ReadDefinition, Define;
    assert (unread + stale)[..|unread|] == unread;
    forall more: string
      ensures Matches(Decode(0, unread + more), Done("", ext, original, unread[length..] + more))
    {
      DefineStream(unread, stale, more);
      assert (unread + more)[length..] == unread[length..] + more;
    }
  }

  /** A definition that the parser refuses, or that fills the buffer without an end, is malformed. */
  lemma RefuseDefinition(unread: string, stale: string)
    requires |unread| <= BUFSIZE
    requires var d := ReadDefinition(unread + stale, |unread|);
             d.Bad? || d.OutOfRange? || ((d.NoLine? || d.Awaiting?) && |unread| == BUFSIZE)
    ensures Rejects(0, unread, if ReadDefinition(unread + stale, |unread|).OutOfRange? then Unclear("") else Malformed(""))
  {
    hide ReadDefinition, Define;
    var verdict := if ReadDefinition(unread + stale, |unread|).OutOfRange? then Unclear("") else Malformed("");
    forall more: string ensures Matches(Decode(0, unread + more), verdict) {
      DefineStream(unread, stale, more);
    }
  }

  /** Nothing can be said yet: neither is there payload nor an end, nor a mistake that the buffer has room for. */
  predicate Open(need: nat, unread: string) {
    var o := Decode(need, unread);
    !o.Done? && o.payload == "" && (o.Malformed? ==> |unread| >= BUFSIZE - 1)
  }

  /** A definition that is still under way leaves the outcome open, unless the buffer is full. */
  lemma WaitForDefinition(unread: string, stale: string)
    requires |unread| <= BUFSIZE
    requires var d := ReadDefinition(unread + stale, |unread|); d.NoLine? || d.Awaiting?
    ensures Open(0, unread)
    ensures |unread| == BUFSIZE ==> Rejects(0, unread, Malformed(""))
  {
    hide ReadDefinition, Clear, Rejects, FindCrlf;
    assert (unread + stale)[..|unread|] == unread && unread[..|unread|] == unread && unread + "" == unread;
    if |unread| == BUFSIZE { RefuseDefinition(unread, stale); }
    if FindCrlf(unread) >= 0 && Clear(unread[..FindCrlf(unread) + 2]) { AwaitingWhole(unread, stale); }
  }

  lemma NothingYet(need: nat)
    ensures Open(need, "")
  {
    assert need == 0 ==> Define("") == Stop(Incomplete(""));
  }

  lemma AwaitingWhole(unread: string, stale: string)
    requires FindCrlf(unread) >= 0 && Clear(unread[..FindCrlf(unread) + 2])
    requires ReadDefinition(unread + stale, |unread|) == Awaiting
    ensures ReadDefinition(unread, |unread|) == Awaiting
  {
    hide ReadDefinition, Clear;
    var k := FindCrlf(unread);
    var line, seen := unread[..k + 2], unread[k + 2..];
    assert line + seen + stale == unread + stale && line + seen + "" == unread && line + seen == unread;
    ClearIsLine(line);
    ClearIsIndependent(line, seen, stale, "");
  }

  /** Some bytes of the current chunk have been taken: `taken` of the `need`. */
  lemma TakeData(need: nat, unread: string, taken: nat)
    requires 0 < taken <= need < BACKWARD && taken <= |unread|
    ensures var data := DataPart(need) - DataPart(need - taken);
            0 <= data <= taken && Advances(need, unread, unread[..data], need - taken, unread[taken..])
  {
    hide Define, Begun, DataPart;
    DataIn(need, taken);
    var data := DataPart(need) - DataPart(need - taken);
    forall more: string
      ensures Matches(Decode(need, unread + more),
                      Prefixed(unread[..data], Decode(need - taken, unread[taken..] + more)))
    {
      var s := unread + more;
      assert s[taken..] == unread[taken..] + more && s[..data] == unread[..data];
      if |s| >= need { WholeParts(s, need, taken); } else { BegunParts(s, need, taken); }
    }
  }

  lemma DataTaken(need: nat, len: nat, taken: nat)
    requires len > 0 && taken == if need <= len then need else len
    ensures DataPart(need) - DataPart(need - taken)
         == if need <= len then (if need > 2 then need - 2 else 0) else if need - len < 2 then len - (need - len) else len
  {
  }

  lemma DataIn(need: nat, taken: nat)
    requires taken <= need
    ensures 0 <= DataPart(need) - DataPart(need - taken) <= taken && DataPart(need) <= need && DataPart(0) == 0
  {
  }

  lemma WholeParts(s: string, need: nat, taken: nat)
    requires 0 < taken <= need <= |s|
    ensures var data := DataPart(need) - DataPart(need - taken);
            data <= |s| && s[..DataPart(need)] == s[..data] + s[taken..][..DataPart(need - taken)]
    ensures s[need..] == s[taken..][need - taken..]
  {
  }

  lemma BegunParts(s: string, need: nat, taken: nat)
    requires 0 < taken <= |s| < need
    ensures var data := DataPart(need) - DataPart(need - taken);
            data <= |s| && Begun(need, s) == s[..data] + Begun(need - taken, s[taken..])
  {
  }

  /** A parser that must go back has left the streams that mean something. */
  lemma GoesBack(n0: nat, u0: string, n1: nat, u1: string)
    requires Advances(n0, u0, "", n1, u1) && n1 >= BACKWARD
    ensures Rejects(n0, u0, Unclear(""))
  {
    forall more: string ensures Matches(Decode(n0, u0 + more), Unclear("")) {
      assert Matches(Decode(n0, u0 + more), Prefixed("", Decode(n1, u1 + more)));
    }
  }

  lemma AdvancesNowhere(need: nat, unread: string)
    ensures Advances(need, unread, "", need, unread)
  {
    hide Decode;
    forall more: string ensures Matches(Decode(need, unread + more), Prefixed("", Decode(need, unread + more))) {
      var o := Decode(need, unread + more);
      assert "" + o.payload == o.payload;
    }
  }

  lemma AdvancesThen(n0: nat, u0: string, a: string, n1: nat, u1: string, b: string, n2: nat, u2: string)
    requires Advances(n0, u0, a, n1, u1) && Advances(n1, u1, b, n2, u2)
    ensures Advances(n0, u0, a + b, n2, u2)
  {
    hide Decode;
    forall more: string ensures Matches(Decode(n0, u0 + more), Prefixed(a + b, Decode(n2, u2 + more))) {
      assert Matches(Decode(n1, u1 + more), Prefixed(b, Decode(n2, u2 + more)));
    }
  }

  lemma FinishesThen(n0: nat, u0: string, a: string, n1: nat, u1: string, b: string,
                     ext: bool, original: Option<int>, rest: string)
    requires Advances(n0, u0, a, n1, u1) && Finishes(n1, u1, b, ext, original, rest)
    ensures Finishes(n0, u0, a + b, ext, original, rest)
  {
    hide Decode;
    forall more: string ensures Matches(Decode(n0, u0 + more), Done(a + b, ext, original, rest + more)) {
      assert Matches(Decode(n1, u1 + more), Done(b, ext, original, rest + more));
    }
  }

  lemma RejectsThen(n0: nat, u0: string, a: string, n1: nat, u1: string, verdict: Outcome)
    requires Advances(n0, u0, a, n1, u1) && Rejects(n1, u1, verdict)
    ensures Rejects(n0, u0, Prefixed(a, verdict))
  {
    hide Decode;
    forall more: string ensures Matches(Decode(n0, u0 + more), Prefixed(a, verdict)) {
      assert Matches(Decode(n1, u1 + more), verdict);
    }
  }

  /** More bytes have been received. */
  lemma AdvancesRead(n0: nat, u0: string, a: string, n1: nat, u1: string, bytes: string)
    requires Advances(n0, u0, a, n1, u1)
    ensures Advances(n0, u0 + bytes, a, n1, u1 + bytes)
  {
    hide Decode;
    forall more: string
      ensures Matches(Decode(n0, u0 + bytes + more), Prefixed(a, Decode(n1, u1 + bytes + more)))
    {
      assert u0 + bytes + more == u0 + (bytes + more) && u1 + bytes + more == u1 + (bytes + more);
      assert Matches(Decode(n0, u0 + (bytes + more)), Prefixed(a, Decode(n1, u1 + (bytes + more))));
    }
  }

  // What the relations say when nothing more follows.

  lemma AdvancesNow(n0: nat, u0: string, a: string, n1: nat, u1: string)
    requires Advances(n0, u0, a, n1, u1)
    ensures Matches(Decode(n0, u0), Prefixed(a, Decode(n1, u1)))
  {
    hide Decode;
    assert u0 + "" == u0 && u1 + "" == u1;
    assert Matches(Decode(n0, u0 + ""), Prefixed(a, Decode(n1, u1 + "")));
  }

  lemma FinishesNow(n0: nat, u0: string, a: string, ext: bool, original: Option<int>, rest: string)
    requires Finishes(n0, u0, a, ext, original, rest)
    ensures Matches(Decode(n0, u0), Done(a, ext, original, rest))
  {
    hide Decode;
    assert u0 + "" == u0 && rest + "" == rest;
    assert Matches(Decode(n0, u0 + ""), Done(a, ext, original, rest + ""));
  }

  lemma RejectsNow(n0: nat, u0: string, verdict: Outcome)
    requires Rejects(n0, u0, verdict)
    ensures Matches(Decode(n0, u0), verdict)
  {
    hide Decode;
    assert u0 + "" == u0;
    assert Matches(Decode(n0, u0 + ""), verdict);
  }

  // How a run stands, `delivered` having been handed out of `bytes`.

  lemma RefusedNow(bytes: string, delivered: string, need: nat, unread: string, verdict: Outcome)
    requires Advances(0, bytes, delivered, need, unread) && Rejects(need, unread, verdict)
    ensures var o := Decode(0, bytes); o.Unclear? || o == verdict.(payload := delivered + verdict.payload)
    ensures delivered <= delivered + verdict.payload
  {
    hide Decode, Advances, Rejects;
    RejectsThen(0, bytes, delivered, need, unread, verdict);
    RejectsNow(0, bytes, Prefixed(delivered, verdict));
  }

  lemma FinishedNow(bytes: string, delivered: string, need: nat, unread: string, got: string, ext: bool,
                    original: Option<int>, rest: string)
    requires Advances(0, bytes, delivered, need, unread) && Finishes(need, unread, got, ext, original, rest)
    ensures var o := Decode(0, bytes); o.Unclear? || o == Done(delivered + got, ext, original, rest)
  {
    hide Decode, Advances, Finishes;
    FinishesThen(0, bytes, delivered, need, unread, got, ext, original, rest);
    FinishesNow(0, bytes, delivered + got, ext, original, rest);
  }

  lemma WaitingNow(bytes: string, delivered: string, need: nat, unread: string)
    requires Advances(0, bytes, delivered, need, unread) && Open(need, unread)
    requires |unread| == BUFSIZE ==> Rejects(need, unread, Malformed(""))
    ensures var o := Decode(0, bytes);
            o.Unclear? || (!o.Done? && o.payload == delivered && (o.Malformed? ==> |unread| >= BUFSIZE - 1))
    ensures |unread| == BUFSIZE ==> Matches(Decode(0, bytes), Malformed(delivered))
  {
    hide Decode, Advances, Rejects;
    AdvancesNow(0, bytes, delivered, need, unread);
    assert delivered + "" == delivered;
    if |unread| == BUFSIZE { RejectsNow(need, unread, Malformed("")); }
  }

  class Reader {
    const rbuf: array<char>
    var readPos: nat              // pstrblock_read, as an offset into rbuf
    var readLen: nat              // pstrblock_read_len
    var currentChunkLen: nat
    var chunkBytesRead: nat
    var pending: nat              // write_to_module_pending
    var eofReceived: bool
    var originalBody: int         // i206_use_original_body
    var bodyBytesIn: nat

    ghost predicate Valid()
      reads this
    {
      InBuffer() && chunkBytesRead <= currentChunkLen < 0x1_0000_0000
    }

    ghost predicate InBuffer()
      reads this`readPos, this`readLen
    {
      rbuf.Length == BUFSIZE && readPos + readLen <= BUFSIZE
    }

    /** The bytes received and not parsed yet. */
    ghost function Unread(): string
      requires InBuffer()
      reads this`readPos, this`readLen, rbuf
    {
      rbuf[readPos..readPos + readLen]
    }

    /** The bytes of the current chunk that are still to come. */
    ghost function Need(): nat
      requires Valid()
      reads this
    {
      currentChunkLen - chunkBytesRead
    }

    /** The payload handed out by the last call, once `wdata` says where it starts. */
    ghost function Handed(wdata: nat): (s: string)
      requires rbuf.Length == BUFSIZE && wdata + pending <= BUFSIZE
      ensures |s| == pending
      reads this`pending, rbuf
    {
      rbuf[wdata..wdata + pending]
    }

    constructor ()
      ensures Valid() && fresh(rbuf) && Unread() == "" && Need() == 0 && pending == 0
      ensures !eofReceived && originalBody == -1 && bodyBytesIn == 0
    {
      rbuf := new char[BUFSIZE](_ => '\0');
      readPos, readLen, currentChunkLen, chunkBytesRead, pending := 0, 0, 0, 0, 0;
      eofReceived, originalBody, bodyBytesIn := false, -1, 0;
    }

    /** Moves the unread bytes to the front and appends what the connection has; it offers `bytes`, and no
        more than the free room is taken, unless the read fails. */
    method NetDataRead(bytes: string, fails: bool) returns (ok: bool, taken: nat)
      requires Valid()
      modifies this`readPos, this`readLen, rbuf
      ensures Valid() && taken <= |bytes| && readPos == 0
      ensures ok <==> old(readLen) < BUFSIZE && !fails
      ensures ok ==> taken == if |bytes| <= BUFSIZE - old(readLen) then |bytes| else BUFSIZE - old(readLen)
      ensures !ok ==> taken == 0 && Unread() == old(Unread())
      ensures Unread() == old(Unread()) + bytes[..taken]
    {
      MoveToFront();
      var room := BUFSIZE - readLen;
      if room == 0 || fails { return false, 0; }
      ok, taken := true, if |bytes| <= room then |bytes| else room;
      CopyIn(readLen, bytes[..taken]);
      Behind(rbuf[..], readLen, bytes[..taken]);
      readLen := readLen + taken;
    }

    method CopyIn(at: nat, text: string)
      requires at + |text| <= rbuf.Length
      modifies rbuf
      ensures rbuf[at..at + |text|] == text && rbuf[..at] == old(rbuf[..at])
    {
      forall i | 0 <= i < |text| { rbuf[at + i] := text[i]; }
    }

    method MoveToFront()
      requires Valid()
      modifies this`readPos, rbuf
      ensures Valid() && readPos == 0 && Unread() == old(Unread())
    {
      if readPos != 0 {
        forall i | 0 <= i < readLen { rbuf[i] := rbuf[readPos + i]; }
        readPos := 0;
      }
    }

    /** The flags after a body that ends with the given extension. */
    ghost predicate Flagged(eof0: bool, original0: int, ext: bool, original: Option<int>)
      reads this`eofReceived, this`originalBody, this`currentChunkLen, this`chunkBytesRead
    {
      && eofReceived == (eof0 || ext)
      && originalBody == (if original.Some? then original.value else original0)
      && currentChunkLen == chunkBytesRead == 0
    }

    method Skip(length: nat)
      requires Valid() && length <= readLen
      modifies this`readPos, this`readLen
      ensures Valid() && readPos == old(readPos) + length && readLen == old(readLen) - length
      ensures Unread() == old(Unread())[length..]
    {
      PartsOf(rbuf[..], readPos, readLen, length, 0);
      readPos, readLen := readPos + length, readLen - length;
    }

    method Flag(extension: bool, original: Option<int>)
      modifies this`currentChunkLen, this`chunkBytesRead, this`eofReceived, this`originalBody
      ensures Flagged(old(eofReceived), old(originalBody), extension, original)
    {
      currentChunkLen, chunkBytesRead := 0, 0;
      eofReceived := eofReceived || extension;
      originalBody := if original.Some? then original.value else originalBody;
    }

    /** The part of `parse_chunk_data` that reads a definition. */
    method ParseDefinition() returns (d: Definition)
      requires Valid() && Need() == 0
      modifies this`currentChunkLen, this`chunkBytesRead, this`readPos, this`readLen, this`eofReceived, this`originalBody
      ensures Valid() && readLen <= old(readLen)
      ensures !d.Last? ==> eofReceived == old(eofReceived) && originalBody == old(originalBody)
      ensures d.Chunk? ==> Need() > 0 && readLen < old(readLen) && Advances(0, old(Unread()), "", Need(), Unread())
      ensures d.Last? ==> Finishes(0, old(Unread()), "", d.extension, d.original, Unread())
                          && Flagged(old(eofReceived), old(originalBody), d.extension, d.original)
      ensures d.NoLine? || d.Awaiting? ==> Need() == 0 && Unread() == old(Unread()) && Open(0, Unread())
                                           && (readLen == BUFSIZE ==> Rejects(0, old(Unread()), Malformed("")))
      ensures d == ReadDefinition(old(rbuf[readPos..]), old(readLen))
      ensures if d.Chunk? then Need() == d.need && readPos == old(readPos) + d.length && readLen == old(readLen) - d.length
              else Need() == 0
      ensures d.Bad? ==> Rejects(0, old(Unread()), Malformed(""))
      ensures d.OutOfRange? ==> Rejects(0, old(Unread()), Unclear(""))
    {
      hide ReadDefinition, Decode, FindCrlf, Advances, Finishes, Rejects, Open;
      ghost var unread, stale := Unread(), rbuf[readPos + readLen..];
      assert rbuf[readPos..] == unread + stale;
      d := ReadDefinition(rbuf[readPos..], readLen);
      if d.Chunk? {
        TakeDefinition(unread, stale, d.need, d.length);
        currentChunkLen, chunkBytesRead := d.need, 0;
        Skip(d.length);
      } else if d.Last? {
        TakeLast(unread, stale, d.length, d.extension, d.original);
        Flag(d.extension, d.original);
        Skip(d.length);
      } else if d.Awaiting? || d.NoLine? {
        if d.Awaiting? { currentChunkLen, chunkBytesRead := 0, 0; }
        WaitForDefinition(unread, stale);
      } else {
        RefuseDefinition(unread, stale);
      }
    }

    /** The part that hands out data of the current chunk; it has `remains` bytes to go. */
    method TakeChunkData() returns (wdata: nat)
      requires Valid() && 0 < Need() < BACKWARD && readLen > 0 && pending == 0
      modifies this`chunkBytesRead, this`readPos, this`readLen, this`pending, this`bodyBytesIn
      ensures Valid() && wdata + pending <= BUFSIZE && readLen < old(readLen)
      ensures Advances(old(Need()), old(Unread()), Handed(wdata), Need(), Unread())
      ensures bodyBytesIn == old(bodyBytesIn) + pending
      ensures readLen > 0 ==> Need() == 0
    {
      hide Advances, DataPart;
      ghost var need, unread := Need(), Unread();
      wdata := readPos;
      var remains := currentChunkLen - chunkBytesRead;
      var taken := if remains <= readLen then remains else readLen;
      if remains <= readLen {
        pending := if remains > 2 then remains - 2 else 0;
      } else {
        var missing := remains - readLen;
        pending := if missing < 2 then readLen - missing else readLen;
      }
      DataTaken(need, readLen, taken);
      TakeData(need, unread, taken);
      chunkBytesRead, readPos, readLen := chunkBytesRead + taken, readPos + taken, readLen - taken;
      bodyBytesIn := bodyBytesIn + pending;
      PartsOf(rbuf[..], wdata, |unread|, taken, pending);
    }

    /** The same part when the bytes to come are a negative number: the read position goes back by it, over bytes that
        have been read before, and stays in the buffer exactly if there are so many before it. */
    method StepBack() returns (inside: bool)
      requires Valid() && Need() >= BACKWARD && readLen > 0 && pending == 0
      modifies this`chunkBytesRead, this`readPos, this`readLen
      ensures Valid() && (inside <==> old(readPos) >= 0x1_0000_0000 - old(Need()))
      ensures inside ==> Need() == 0 && readPos == old(readPos) - (0x1_0000_0000 - old(Need()))
                         && readPos + readLen == old(readPos + readLen)
      ensures !inside ==> unchanged(this)
    {
      var remains := currentChunkLen - chunkBytesRead - 0x1_0000_0000;
      inside := readPos + remains >= 0;
      if inside {
        chunkBytesRead := (chunkBytesRead + remains) % 0x1_0000_0000;
        readPos, readLen := readPos + remains, readLen - remains;
      }
    }

    /** One turn of the parser at a definition, `got` having been handed out since `need0` and `unread0`; `Ok` means that
        a chunk follows. */
    method DefinitionTurn(ghost need0: nat, ghost unread0: string, ghost got: string) returns (r: Status)
      requires Valid() && Need() == 0 && Advances(need0, unread0, got, 0, Unread())
      modifies this`currentChunkLen, this`chunkBytesRead, this`readPos, this`readLen, this`eofReceived, this`originalBody
      ensures Valid() && readLen <= old(readLen) && !r.Failed? && !r.Back?
      ensures r.Ok? || r.NeedsMore? ==> Advances(need0, unread0, got, Need(), Unread())
                                        && eofReceived == old(eofReceived) && originalBody == old(originalBody)
      ensures r.Ok? ==> Need() > 0 && readLen < old(readLen)
      ensures r.NeedsMore? ==> Open(Need(), Unread()) && (readLen == BUFSIZE ==> Rejects(Need(), Unread(), Malformed("")))
      ensures r.Eof? ==>
                exists ext, original ::
                  && Finishes(need0, unread0, got, ext, original, Unread())
                  && Flagged(old(eofReceived), old(originalBody), ext, original)
      ensures r.Error? ==> Rejects(need0, unread0, Malformed(got))
      ensures r.Lost? ==> Rejects(need0, unread0, Unclear(got)) && Need() == 0
    {
      hide Decode, Advances, Finishes, Rejects, Prefixed, Open;
      ghost var unread := Unread();
      assert got + "" == got;
      var d := ParseDefinition();
      if d.Bad? || d.OutOfRange? || (d.NoLine? && readLen >= BUFSIZE) {
        ghost var verdict := if d.OutOfRange? then Unclear("") else Malformed("");
        RejectsThen(need0, unread0, got, 0, unread, verdict);
        PrefixedIs(got, verdict);
        return if d.OutOfRange? then Lost else Error;
      } else if d.NoLine? || d.Awaiting? {
        return NeedsMore;
      } else if d.Last? {
        FinishesThen(need0, unread0, got, 0, unread, "", d.extension, d.original, Unread());
        return Eof;
      }
      AdvancesThen(need0, unread0, got, 0, unread, "", Need(), Unread());
      r := Ok;
    }

    /** One turn of the parser at data. */
    method DataTurn(ghost need0: nat, ghost unread0: string) returns (r: Status, wdata: nat)
      requires Valid() && Need() > 0 && readLen > 0 && pending == 0 && Advances(need0, unread0, "", Need(), Unread())
      modifies this`chunkBytesRead, this`readPos, this`readLen, this`pending, this`bodyBytesIn
      ensures Valid() && (r.Ok? || r.Back? || r.Lost?) && wdata + pending <= BUFSIZE
      ensures r.Ok? ==> && readLen < old(readLen) && (readLen > 0 ==> Need() == 0)
                        && Advances(need0, unread0, Handed(wdata), Need(), Unread())
      ensures bodyBytesIn == old(bodyBytesIn) + pending
      ensures !r.Ok? ==> Rejects(need0, unread0, Unclear("")) && pending == 0 && Handed(wdata) == ""
      ensures r.Back? ==> Need() == 0
      ensures r.Lost? ==> unchanged(this) && Need() >= BACKWARD && readPos < 0x1_0000_0000 - Need()
    {
      hide Decode, Advances, Rejects;
      ghost var need, unread := Need(), Unread();
      if currentChunkLen - chunkBytesRead >= BACKWARD {
        GoesBack(need0, unread0, need, unread);
        var inside := StepBack();
        return if inside then Back else Lost, 0;
      }
      wdata := TakeChunkData();
      AdvancesThen(need0, unread0, "", need, unread, Handed(wdata), Need(), Unread());
      assert "" + Handed(wdata) == Handed(wdata);
      r := Ok;
    }

    /** One call of `parse_chunk_data`. The payload it hands out is `Handed(wdata)`. */
    method ParseChunkData() returns (r: Status, wdata: nat)
      requires Valid()
      modifies this
      ensures Valid() && (r.Back? || readLen <= old(readLen))
      ensures old(pending) != 0 ==> r == Error && unchanged(this)
      ensures old(pending) == 0 ==> wdata + pending <= BUFSIZE && bodyBytesIn == old(bodyBytesIn) + pending
      ensures old(pending) == 0 && (r.Ok? || r.NeedsMore?) ==>
                Advances(old(Need()), old(Unread()), Handed(wdata), Need(), Unread())
      ensures r.Ok? ==> pending > 0 && readLen < old(readLen)
      ensures r.Ok? || r.NeedsMore? ==> eofReceived == old(eofReceived) && originalBody == old(originalBody)
      ensures r.NeedsMore? ==> Open(Need(), Unread())
      ensures r.NeedsMore? && readLen == BUFSIZE ==> Rejects(Need(), Unread(), Malformed(""))
      ensures r.Eof? ==>
                exists ext, original ::
                  && Finishes(old(Need()), old(Unread()), Handed(wdata), ext, original, Unread())
                  && Flagged(old(eofReceived), old(originalBody), ext, original)
      ensures old(pending) == 0 && r.Error? ==> Rejects(old(Need()), old(Unread()), Malformed(Handed(wdata)))
      ensures r.Lost? || r.Back? ==> Rejects(old(Need()), old(Unread()), Unclear(Handed(wdata)))
      ensures r.Back? ==> Need() == 0 && pending == 0
      ensures r.Lost? && Need() > 0 ==> Need() >= BACKWARD && readLen > 0 && readPos < 0x1_0000_0000 - Need()
      ensures !r.Failed?
    {
      hide Decode, Advances, Finishes, Rejects, Handed, Open, Flagged;
      wdata := 0;
      if pending != 0 { return Error, 0; }
      ghost var need0, unread0 := Need(), Unread();
      AdvancesNowhere(need0, unread0);
      HandsNothing(wdata);
      while true
        invariant Valid() && wdata + pending <= BUFSIZE && readLen <= old(readLen)
        invariant pending > 0 ==> Need() == 0 && readLen < old(readLen)
        invariant bodyBytesIn == old(bodyBytesIn) + pending
        invariant eofReceived == old(eofReceived) && originalBody == old(originalBody)
        invariant Advances(need0, unread0, Handed(wdata), Need(), Unread())
        decreases readLen
      {
        if currentChunkLen == chunkBytesRead {
          r := DefinitionTurn(need0, unread0, Handed(wdata));
          if r != Ok { return; }
        }
        if pending > 0 { return Ok, wdata; }
        HandsNothing(wdata);
        if readLen == 0 {
          OpenEnd();
          return NeedsMore, wdata;
        }
        r, wdata := DataTurn(need0, unread0);
        if r != Ok { return; }
        if readLen == 0 {
          OpenEnd();
          return NeedsMore, wdata;
        }
      }
    }

    lemma HandsNothing(wdata: nat)
      requires Valid() && wdata + pending <= BUFSIZE
      ensures pending == 0 ==> Handed(wdata) == ""
    {
    }

    lemma OpenEnd()
      requires Valid() && readLen == 0
      ensures Open(Need(), Unread())
    {
      hide Decode;
      NothingYet(Need());
      assert Unread() == "";
    }

    /** How a run must end, given what the bytes it consumed mean: it has delivered all the payload among them, or
        on an error not more than that. */
    ghost predicate Settles(o: Outcome, r: Status, delivered: string, eof0: bool, original0: int)
      requires Valid()
      reads this, rbuf
    {
      o.Unclear? || (
        && !r.Lost? && !r.Back?
        && (r.Eof? <==> o.Done?)
        && (r.Error? ==> o.Malformed?) && (r.NeedsMore? && o.Malformed? ==> |Unread()| >= BUFSIZE - 1)
        && (if r.Error? then delivered <= o.payload else delivered == o.payload)
        && (o.Done? ==> Unread() == o.rest && Flagged(eof0, original0, o.extension, o.original)))
    }

    /** One call of the parser, and delivery of what it hands out. `bytes` is what has been read so far. */
    method ParseRound(ghost bytes: string, delivered: string) returns (r: Status, delivered': string)
      requires Valid() && pending == 0 && Advances(0, bytes, delivered, Need(), Unread())
      modifies this
      ensures Valid() && pending == 0 && !r.Failed? && (r.Back? || readLen <= old(readLen))
      ensures r.Ok? ==> readLen < old(readLen)
      ensures r.Ok? || r.NeedsMore? ==> Advances(0, bytes, delivered', Need(), Unread())
                                        && eofReceived == old(eofReceived) && originalBody == old(originalBody)
      ensures !r.Error? && !r.Lost? && !r.Back? ==> bodyBytesIn == old(bodyBytesIn) + |delivered'| - |delivered|
      ensures !r.Ok? ==> Settles(Decode(0, bytes), r, delivered', old(eofReceived), old(originalBody))
      ensures r.NeedsMore? && readLen == BUFSIZE ==> Matches(Decode(0, bytes), Malformed(delivered'))
    {
      hide Decode, Advances, Finishes, Rejects, Open, Flagged, Matches;
      ghost var need, unread := Need(), Unread();
      var wdata;
      r, wdata := ParseChunkData();
      ghost var got := Handed(wdata);
      if r.Error? || r.Lost? || r.Back? {
        RefusedNow(bytes, delivered, need, unread, if r.Error? then Malformed(got) else Unclear(got));
        pending, delivered' := 0, delivered;
        return;
      }
      delivered' := delivered + rbuf[wdata..wdata + pending];
      pending := 0;
      if r.Eof? {
        ghost var ext, original :| Finishes(need, unread, got, ext, original, Unread())
                                   && Flagged(old(eofReceived), old(originalBody), ext, original);
        FinishedNow(bytes, delivered, need, unread, got, ext, original, Unread());
        return;
      }
      AdvancesThen(0, bytes, delivered, need, unread, got, Need(), Unread());
      if r.NeedsMore? {
        WaitingNow(bytes, delivered', Need(), Unread());
      }
    }

    /** A read of `size` bytes, or what is left of the stream, or what there is room for. */
    method ReadMore(stream: string, consumed: nat, size: int, ghost delivered: string) returns (ok: bool, consumed': nat)
      requires Valid() && readLen < BUFSIZE && consumed <= |stream|
      requires Advances(0, stream[..consumed], delivered, Need(), Unread())
      modifies this`readPos, this`readLen, rbuf
      ensures Valid() && consumed <= consumed' <= |stream| && (ok <==> size >= 0)
      ensures Advances(0, stream[..consumed'], delivered, Need(), Unread())
      ensures size > 0 && consumed < |stream| ==> consumed' > consumed
      ensures !ok ==> consumed' == consumed && Unread() == old(Unread())
    {
      hide Advances;
      ghost var need, unread := Need(), Unread();
      var offer := Offer(size, |stream| - consumed);
      var taken;
      ok, taken := NetDataRead(stream[consumed..consumed + offer], size < 0);
      AdvancesRead(0, stream[..consumed], delivered, need, unread, stream[consumed..consumed + taken]);
      Slices(stream, consumed, offer, taken);
      consumed' := consumed + taken;
    }

    /** A parser loop: parse, deliver what is handed out, read more when the parser asks for it. The connection
        carries `stream`; its reads offer the numbers of bytes in `schedule`, a negative one fails, and after the
        last the connection is silent. */
    method ReadBody(stream: string, schedule: seq<int>) returns (r: Status, delivered: string, consumed: nat)
      requires Valid() && Unread() == "" && Need() == 0 && pending == 0
      modifies this, rbuf
      ensures Valid() && pending == 0 && consumed <= |stream| && r != Ok
      ensures !r.Error? && !r.Lost? && !r.Back? ==> bodyBytesIn == old(bodyBytesIn) + |delivered|
      ensures Settles(Decode(0, stream[..consumed]), r, delivered, old(eofReceived), old(originalBody))
      ensures r.NeedsMore? || r.Failed? ==> Advances(0, stream[..consumed], delivered, Need(), Unread())
      ensures r.Failed? ==> !NoFailure(schedule)
      ensures r.NeedsMore? ==> consumed == |stream| || consumed >= Positives(schedule)
    {
      hide Decode, Advances, Flagged, Matches, Positives;
      PositivesAll(schedule);
      delivered, consumed := "", 0;
      AdvancesNowhere(0, "");
      var rounds := 0;
      while true
        invariant Valid() && pending == 0 && consumed <= |stream| && rounds <= |schedule|
        invariant bodyBytesIn == old(bodyBytesIn) + |delivered|
        invariant eofReceived == old(eofReceived) && originalBody == old(originalBody)
        invariant Advances(0, stream[..consumed], delivered, Need(), Unread())
        invariant consumed == |stream| || consumed >= Positives(schedule[..rounds])
        decreases |schedule| - rounds, readLen
      {
        r, delivered := ParseRound(stream[..consumed], delivered);
        if !r.Ok? && !r.NeedsMore? { return; }
        if r.NeedsMore? {
          if rounds == |schedule| { return; }
          if readLen == BUFSIZE {
            FullIsMalformed(Decode(0, stream[..consumed]), delivered);
            return Error, delivered, consumed;
          }
          var ok;
          ok, consumed := ReadMore(stream, consumed, schedule[rounds], delivered);
          if !ok { return Failed, delivered, consumed; }
          PositivesNext(schedule, rounds);
          rounds := rounds + 1;
        }
      }
    }

    /** `read_preview_data`: the body of a preview; what follows it in the buffer is dropped. */
    method ReadPreview(stream: string, schedule: seq<int>) returns (r: Status, delivered: string, consumed: nat)
      requires Valid() && Unread() == ""
      modifies this, rbuf
      ensures Valid() && pending == 0 && consumed <= |stream|
      ensures var o := Decode(0, stream[..consumed]);
              o.Unclear? || (
                && !r.Lost? && !r.Back?
                && (r.Ok? || r.Eof? <==> o.Done?) && (r.Error? ==> o.Malformed?)
                && (if r.Error? then delivered <= o.payload else delivered == o.payload)
                && (o.Done? ==> (r.Eof? <==> old(eofReceived) || o.extension) && Unread() == ""))
      ensures !r.Error? && !r.Lost? && !r.Back? ==> bodyBytesIn == old(bodyBytesIn) + |delivered|
      ensures r.Failed? ==> !NoFailure(schedule)
      ensures r.NeedsMore? ==> consumed == |stream| || consumed >= Positives(schedule)
    {
      hide Decode, Advances;
      currentChunkLen, chunkBytesRead, pending := 0, 0, 0;
      r, delivered, consumed := ReadBody(stream, schedule);
      if r.Eof? {
        readPos, readLen := 0, 0;
        r := if eofReceived then Eof else Ok;
      }
    }
  }

  /** What a read offers when `left` bytes of the stream are left. */
  function Offer(size: int, left: nat): (n: nat)
    ensures n <= left && (size > 0 && left > 0 ==> n > 0)
  {
    if size < 0 then 0 else if size <= left then size else left
  }

  lemma PrefixedIs(a: string, o: Outcome)
    ensures Prefixed(a, o).payload == a + o.payload && Prefixed(a, o) == o.(payload := a + o.payload)
    ensures a + "" == a && a <= a + o.payload
  {
  }

  lemma FullIsMalformed(o: Outcome, delivered: string)
    requires Matches(o, Malformed(delivered))
    ensures o.Unclear? || (o.Malformed? && o.payload == delivered)
  {
  }

  lemma Slices(stream: string, consumed: nat, offer: nat, taken: nat)
    requires consumed + offer <= |stream| && taken <= offer
    ensures stream[consumed..consumed + offer][..taken] == stream[consumed..consumed + taken]
    ensures stream[..consumed] + stream[consumed..consumed + taken] == stream[..consumed + taken]
  {
  }

  /** No prefix of a stream with a whole body is refused or unclear. */
  lemma PrefixOfDone(stream: string, n: nat)
    requires n <= |stream| && Decode(0, stream).Done?
    ensures Decode(0, stream[..n]).Done? || Decode(0, stream[..n]).Incomplete?
    ensures Decode(0, stream[..n]).payload <= Decode(0, stream).payload
  {
    hide Decode;
    DecodeStable(0, stream[..n], stream[n..]);
    assert stream[..n] + stream[n..] == stream;
  }

  /** Split independence: two parsers that see one stream through different reads. However it was cut, both find
      the same payload, byte count, flags and end; and with enough reads both do. */
  method SplitIndependence(stream: string, scheduleA: seq<int>, scheduleB: seq<int>)
    returns (a: Reader, ra: Status, da: string, ca: nat, b: Reader, rb: Status, db: string, cb: nat)
    requires Decode(0, stream).Done?
    ensures fresh(a) && fresh(b) && a.Valid() && b.Valid() && ca <= |stream| && cb <= |stream|
    ensures ra.Eof? && rb.Eof? ==>
              && da == db == Decode(0, stream).payload && a.bodyBytesIn == b.bodyBytesIn == |da|
              && a.eofReceived == b.eofReceived && a.originalBody == b.originalBody
              && a.Need() == b.Need() == 0 && a.pending == b.pending == 0
              && ca - |a.Unread()| == cb - |b.Unread()| == |stream| - |Decode(0, stream).rest|
    ensures Enough(scheduleA, |stream|) ==> ra.Eof?
    ensures Enough(scheduleB, |stream|) ==> rb.Eof?
    ensures da <= Decode(0, stream).payload && db <= Decode(0, stream).payload
  {
    hide Decode;
    a, ra, da, ca := ReadOnce(stream, scheduleA);
    b, rb, db, cb := ReadOnce(stream, scheduleB);
  }

  /** One run on a stream with a whole body. */
  method ReadOnce(stream: string, schedule: seq<int>) returns (reader: Reader, r: Status, delivered: string, consumed: nat)
    requires Decode(0, stream).Done?
    ensures fresh(reader) && fresh(reader.rbuf) && reader.Valid() && consumed <= |stream|
    ensures var o := Decode(0, stream);
            r.Eof? ==> && delivered == o.payload && reader.bodyBytesIn == |delivered|
                       && reader.Flagged(false, -1, o.extension, o.original) && reader.pending == 0
                       && reader.Unread() + stream[consumed..] == o.rest
    ensures Enough(schedule, |stream|) ==> r.Eof?
    ensures delivered <= Decode(0, stream).payload
  {
    hide Decode, Advances;
    reader := new Reader();
    r, delivered, consumed := reader.ReadBody(stream, schedule);
    PrefixOfDone(stream, consumed);
    DecodeStable(0, stream[..consumed], stream[consumed..]);
    assert stream[..consumed] + stream[consumed..] == stream;
    assert consumed == |stream| ==> stream[..consumed] == stream;
  }
}
