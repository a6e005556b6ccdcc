/** The sending side: `format_body_chunk` builds a chunk in place around the data in `wbuf`, `update_send_status`
    walks from the ICAP head over the header blocks to the body, and `send_remaining_response` drives both over a
    socket that takes any number of bytes at a time. */
module ResponseSender {
  import opened Common
  import opened Text

  const EXTRA_CHUNK_SIZE: nat := 30
  const MAX_CHUNK_SIZE: nat := 4064

  const CI_OK: int := 1
  const CI_ERROR: int := -1
  const CI_EOF: int := -2

  const SEND_NOTHING: nat := 0
  const SEND_RESPHEAD: nat := 1
  const SEND_HEAD1: nat := 2
  const SEND_HEAD3: nat := 4
  const SEND_BODY: nat := 5
  const SEND_EOF: nat := 6

  /** An encapsulated entity; `block` holds the packed bytes of a header entity, which has at least a closing line. */
  datatype Entity = Entity(kind: Kind, block: string)

  predicate Carries(e: Entity) {
    IsHeader(e.kind)
  }

  predicate Packed(e: Entity) {
    Carries(e) ==> e.block != ""
  }

  /** What one call of the service's `mod_service_io` puts into the buffer. */
  datatype Io = Data(bytes: string) | Nothing | Eof | Fail

  predicate FitsChunk(io: Io) {
    io.Data? ==> 0 < |io.bytes| <= MAX_CHUNK_SIZE
  }

  // ----- what should go over the wire

  function Chunk(data: string): string {
    Digits(|data|, 16) + CRLF + data + CRLF
  }

  /** The zero chunk; a 206 answer carries the offset from which the original body is to be used. */
  function Terminator(partial: bool, original: int): string {
    if partial && original >= 0 then "0; use-original-body=" + Digits(original, 10) + "\r\n\r\n" else "0\r\n\r\n"
  }

  /** The chunks of what the service produces, until it ends the body or stops producing. */
  function BodyWire(io: seq<Io>, last: string): string {
    if io == [] || io[0].Nothing? || io[0].Fail? then ""
    else if io[0].Eof? then last
    else Chunk(io[0].bytes) + BodyWire(io[1..], last)
  }

  /** The header blocks from entity `i` on, in entity order; the machine looks at three entities. */
  function HeaderWire(entities: seq<Entity>, i: nat): string
    decreases 3 - i
  {
    if i < 3 && i < |entities| && Carries(entities[i]) then entities[i].block + HeaderWire(entities, i + 1) else ""
  }

  lemma HeaderWireStep(entities: seq<Entity>, i: nat)
    ensures HeaderWire(entities, i)
         == if i < 3 && i < |entities| && Carries(entities[i]) then entities[i].block + HeaderWire(entities, i + 1) else ""
  {
  }

  /** Three header blocks in a row: the machine never gets past the third. */
  predicate Stuck(entities: seq<Entity>) {
    |entities| > 2 && Carries(entities[0]) && Carries(entities[1]) && Carries(entities[2])
  }

  /** A response carries back the modified half only: the request head of a RESPMOD is dropped, and the two
      entities behind it move up. */
  function ResponseEntities(entities: seq<Entity>, respmod: bool): seq<Entity> {
    if respmod && entities != [] && entities[0].kind.ReqHdr? then
      if |entities| > 3 then entities[1..3] else entities[1..]
    else entities
  }

  predicate HasBody(entities: seq<Entity>) {
    forall i :: 0 <= i < |entities| ==> !entities[i].kind.NullBody?
  }

  function Repeat(block: string, n: nat): string {
    if n == 0 then "" else Repeat(block, n - 1) + block
  }

  /** Where `pstrblock_responce` points. */
  datatype Pointer = InText(text: string, pos: nat) | InWbuf(pos: nat)

  class Sender {
    const wbuf: array<char>
    const head: string            // the packed ICAP response head
    const respmod: bool
    const partial: bool           // return_code is EC_206
    const originalBody: int       // i206_use_original_body
    var entities: seq<Entity>
    var hasBody: bool             // responce_hasbody
    var status: nat
    var block: Pointer            // pstrblock_responce
    var remain: int               // remain_send_block_bytes
    var sent: string              // what the socket has taken

    ghost predicate Valid()
      reads this
    {
      && wbuf.Length == EXTRA_CHUNK_SIZE + MAX_CHUNK_SIZE + 2 && originalBody <= LONG_MAX
      && Pointing() && Ordered() && status <= SEND_EOF && (status == SEND_NOTHING ==> remain == 0)
      && forall i :: 0 <= i < |entities| ==> Packed(entities[i])
    }

    ghost predicate Pointing()
      reads this`block, this`remain
    {
      0 <= remain && block.pos + remain <= (if block.InText? then |block.text| else wbuf.Length)
    }

    /** The machine is at a header block only behind header blocks, and past the third slot never behind three. */
    ghost predicate Ordered()
      reads this`status, this`entities, this`hasBody
    {
      && (status == SEND_BODY ==> hasBody)
      && (SEND_HEAD1 <= status <= SEND_HEAD3 ==>
            status - SEND_HEAD1 < |entities| && forall j :: 0 <= j <= status - SEND_HEAD1 ==> Carries(entities[j]))
      && (status > SEND_HEAD3 ==> !Stuck(entities))
    }

    /** The entities of the response. */
    ghost function Carried(): seq<Entity>
      reads this`status, this`entities
    {
      if status == SEND_NOTHING then ResponseEntities(entities, respmod) else entities
    }

    /** The rest of the current block. */
    ghost function Pending(): (s: string)
      requires Pointing()
      ensures |s| == remain
      reads this`block, this`remain, wbuf
    {
      if block.InText? then block.text[block.pos..block.pos + remain] else wbuf[block.pos..block.pos + remain]
    }

    /** The blocks that follow the current one, up to the body. */
    ghost function Queued(): string
      reads this`status, this`entities
    {
      if status == SEND_NOTHING then head + HeaderWire(Carried(), 0)
      else if status >= SEND_BODY then ""
      else HeaderWire(entities, status - SEND_RESPHEAD)
    }

    /** Whether the service will be asked for more. */
    ghost predicate BodyComes()
      reads this`status, this`entities, this`hasBody
    {
      !Stuck(Carried()) && if status == SEND_NOTHING then HasBody(Carried()) else status != SEND_EOF && hasBody
    }

    /** What comes again when the machine cannot get past the third header block. */
    ghost function Again(): string
      requires Ordered()
      reads this`status, this`entities, this`hasBody
    {
      if status == SEND_HEAD3 then entities[2].block else ""
    }

    /** Everything behind the current block, if the service goes on with `io`. */
    ghost function Behind(io: seq<Io>): string
      reads this`status, this`entities, this`hasBody
    {
      Queued() + if BodyComes() then BodyWire(io, Terminator(partial, originalBody)) else ""
    }

    constructor (head: string, entities: seq<Entity>, respmod: bool, partial: bool, originalBody: int)
      requires originalBody <= LONG_MAX
      requires forall i :: 0 <= i < |entities| ==> Packed(entities[i])
      ensures Valid() && fresh(wbuf) && status == SEND_NOTHING && sent == ""
      ensures this.head == head && this.entities == entities && this.respmod == respmod
      ensures this.partial == partial && this.originalBody == originalBody
    {
      wbuf := new char[EXTRA_CHUNK_SIZE + MAX_CHUNK_SIZE + 2](_ => '\0');
      this.head, this.entities, this.respmod := head, entities, respmod;
      this.partial, this.originalBody := partial, originalBody;
      status, hasBody, block, remain, sent := SEND_NOTHING, false, InText("", 0), 0, "";
    }

    /** `send_current_block_data`: the socket takes `accepted` of the remaining bytes, or fails. */
    method SendCurrentBlock(accepted: int) returns (r: int)
      requires Pointing() && accepted <= remain
      modifies this`block, this`remain, this`sent
      ensures Pointing()
      ensures accepted < 0 && old(remain) > 0 ==> r == CI_ERROR && unchanged(this)
      ensures 0 <= accepted ==> r == remain == old(remain) - accepted
                                && sent == old(sent) + old(Pending())[..accepted]
                                && Pending() == old(Pending())[accepted..]
    {
      if remain == 0 { return 0; }
      if accepted < 0 { return CI_ERROR; }
      PartsOf(if block.InText? then block.text else wbuf[..], block.pos, remain, accepted, accepted);
      var bytes := if block.InText? then block.text[block.pos..block.pos + accepted]
                   else wbuf[block.pos..block.pos + accepted];
      sent := sent + bytes;
      block := block.(pos := block.pos + accepted);
      remain := remain - accepted;
      return remain;
    }

    /** `memcpy` into the output buffer. */
    method Put(pos: nat, text: string)
      requires pos + |text| <= wbuf.Length
      modifies wbuf
      ensures wbuf[pos..pos + |text|] == text
      ensures forall i :: 0 <= i < wbuf.Length && !(pos <= i < pos + |text|) ==> wbuf[i] == old(wbuf[i])
    {
      forall i | 0 <= i < |text| { wbuf[pos + i] := text[i]; }
    }

    /** `format_body_chunk` with `length` data bytes behind the room for the size line. */
    method FormatChunk(length: nat)
      requires Valid() && status == SEND_BODY && 0 < length <= MAX_CHUNK_SIZE
      modifies this`block, this`remain, wbuf
      ensures Valid()
      ensures Pending() == Chunk(old(wbuf[EXTRA_CHUNK_SIZE..EXTRA_CHUNK_SIZE + length]))
    {
      hide Digits;
      ghost var data := wbuf[EXTRA_CHUNK_SIZE..EXTRA_CHUNK_SIZE + length];
      var line := Digits(length, 16) + CRLF;
      assert |line| <= 5 by { assert Power(16, 3) == 4096; DigitsLength(length, 16, 3); }
      var start, end := EXTRA_CHUNK_SIZE - |line|, EXTRA_CHUNK_SIZE + length;
      Put(end, CRLF);
      Put(start, line);
      assert wbuf[EXTRA_CHUNK_SIZE..end] == data;
      assert wbuf[end..end + 2] == CRLF;
      ThreeParts(wbuf[..], start, EXTRA_CHUNK_SIZE, end, end + 2);
      block, remain := InWbuf(start), |line| + length + 2;
    }

    /** `format_body_chunk` at the end of the body. */
    method FormatEnd()
      requires Valid() && status == SEND_BODY
      modifies this`block, this`remain, wbuf
      ensures Valid()
      ensures Pending() == Terminator(partial, originalBody)
    {
      var last := Terminator(partial, originalBody);
      TerminatorFits(partial, originalBody);
      Put(0, last);
      block, remain := InWbuf(0), |last|;
    }

    /** The first step of `update_send_status`: the response is packed and its head comes first. */
    method StartResponse()
      requires Valid() && status == SEND_NOTHING
      modifies this`status, this`entities, this`hasBody, this`block, this`remain
      ensures Valid() && status == SEND_RESPHEAD && Carried() == old(Carried())
      ensures Pending() + Queued() == old(Pending() + Queued()) && BodyComes() == old(BodyComes())
    {
      entities := ResponseEntities(entities, respmod);
      hasBody := forall i :: 0 <= i < |entities| ==> !entities[i].kind.NullBody?;
      block, remain, status := InText(head, 0), |head|, SEND_RESPHEAD;
    }

    /** The step from one header block to the next, to the body or to the end. The third one is followed by itself. */
    method NextBlock() returns (r: int)
      requires Valid() && SEND_NOTHING < status < SEND_BODY && remain == 0
      modifies this`status, this`block, this`remain
      ensures Valid() && r == if status == SEND_EOF then CI_EOF else CI_OK
      ensures status >= SEND_BODY ==> remain == 0
      ensures Pending() + Queued() == old(Pending() + Queued()) + old(Again()) && BodyComes() == old(BodyComes())
      ensures if old(status) == SEND_HEAD3 then status == SEND_HEAD3 && remain > 0 else status > old(status)
    {
      hide HasBody, HeaderWire;
      HeaderWireStep(entities, status - SEND_RESPHEAD);
      HeaderWireStep(entities, 3);
      var next := if status < SEND_HEAD3 then status + 1 else status;
      var i := next - SEND_HEAD1;
      if i < |entities| && Carries(entities[i]) {
        block, remain, status := InText(entities[i].block, 0), |entities[i].block|, next;
        return CI_OK;
      } else if hasBody {
        status := SEND_BODY;
        return CI_OK;
      } else {
        status, block, remain := SEND_EOF, InText("", 0), 0;
        return CI_EOF;
      }
    }

    /** `update_send_status`, called when the current block has gone out. */
    method UpdateSendStatus() returns (r: int)
      requires Valid() && (remain > 0 ==> status >= SEND_BODY)
      modifies this`status, this`entities, this`hasBody, this`block, this`remain
      ensures Valid() && (r == CI_OK || r == CI_EOF) && Carried() == old(Carried())
      ensures Pending() + Queued() == old(Pending() + Queued()) + old(Again()) && BodyComes() == old(BodyComes())
      ensures r == CI_EOF <==> status == SEND_EOF && remain == 0
      ensures if old(status) >= SEND_BODY then unchanged(this)
              else if old(status) == SEND_HEAD3 then status == SEND_HEAD3 && remain > 0
              else status > old(status)
    {
      if status == SEND_NOTHING {
        StartResponse();
        return CI_OK;
      }
      if status == SEND_EOF { return if remain == 0 then CI_EOF else CI_OK; }
      if status == SEND_BODY { return CI_OK; }
      r := NextBlock();
    }

    /** Asking the service for the next piece of the body, which it writes behind the room for the size line. */
    method NextPiece(io: seq<Io>, asked: nat) returns (r: int)
      requires Valid() && status == SEND_BODY && remain == 0
      requires asked <= |io| && forall i :: 0 <= i < |io| ==> FitsChunk(io[i])
      modifies this`status, this`block, this`remain, wbuf
      ensures Valid() && r in {CI_OK, CI_EOF, CI_ERROR, 0}
      ensures r == CI_ERROR || r == 0 ==> unchanged(this`status) && Pending() == "" && old(Behind(io[asked..])) == ""
      ensures r == CI_ERROR ==> asked < |io| && io[asked].Fail?
      ensures r == CI_OK || r == CI_EOF ==>
                asked < |io| && old(Behind(io[asked..])) == Pending() + Behind(io[asked + 1..])
                && (r == CI_EOF <==> status == SEND_EOF) && status >= SEND_BODY
    {
      hide Behind, Pending, Chunk, Terminator, BodyComes, Queued;
      var next := if asked < |io| then io[asked] else Nothing;
      assert asked < |io| ==> io[asked..][0] == next && io[asked..][1..] == io[asked + 1..];
      AtBody(io[asked..]);
      block := InWbuf(EXTRA_CHUNK_SIZE);
      match next {
        case Fail => r := CI_ERROR;
        case Nothing => r := 0;
        case Eof =>
          FormatEnd();
          status := SEND_EOF;
          AtEnd(io[asked + 1..]);
          r := CI_EOF;
        case Data(bytes) =>
          Put(EXTRA_CHUNK_SIZE, bytes);
          FormatChunk(|bytes|);
          AtBody(io[asked + 1..]);
          r := CI_OK;
      }
    }

    lemma AtBody(io: seq<Io>)
      requires Valid() && status == SEND_BODY
      ensures Behind(io) == BodyWire(io, Terminator(partial, originalBody))
    {
    }

    /** At the end nothing is left to send. */
    lemma AtEnd(io: seq<Io>)
      requires Valid() && status == SEND_EOF
      ensures Behind(io) == ""
    {
    }

    /** The inner loop: the current block goes out in as many writes as the socket wants. Returns how many of the
        `writes` were used; when they run out the peer has timed out. */
    method Flush(writes: seq<int>) returns (r: int, used: nat)
      requires Valid()
      modifies this`block, this`remain, this`sent
      ensures Valid() && used <= |writes|
      ensures sent + Pending() == old(sent + Pending())
      ensures r == CI_OK || r == CI_ERROR
      ensures r == CI_OK <==> remain == 0
      ensures r == CI_OK && old(remain) > 0 ==> used > 0
      ensures NoFailure(writes) ==> |sent| >= |old(sent)| + Positives(writes[..used]) && (r == CI_ERROR ==> used == |writes|)
    {
      hide Pending, Ordered, Positives;
      PositivesAll(writes);
      used := 0;
      while remain > 0
        invariant Valid() && used <= |writes| && sent + Pending() == old(sent + Pending())
        invariant used == 0 ==> remain == old(remain)
        invariant NoFailure(writes) ==> |sent| >= |old(sent)| + Positives(writes[..used])
        decreases |writes| - used
      {
        if used == |writes| { return CI_ERROR, used; }
        ghost var before, pending := sent, Pending();
        PositivesNext(writes, used);
        var accepted := if writes[used] > remain then remain else writes[used];
        used := used + 1;
        var left := SendCurrentBlock(accepted);
        if left == CI_ERROR { return CI_ERROR, used; }
        Moved(before, pending, accepted);
      }
      r := CI_OK;
    }

    /** The current block has gone out: the next one is set up, and nothing of what is to come is lost. */
    method Advance(io: seq<Io>, asked: nat) returns (r: int, asked': nat)
      requires Valid() && remain == 0
      requires asked <= |io| && forall i :: 0 <= i < |io| ==> FitsChunk(io[i])
      modifies this`status, this`entities, this`hasBody, this`block, this`remain, wbuf
      ensures Valid() && asked <= asked' <= |io| && r in {CI_OK, CI_EOF, CI_ERROR, 0} && Carried() == old(Carried())
      ensures Pending() + Behind(io[asked'..]) == old(Behind(io[asked..])) + old(Again())
      ensures r == CI_ERROR ==> asked < |io| && io[asked].Fail? && remain == 0
      ensures r != CI_OK ==> !Stuck(Carried()) && (r == CI_ERROR || old(Behind(io[asked..])) == "")
      ensures r == CI_OK ==> asked' > asked || status > old(status) || (status == old(status) == SEND_HEAD3 && remain > 0)
    {
      hide Pending, Queued, BodyComes, Terminator, BodyWire, Stuck;
      asked' := asked;
      if status == SEND_BODY {
        r := NextPiece(io, asked);
        if r == CI_ERROR || r == 0 { return; }
        asked' := asked + 1;
      }
      ghost var pending, queued, again := Pending(), Queued(), Again();
      ghost var wire := if BodyComes() then BodyWire(io[asked'..], Terminator(partial, originalBody)) else "";
      assert Pending() + Behind(io[asked'..]) == (pending + queued) + wire;
      if status == SEND_HEAD3 { NoBodyThere(); }
      assert (pending + queued) + again + wire == (pending + queued) + wire + again;
      r := UpdateSendStatus();
      assert Pending() + Behind(io[asked'..]) == (Pending() + Queued()) + wire;
      if r == CI_EOF { AtEnd(io[asked'..]); }
    }

    lemma NoBodyThere()
      requires Ordered() && status == SEND_HEAD3
      ensures !BodyComes()
    {
    }

    /** One turn of the outer loop: the current block goes out and the next one is set up. */
    method SendRound(io: seq<Io>, asked: nat, writes: seq<int>) returns (r: int, asked': nat, used: nat, ghost again: string)
      requires Valid() && asked <= |io| && forall i :: 0 <= i < |io| ==> FitsChunk(io[i])
      modifies this, wbuf
      ensures Valid() && asked <= asked' <= |io| && used <= |writes| && Carried() == old(Carried())
      ensures sent + Pending() + Behind(io[asked'..]) == old(sent + Pending() + Behind(io[asked..])) + again
      ensures again == "" || (Stuck(Carried()) && again == Third(Carried()))
      ensures NoFailure(writes) ==> |sent| >= |old(sent)| + Positives(writes[..used])
      ensures r in {CI_OK, CI_EOF, CI_ERROR, 0}
      ensures r == CI_ERROR ==> if asked < |io| && io[asked].Fail? && remain == 0 then !Stuck(Carried())
                                else remain > 0 && (NoFailure(writes) ==> used == |writes|)
      ensures r == CI_EOF || r == 0 ==> !Stuck(Carried()) && sent == old(sent + Pending() + Behind(io[asked..]))
      ensures r == CI_OK ==> asked' > asked || status > old(status)
                             || (status == old(status) && remain > 0 && (used > 0 || old(remain) == 0))
    {
      hide Pending, Behind, Ordered, Stuck, Again, Third;
      ghost var behind := Behind(io[asked..]);
      asked', again := asked, "";
      r, used := Flush(writes);
      Regroup(sent, Pending(), behind);
      if r == CI_ERROR { return; }
      Drained(sent, Pending(), behind);
      AtThird();
      again := Again();
      r, asked' := Advance(io, asked);
      Regroup(sent, behind, again);
      Regroup(sent, Pending(), Behind(io[asked'..]));
    }

    /** `send_remaining_response`: for every schedule of writes the stream is a part of what was due, and all of it
        on success, which enough writes enforce. Behind three header blocks there is no success: the third is sent
        again and again until the writes run out. */
    method SendRemaining(io: seq<Io>, writes: seq<int>) returns (r: int)
      requires Valid() && forall i :: 0 <= i < |io| ==> FitsChunk(io[i])
      modifies this, wbuf
      ensures Valid() && (r == CI_OK || r == CI_ERROR)
      ensures !old(Stuck(Carried())) ==>
                && sent <= old(sent + Pending() + Behind(io))
                && (r == CI_OK ==> sent == old(sent + Pending() + Behind(io)))
                && (NeverFails(io) && Enough(writes, old(|Pending() + Behind(io)|)) ==> r == CI_OK)
      ensures old(Stuck(Carried())) ==>
                && r == CI_ERROR && status <= SEND_HEAD3
                && (exists n: nat :: sent <= old(sent + Pending() + Behind(io)) + Repeat(Third(old(Carried())), n))
                && (NoFailure(writes) ==> |sent| >= |old(sent)| + Positives(writes))
    {
      hide Pending, Behind, Ordered, Stuck, Again, Repeat, Third, Positives;
      PositivesAll(writes);
      ghost var whole, third := sent + Pending() + Behind(io), Third(Carried());
      ghost var n: nat := 0;
      var asked: nat, used: nat := 0, 0;
      assert io[asked..] == io;
      RepeatIs(third, 0);
      AtThird();
      if status == SEND_EOF && remain == 0 { AtEnd(io); return CI_OK; }
      while true
        invariant Valid() && asked <= |io| && used <= |writes| && Carried() == old(Carried())
        invariant sent + Pending() + Behind(io[asked..]) == whole + Repeat(third, n)
        invariant !Stuck(Carried()) ==> n == 0
        invariant NoFailure(writes) ==> |sent| >= |old(sent)| + Positives(writes[..used])
        decreases |io| - asked, SEND_EOF - status, |writes| - used, if remain == 0 then 1 else 0
      {
        var u;
        ghost var again;
        r, asked, u, again := SendRound(io, asked, writes[used..]);
        PositivesUsed(writes, used, u);
        used := used + u;
        RepeatIs(third, 0);
        AtThird();
        if again != "" {
          RepeatIs(third, n);
          Regroup(whole, Repeat(third, n), third);
          n := n + 1;
        }
        Regroup(sent, Pending(), Behind(io[asked..]));
        if r == CI_ERROR { return; }
        if r != CI_OK { return CI_OK; }
      }
    }

    /** Only behind three header blocks is anything sent again, and there nothing else comes. */
    lemma AtThird()
      requires Ordered()
      ensures Again() == if status == SEND_HEAD3 then Third(Carried()) else ""
      ensures status == SEND_HEAD3 ==> Stuck(Carried())
      ensures Stuck(Carried()) ==> status <= SEND_HEAD3
    {
    }
  }

  function Third(entities: seq<Entity>): string {
    if Stuck(entities) then entities[2].block else ""
  }

  lemma RepeatIs(block: string, n: nat)
    ensures Repeat(block, 0) == "" && Repeat(block, n + 1) == Repeat(block, n) + block
  {
  }

  lemma Drained(sent: string, pending: string, behind: string)
    ensures pending == "" ==> sent + pending + behind == sent + behind
  {
  }

  lemma Regroup(a: string, b: string, c: string)
    ensures a + (b + c) == a + b + c && a <= a + b + c && a + "" == a
  {
  }

  predicate NeverFails(io: seq<Io>) {
    forall i :: 0 <= i < |io| ==> !io[i].Fail?
  }

  /** Bytes that the socket takes move from the block to the wire. */
  lemma Moved(sent: string, pending: string, k: nat)
    requires k <= |pending|
    ensures sent + pending[..k] + pending[k..] == sent + pending
  {
    assert pending == pending[..k] + pending[k..];
  }

  lemma TerminatorFits(partial: bool, original: int)
    requires original <= LONG_MAX
    ensures |Terminator(partial, original)| <= 64
  {
    assert Power(10, 4) == 10 * Power(10, 3) == 10_000;
    assert Power(10, 8) == 100 * Power(10, 6) == 10_000 * Power(10, 4);
    assert Power(10, 12) == 100 * Power(10, 10) == 10_000 * Power(10, 8);
    assert Power(10, 16) == 100 * Power(10, 14) == 10_000 * Power(10, 12);
    assert Power(10, 19) == 10 * Power(10, 18) == 1_000 * Power(10, 16);
    if partial && original >= 0 { DigitsLength(original, 10, 19); }
  }

  /** A whole response on the wire. */
  function Wire(head: string, entities: seq<Entity>, io: seq<Io>, last: string): string {
    head + HeaderWire(entities, 0) + if HasBody(entities) && !Stuck(entities) then BodyWire(io, last) else ""
  }

  /** Entities of these kinds, the first of them with these header blocks. */
  predicate Forms(entities: seq<Entity>, kinds: seq<Kind>, blocks: seq<string>) {
    && |blocks| <= |kinds| == |entities| && (forall i :: 0 <= i < |kinds| ==> entities[i].kind == kinds[i])
    && (forall i :: 0 <= i < |blocks| ==> entities[i].block == blocks[i])
  }

  /** What the responses of a RESPMOD and a REQMOD look like: the request head of a RESPMOD is dropped, the other head
      goes out behind the ICAP head, and then the body, if there is one. */
  lemma Shapes(head: string, entities: seq<Entity>, respmod: bool, io: seq<Io>, last: string)
    ensures forall a, b :: respmod && Forms(entities, [ReqHdr, ResHdr, ResBody], [a, b]) ==> Sends(head, entities, respmod, io, last, b, true)
    ensures forall b :: Forms(entities, [ResHdr, ResBody], [b]) ==> Sends(head, entities, respmod, io, last, b, true)
    ensures forall a :: !respmod && Forms(entities, [ReqHdr, ReqBody], [a]) ==> Sends(head, entities, respmod, io, last, a, true)
    ensures forall a, b :: respmod && Forms(entities, [ReqHdr, ResHdr, NullBody], [a, b]) ==> Sends(head, entities, respmod, io, last, b, false)
    ensures forall b :: Forms(entities, [ResHdr, NullBody], [b]) ==> Sends(head, entities, respmod, io, last, b, false)
    ensures forall a :: !respmod && Forms(entities, [ReqHdr, NullBody], [a]) ==> Sends(head, entities, respmod, io, last, a, false)
  {
    forall a, b, k | respmod && Forms(entities, [ReqHdr, ResHdr, k], [a, b]) && (k == ResBody || k == NullBody)
      ensures Sends(head, entities, respmod, io, last, b, k == ResBody)
    {
      ThreeEntities(head, entities, a, b, k, io, last);
    }
    forall b, h, k | Forms(entities, [h, k], [b]) && (h == ResHdr || (h == ReqHdr && !respmod))
                     && (k == ResBody || k == ReqBody || k == NullBody)
      ensures Sends(head, entities, respmod, io, last, b, k != NullBody)
    {
      TwoEntities(head, entities, respmod, h, b, k, io, last);
    }
  }

  /** The response is the head, this block, and the body or nothing. */
  predicate Sends(head: string, entities: seq<Entity>, respmod: bool, io: seq<Io>, last: string, block: string, body: bool) {
    var e := ResponseEntities(entities, respmod);
    !Stuck(e) && Wire(head, e, io, last) == head + block + if body then BodyWire(io, last) else ""
  }

  lemma ThreeEntities(head: string, entities: seq<Entity>, a: string, b: string, k: Kind, io: seq<Io>, last: string)
    requires Forms(entities, [ReqHdr, ResHdr, k], [a, b]) && (k == ResBody || k == NullBody)
    ensures Sends(head, entities, true, io, last, b, k == ResBody)
  {
    hide BodyWire;
    var e := entities[1..];
    assert entities[0].kind == ReqHdr && e[0] == entities[1] && e[1] == entities[2];
    assert e[0].kind == ResHdr && e[1].kind == k && e[0].block == b;
    HeaderWireStep(e, 0);
    HeaderWireStep(e, 1);
    assert b + "" == b;
  }

  lemma TwoEntities(head: string, entities: seq<Entity>, respmod: bool, h: Kind, b: string, k: Kind, io: seq<Io>, last: string)
    requires Forms(entities, [h, k], [b]) && (h == ResHdr || (h == ReqHdr && !respmod))
    requires k == ResBody || k == ReqBody || k == NullBody
    ensures Sends(head, entities, respmod, io, last, b, k != NullBody)
  {
    hide BodyWire;
    assert entities[0].kind == h && entities[1].kind == k && entities[0].block == b;
    HeaderWireStep(entities, 0);
    HeaderWireStep(entities, 1);
    assert b + "" == b;
  }

  /** Wire order, from the first byte: whatever the socket takes at once, head, header blocks, chunks and terminator
      go out in order, each byte once, and all of them if the writes suffice. This is so exactly if there are not
      three header blocks in a row; with three, the third follows itself for ever. */
  method WireOrder(head: string, entities: seq<Entity>, respmod: bool, partial: bool, original: int, io: seq<Io>,
                   writes: seq<int>)
    returns (r: int, sent: string)
    requires original <= LONG_MAX && forall i :: 0 <= i < |io| ==> FitsChunk(io[i])
    requires forall i :: 0 <= i < |entities| ==> Packed(entities[i])
    ensures r == CI_OK || r == CI_ERROR
    ensures var e := ResponseEntities(entities, respmod); var wire := Wire(head, e, io, Terminator(partial, original));
            && (!Stuck(e) ==> sent <= wire && (r == CI_OK ==> sent == wire))
            && (Stuck(e) ==> (exists n: nat :: sent <= wire + Repeat(e[2].block, n))
                             && (NoFailure(writes) ==> |sent| >= Positives(writes)))
            && (NeverFails(io) && Enough(writes, |wire|) ==> (r == CI_OK <==> !Stuck(e)))
    ensures forall a, b :: respmod && Forms(entities, [ReqHdr, ResHdr, ResBody], [a, b]) && r == CI_OK ==>
              sent == head + b + BodyWire(io, Terminator(partial, original))
    ensures forall b :: Forms(entities, [ResHdr, ResBody], [b]) && r == CI_OK ==>
              sent == head + b + BodyWire(io, Terminator(partial, original))
    ensures forall a :: !respmod && Forms(entities, [ReqHdr, ReqBody], [a]) && r == CI_OK ==>
              sent == head + a + BodyWire(io, Terminator(partial, original))
    ensures forall a, b :: respmod && Forms(entities, [ReqHdr, ResHdr, NullBody], [a, b]) && r == CI_OK ==> sent == head + b
    ensures forall b :: Forms(entities, [ResHdr, NullBody], [b]) && r == CI_OK ==> sent == head + b
    ensures forall a :: !respmod && Forms(entities, [ReqHdr, NullBody], [a]) && r == CI_OK ==> sent == head + a
  {
    Shapes(head, entities, respmod, io, Terminator(partial, original));
    hide BodyWire, Terminator, HeaderWire, Repeat;
    var sender := new Sender(head, entities, respmod, partial, original);
    ghost var e := ResponseEntities(entities, respmod);
    ghost var wire := Wire(head, e, io, Terminator(partial, original));
    assert sender.sent + sender.Pending() + sender.Behind(io) == wire;
    assert sender.Pending() + sender.Behind(io) == wire;
    r := sender.SendRemaining(io, writes);
    sent := sender.sent;
  }
}
