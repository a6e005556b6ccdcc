/** How a request is answered: the preview, 204 and 206 decisions of `do_request` and the functions below it. The
    service, the client and the network are adversaries: whatever they can do is a parameter. */
module ReplyMachine {

  /** What goes over the wire at the start of an answer: an interim 100 or the first bytes of a final status line. */
  datatype Event = Continue | Final(code: int)

  const CI_MOD_DONE: int := 1
  const CI_MOD_CONTINUE: int := 100
  const CI_MOD_ALLOW204: int := 204
  const CI_MOD_ALLOW206: int := 206

  /** A service handler: absent, or called with some answer; it may lock or unlock the response data. */
  datatype Handler = Absent | Answers(code: int, locks: bool)

  /** One round of the loop in `get_send_body`: the read can fail; if a block is waiting, the socket takes `write` of
      its bytes, or fails, and `drains` tells whether that was all of it; the service leaves the data locked or not,
      and may have produced more; the response may advance; the round can fail after the service had its turn. */
  datatype Round = Round(readFails: bool, write: int, drains: bool, locks: bool, advance: nat, refills: bool,
                         failsAfter: bool)

  /** How far a response has come: not begun, its head ready to be sent, or some of the head on the wire. */
  datatype Phase = Idle | Ready | Out

  /** The phase after the rounds of `get_send_body`. The head is made ready in the first round that finds the data
      unlocked, and leaves in a later one that writes. */
  function After(rounds: seq<Round>, parseOnly: bool, locked: bool, phase: Phase): Phase {
    if phase.Out? || rounds == [] || rounds[0].readFails || (phase.Ready? && rounds[0].write < 0) then phase
    else
      var next := NextPhase(rounds[0], locked, phase);
      if rounds[0].failsAfter then next
      else After(rounds[1..], parseOnly, if parseOnly then locked else rounds[0].locks, next)
  }

  /** What one round makes of the phase, if neither its read nor its write fails. */
  function NextPhase(round: Round, locked: bool, phase: Phase): Phase {
    match phase
    case Idle => if locked then Idle else Ready
    case Ready => if round.write > 0 then Out else Ready
    case Out => Out
  }

  lemma AfterRound(rounds: seq<Round>, i: nat, parseOnly: bool, locked: bool, phase: Phase)
    requires i < |rounds|
    ensures var round := rounds[i]; var next := NextPhase(round, locked, phase);
            After(rounds[i..], parseOnly, locked, phase)
            == if round.readFails || (phase.Ready? && round.write < 0) then phase
               else if round.failsAfter then next
               else After(rounds[i + 1..], parseOnly, if parseOnly then locked else round.locks, next)
    ensures phase.Out? ==> After(rounds[i..], parseOnly, locked, phase) == Out
  {
    assert rounds[i..][1..] == rounds[i + 1..];
  }

  lemma NoMoreRounds(parseOnly: bool, locked: bool, phase: Phase)
    ensures After([], parseOnly, locked, phase) == phase
  {
  }

  /** Some round writes, and nothing goes wrong before it. */
  predicate WritesFrom(rounds: seq<Round>, first: nat) {
    exists i :: first <= i < |rounds| && !rounds[i].readFails && rounds[i].write > 0 && QuietUntil(rounds, first, i)
  }

  predicate QuietUntil(rounds: seq<Round>, first: nat, i: nat)
    requires i <= |rounds|
  {
    forall j :: 0 <= j < i ==> !rounds[j].readFails && !rounds[j].failsAfter && (j >= first ==> rounds[j].write >= 0)
  }

  lemma {:induction false} ReadyLeaves(rounds: seq<Round>, locked: bool)
    ensures After(rounds, true, locked, Ready).Out? <==> WritesFrom(rounds, 0)
  {
    if rounds != [] {
      var round, rest := rounds[0], rounds[1..];
      ReadyLeaves(rest, locked);
      if WritesFrom(rest, 0) && !round.readFails && round.write == 0 && !round.failsAfter {
        var i :| 0 <= i < |rest| && !rest[i].readFails && rest[i].write > 0 && QuietUntil(rest, 0, i);
        assert rounds[i + 1] == rest[i] && forall j :: 0 < j < i + 1 ==> rounds[j] == rest[j - 1];
        assert QuietUntil(rounds, 0, i + 1);
      }
      if WritesFrom(rounds, 0) && !(!round.readFails && round.write > 0) {
        var i :| 0 <= i < |rounds| && !rounds[i].readFails && rounds[i].write > 0 && QuietUntil(rounds, 0, i);
        assert rest[i - 1] == rounds[i] && QuietUntil(rest, 0, i - 1);
      }
      if !round.readFails && round.write > 0 { assert QuietUntil(rounds, 0, 0); }
    }
  }

  /** Outside the service's hands and with unlocked data, the head leaves exactly when some round after the first one
      writes. */
  lemma UnlockedLeaves(rounds: seq<Round>)
    ensures After(rounds, true, false, Idle).Out? <==> WritesFrom(rounds, 1)
  {
    if rounds != [] {
      var rest := rounds[1..];
      ReadyLeaves(rest, false);
      if WritesFrom(rest, 0) && !rounds[0].readFails && !rounds[0].failsAfter {
        var i :| 0 <= i < |rest| && !rest[i].readFails && rest[i].write > 0 && QuietUntil(rest, 0, i);
        assert rounds[i + 1] == rest[i] && forall j :: 0 < j < i + 1 ==> rounds[j] == rest[j - 1];
        assert QuietUntil(rounds, 1, i + 1);
      }
      if WritesFrom(rounds, 1) {
        var i :| 1 <= i < |rounds| && !rounds[i].readFails && rounds[i].write > 0 && QuietUntil(rounds, 1, i);
        assert rest[i - 1] == rounds[i] && QuietUntil(rest, 0, i - 1);
      }
    }
  }

  /** A round in which neither the socket nor the service fails. */
  predicate Fine(round: Round) {
    !round.readFails && round.write >= 0 && !round.failsAfter
  }

  predicate AllFine(rounds: seq<Round>) {
    forall i :: 0 <= i < |rounds| ==> Fine(rounds[i])
  }

  /** Locked data stays locked while the body is only parsed. */
  lemma {:induction false} LockedStaysIdle(rounds: seq<Round>)
    ensures After(rounds, true, true, Idle).Idle?
  {
    if rounds != [] { LockedStaysIdle(rounds[1..]); }
  }

  /** In rounds that do not fail, a response is begun exactly if one of them finds the data unlocked. */
  lemma {:induction false} BegunExactly(rounds: seq<Round>, locked: bool)
    requires AllFine(rounds)
    ensures After(rounds, false, locked, Idle).Idle?
       <==> (rounds == [] || locked) && forall i :: 0 <= i < |rounds| - 1 ==> rounds[i].locks
  {
    if rounds != [] {
      var rest := rounds[1..];
      assert Fine(rounds[0]) && forall i :: 0 <= i < |rest| ==> rest[i] == rounds[i + 1];
      BegunExactly(rest, rounds[0].locks);
      ReadyStays(rest, rounds[0].locks);
    }
  }

  lemma {:induction false} ReadyStays(rounds: seq<Round>, locked: bool)
    ensures !After(rounds, false, locked, Ready).Idle?
  {
    if rounds != [] { ReadyStays(rounds[1..], rounds[0].locks); }
  }

  datatype PreviewRead = PreviewOk | PreviewEof | PreviewError

  datatype Method = Options(ok: bool) | Modification | Unknown

  /** What the preview step of a request comes to: an error, an answer without content, a partial answer, or a full one,
      for which a body may have to be read. */
  datatype Decision = Refuse(code: int) | NoContent | Partial | Proceed(body: bool)

  /** Everything that the outside world contributes to one request. */
  datatype World = World(
    headerStatus: int,             // what parse_header returns; 100 is success
    headerBytes: bool,             // some header bytes were read
    serviceReady: bool,
    denied: bool,
    authRequired: bool,
    encapsulatedOk: bool,
    locksAtInit: bool,             // mod_init_request_data leaves the data locked
    verb: Method,
    previewRead: PreviewRead,
    previewHandler: Handler,
    writeOk: bool,                 // the blocking write of a complete answer succeeds
    rounds: seq<Round>,            // get_send_body
    bodyComplete: bool,            // and whether it ends with all of the body
    endHandler: Handler,
    hasServiceIo: bool,
    headGoes: bool,                // at least a part of a waiting head gets out in the end
    restOk: bool)                  // sending the rest of the response succeeds

  datatype Outcome = Ok | Eof | Error

  class Request {
    const preview: int
    const allow204: bool
    const allow206: bool
    const hasBody: bool
    const allow204As200: bool      // ALLOW204_AS_200OK_ZERO_ENCAPS
    const fakeAllow204: bool       // FAKE_ALLOW204
    var returnCode: int
    var started: nat               // req->status: 0 is SEND_NOTHING, 6 is SEND_EOF
    var prepared: bool             // a response head is ready, and nothing of it has been written
    var headCode: int              // its status code
    var remaining: bool            // remain_send_block_bytes is not zero
    var echo: bool                 // echo_body is set
    var dataLocked: bool
    var keepalive: bool
    var sent: seq<Event>

    constructor (preview: int, allow204: bool, allow206: bool, hasBody: bool, allow204As200: bool, fakeAllow204: bool)
      ensures this.preview == preview && this.allow204 == allow204 && this.allow206 == allow206
      ensures this.hasBody == hasBody && this.allow204As200 == allow204As200 && this.fakeAllow204 == fakeAllow204
      ensures returnCode == -1 && Untouched() && dataLocked && keepalive && sent == []
    {
      this.preview, this.allow204, this.allow206, this.hasBody := preview, allow204, allow206, hasBody;
      this.allow204As200, this.fakeAllow204 := allow204As200, fakeAllow204;
      returnCode, started, dataLocked, keepalive, sent := -1, 0, true, true, [];
      prepared, headCode, remaining, echo := false, 0, false, false;
    }

    // ----- the invariant

    /** Nothing is sent behind a final status line, and at most one interim line before it. */
    ghost predicate Orderly()
      reads this`sent
    {
      sent == [] || sent == [Continue] || (|sent| == 1 && sent[0].Final?)
      || (|sent| == 2 && sent[0] == Continue && sent[1].Final?)
    }

    ghost predicate Answered()
      reads this`sent
    {
      exists i :: 0 <= i < |sent| && sent[i].Final?
    }

    /** A code that may be sent to this client. */
    ghost predicate Permitted(code: int) {
      (code == 204 ==> preview >= 0 || allow204) && (code == 206 ==> allow206)
    }

    ghost predicate AllPermitted()
      reads this`sent
    {
      forall i :: 0 <= i < |sent| && sent[i].Final? ==> Permitted(sent[i].code)
    }

    /** No response has been begun. */
    ghost predicate Untouched()
      reads this`started, this`prepared, this`remaining
    {
      started == 0 && !prepared && !remaining
    }

    /** A response has been begun exactly when a final status line is out or waits to go out. */
    ghost predicate Consistent()
      reads this`sent, this`started, this`prepared, this`headCode, this`remaining
    {
      && Orderly() && AllPermitted() && (started != 0 <==> Answered() || prepared) && (started == 0 ==> !remaining)
      && (prepared ==> !Answered() && remaining && Permitted(headCode))
    }

    // ----- sending

    /** `ec_responce`: a complete answer in one write. */
    method Respond(code: int, writeOk: bool) returns (ok: bool)
      modifies this`returnCode, this`started, this`sent
      ensures ok == writeOk && started == 6
      ensures returnCode == if code == 204 && allow204As200 then 200 else code
      ensures sent == old(sent) + [Final(returnCode)] && Answered()
    {
      returnCode := if code == 204 && allow204As200 then 200 else code;
      sent := sent + [Final(returnCode)];
      started := 6;
      ok := writeOk;
      assert sent[|sent| - 1].Final?;
    }

    /** `ec_responce_simple` with 100. */
    method RespondContinue()
      modifies this`returnCode, this`sent
      ensures returnCode == 100 && sent == old(sent) + [Continue]
    {
      sent := sent + [Continue];
      returnCode := 100;
    }

    /** `update_send_status`: the first call makes the response head ready, with the return code of the moment. */
    method UpdateSendStatus(advance: nat, refills: bool)
      requires !remaining
      modifies this`started, this`prepared, this`headCode, this`remaining
      ensures if old(started) == 0 then started == 1 && prepared && remaining && headCode == returnCode
              else started >= old(started) && prepared == old(prepared) && headCode == old(headCode)
    {
      if started == 0 {
        started, prepared, headCode, remaining := 1, true, returnCode, true;
      } else {
        if started <= advance <= 6 { started := advance; }
        remaining := refills;
      }
    }

    /** `send_current_block_data`: a status line is out as soon as some of its bytes are. */
    method SendCurrentBlock(write: int, drains: bool) returns (ok: bool)
      requires prepared ==> remaining
      modifies this`prepared, this`remaining, this`sent
      ensures prepared ==> remaining
      ensures ok <==> !old(remaining) || write >= 0
      ensures sent == if old(prepared) && write > 0 then old(sent) + [Final(headCode)] else old(sent)
      ensures prepared == (old(prepared) && write <= 0)
      ensures !old(remaining) ==> !remaining
    {
      if !remaining { return true; }
      if write < 0 { return false; }
      if write > 0 {
        if prepared { sent, prepared := sent + [Final(headCode)], false; }
        remaining := !drains;
      }
      ok := true;
    }

    /** The phase of the response that `before` was sent ahead of. */
    ghost predicate InPhase(phase: Phase, before: seq<Event>)
      reads this
    {
      match phase
      case Idle => Untouched() && sent == before
      case Ready => started == 1 && prepared && remaining && headCode == returnCode && sent == before
      case Out => started != 0 && !prepared && sent == before + [Final(returnCode)]
    }

    /** One round of `get_send_body`. */
    method BodyRound(round: Round, parseOnly: bool, ghost phase: Phase, ghost before: seq<Event>)
      returns (ok: bool, ghost phase': Phase)
      requires InPhase(phase, before)
      modifies this`started, this`dataLocked, this`sent, this`prepared, this`headCode, this`remaining
      ensures InPhase(phase', before)
      ensures phase' == if round.readFails || (phase.Ready? && round.write < 0) then phase
                        else NextPhase(round, old(dataLocked), phase)
      ensures ok ==> !round.readFails && !round.failsAfter && !(phase.Ready? && round.write < 0)
                     && dataLocked == if parseOnly then old(dataLocked) else round.locks
      ensures Fine(round) ==> ok
      ensures !ok && !round.readFails && !(phase.Ready? && round.write < 0) && !phase.Out? ==> round.failsAfter
    {
      phase' := phase;
      if round.readFails { return false, phase'; }
      ok := SendCurrentBlock(round.write, round.drains);
      if !ok { return; }
      if !dataLocked && !remaining { UpdateSendStatus(round.advance, round.refills); }
      phase' := NextPhase(round, dataLocked, phase);
      if !parseOnly { dataLocked := round.locks; }
      if started == 5 && round.refills { remaining := true; }
      ok := !round.failsAfter;
    }

    /** `get_send_body`, which forgets any response that has been started. */
    method GetSendBody(parseOnly: bool, serviceIo: bool, rounds: seq<Round>, bodyComplete: bool) returns (r: Outcome)
      requires !prepared && !remaining
      modifies this`started, this`dataLocked, this`sent, this`prepared, this`headCode, this`remaining
      ensures r == Ok || r == Error
      ensures !parseOnly && !serviceIo && !echo ==> r == Error && unchanged(this)
      ensures parseOnly || serviceIo || echo ==>
                InPhase(After(rounds, parseOnly, old(dataLocked), Idle), old(sent))
      ensures (parseOnly || serviceIo || echo) && AllFine(rounds) && bodyComplete ==> r == Ok
    {
      hide After;
      if !parseOnly && !serviceIo && !echo { return Error; }
      started := 0;
      var i := 0;
      ghost var phase := Idle;
      assert rounds[0..] == rounds;
      while i < |rounds|
        invariant 0 <= i <= |rounds| && InPhase(phase, old(sent))
        invariant After(rounds, parseOnly, old(dataLocked), Idle) == After(rounds[i..], parseOnly, dataLocked, phase)
      {
        AfterRound(rounds, i, parseOnly, dataLocked, phase);
        var ok;
        ok, phase := BodyRound(rounds[i], parseOnly, phase, old(sent));
        if !ok { return Error; }
        i := i + 1;
      }
      assert rounds[i..] == [];
      NoMoreRounds(parseOnly, dataLocked, phase);
      r := if bodyComplete then Ok else Error;
    }

    /** `send_remaining_response`. */
    method SendRemaining(serviceIo: bool, headGoes: bool, restOk: bool) returns (r: Outcome)
      requires Consistent() && Permitted(returnCode)
      modifies this`started, this`sent, this`prepared, this`headCode, this`remaining
      ensures (r == Ok || r == Error) && Consistent()
      ensures old(sent) <= sent && (Continue in sent <==> Continue in old(sent))
      ensures r == Ok ==> Answered()
      ensures r == Ok <==> (serviceIo || echo) && (restOk || old(started == 6 && !remaining))
      ensures || sent == old(sent)
              || (old(started) == 0 && sent == old(sent) + [Final(returnCode)])
              || (old(prepared) && sent == old(sent) + [Final(old(headCode))])
    {
      if !serviceIo && !echo { return Error; }
      if started == 6 && !remaining { return Ok; }
      if !remaining { UpdateSendStatus(6, false); }
      if headGoes || restOk {
        ghost var before := sent;
        var _ := SendCurrentBlock(1, restOk);
        assert sent == before || sent[|sent| - 1].Final?;
      }
      r := if restOk then Ok else Error;
    }

    // ----- the decisions

    /** What the preview handler answers; without one the service wants everything. */
    ghost function PreviewAnswer(w: World): int {
      if w.previewHandler.Absent? then CI_MOD_CONTINUE else w.previewHandler.code
    }

    /** An answer of the preview handler that this request allows. */
    ghost predicate Accepts(w: World) {
      var answer := PreviewAnswer(w);
      || answer == CI_MOD_CONTINUE
      || (answer == CI_MOD_ALLOW204 && (preview >= 0 || allow204 || !hasBody || fakeAllow204))
      || (answer == CI_MOD_ALLOW206 && allow206 && (preview >= 0 || allow204))
    }

    /** Nothing goes wrong behind the preview step. */
    ghost predicate Fluent(w: World) {
      && AllFine(w.rounds) && w.bodyComplete && w.restOk
      && (w.endHandler.Absent? || w.endHandler.code == CI_MOD_DONE)
    }

    /** The service gives answers that it may give, and network and client do their part to the end. */
    ghost predicate Smooth(w: World) {
      Accepts(w) && Fluent(w) && w.hasServiceIo && w.writeOk && !w.previewRead.PreviewError?
    }

    /** The code of an answer without content. */
    ghost function NoContentCode(): int {
      if allow204As200 then 200 else 204
    }

    /** The preview step, decided. */
    ghost function Decide(w: World): Decision {
      var answer := PreviewAnswer(w);
      if preview >= 0 then
        if hasBody && w.previewRead.PreviewError? then Refuse(408)
        else if answer == CI_MOD_ALLOW204 then NoContent
        else if answer == CI_MOD_ALLOW206 && allow206 then Partial
        else if answer == CI_MOD_CONTINUE then Proceed(hasBody && w.previewRead.PreviewOk?)
        else Refuse(500)
      else if answer == CI_MOD_CONTINUE then Proceed(hasBody)
      else if answer == CI_MOD_ALLOW204 && allow204 then NoContent
      else if answer == CI_MOD_ALLOW204 && (!hasBody || fakeAllow204) then Proceed(hasBody)
      else if answer == CI_MOD_ALLOW206 && allow204 && allow206 then Partial
      else Refuse(500)
    }

    /** Whether the data is locked behind the preview step. */
    ghost predicate LockedThen(w: World, init: bool) {
      if w.previewHandler.Answers? then w.previewHandler.locks else init
    }

    /** The final code, once `code` is what the response would be sent with: the end-of-data handler can change it as
        long as no response has been begun. */
    ghost function LateCode(w: World, code: int, begun: bool): int {
      if begun || w.endHandler.Absent? || w.endHandler.code == CI_MOD_DONE then code
      else if w.endHandler.code == CI_MOD_ALLOW204 && allow204 then NoContentCode()
      else if w.endHandler.code == CI_MOD_ALLOW206 && allow204 && allow206 then 206
      else 500
    }

    /** The final code of a modification request; `init` tells whether the data is locked at its start. */
    ghost function ModificationCode(w: World, init: bool): int {
      match Decide(w)
      case Refuse(code) => code
      case NoContent => NoContentCode()
      case Partial => LateCode(w, 206, false)
      case Proceed(body) => LateCode(w, 200, body && !After(w.rounds, false, LockedThen(w, init), Idle).Idle?)
    }

    /** What goes out before the final status line. */
    ghost function Lead(w: World): seq<Event> {
      if preview >= 0 && Decide(w) == Proceed(true) then [Continue] else []
    }

    /** The end-of-data handler gives an answer of its own: without content, or an error. */
    ghost predicate AnswersLate(w: World) {
      && w.endHandler.Answers? && w.endHandler.code != CI_MOD_DONE
      && !(w.endHandler.code == CI_MOD_ALLOW206 && allow204 && allow206)
    }

    /** The decision, case by case. */
    lemma Decided(w: World)
      ensures var d := Decide(w);
              var h := w.previewHandler;
              var failed := preview >= 0 && hasBody && w.previewRead == PreviewError;
              var partial := allow206 && (preview >= 0 || allow204);
              var full := h == Absent || h.code == 100
                          || (h.code == 204 && preview < 0 && !allow204 && (!hasBody || fakeAllow204));
              && NoContentCode() == (if allow204As200 then 200 else 204)
              && (failed ==> d == Refuse(408))
              && (!failed && h.Answers? && h.code == 204 && (preview >= 0 || allow204) ==> d == NoContent)
              && (!failed && h.Answers? && h.code == 206 && partial ==> d == Partial)
              && (!failed && full ==> d == Proceed(hasBody && (preview < 0 || w.previewRead == PreviewOk)))
              && (!failed && !full && !(h.code == 204 && (preview >= 0 || allow204)) && !(h.code == 206 && partial) ==>
                    d == Refuse(500))
              && Lead(w) == (if preview >= 0 && hasBody && w.previewRead == PreviewOk && (h == Absent || h.code == 100)
                             then [Continue] else [])
    {
    }

    /** The code of the end-of-data handler, case by case. */
    lemma DecidedLate(w: World, code: int)
      ensures var e := w.endHandler;
              && LateCode(w, code, true) == code
              && (e == Absent || e.code == 1 ==> LateCode(w, code, false) == code && !AnswersLate(w))
              && (e.Answers? && e.code != 1 ==>
                    if e.code == 204 && allow204 then LateCode(w, code, false) == NoContentCode() && AnswersLate(w)
                    else if e.code == 206 && allow204 && allow206 then LateCode(w, code, false) == 206 && !AnswersLate(w)
                    else LateCode(w, code, false) == 500 && AnswersLate(w))
    {
    }

    /** The body has been read without failure, and the service has kept its data locked up to the last round. */
    ghost predicate Held(w: World, init: bool) {
      && w.hasServiceIo && w.bodyComplete && AllFine(w.rounds) && After(w.rounds, false, LockedThen(w, init), Idle).Idle?
    }

    /** Every final status line on the wire has this code. */
    ghost predicate AllCodes(code: int)
      reads this`sent
    {
      forall i :: 0 <= i < |sent| && sent[i].Final? ==> sent[i].code == code
    }

    /** `do_request_preview`. */
    method DoRequestPreview(w: World) returns (r: Outcome)
      requires sent == [] && Untouched() && preview >= 0
      modifies this
      ensures Consistent() && !prepared && !remaining
      ensures Continue in sent <==> hasBody && w.previewRead.PreviewOk? && PreviewAnswer(w) == CI_MOD_CONTINUE
      ensures var d := Decide(w);
              && (d.Refuse? ==> r == Error && sent == [Final(d.code)])
              && (d.NoContent? ==> r == (if w.writeOk then Ok else Error) && returnCode == NoContentCode()
                                   && sent == [Final(returnCode)])
              && (d.Partial? ==> r == Ok && sent == [] && returnCode == 206 && Untouched())
              && (d.Proceed? ==> Untouched() && if d.body then r == Ok && sent == [Continue] && returnCode == 100
                                                else r == Eof && sent == [])
              && (d.Partial? || d.Proceed? ==> dataLocked == LockedThen(w, old(dataLocked)))
      ensures Accepts(w) && w.writeOk && !(hasBody && w.previewRead.PreviewError?) ==> r != Error
      ensures keepalive == (old(keepalive) && r != Error)
    {
      var read := if hasBody then w.previewRead else PreviewEof;
      if read.PreviewError? {
        keepalive := false;
        var _ := Respond(408, w.writeOk);
        return Error;
      }
      var res := CI_MOD_CONTINUE;
      if w.previewHandler.Answers? {
        res := w.previewHandler.code;
        dataLocked := w.previewHandler.locks;
      }
      if res == CI_MOD_ALLOW204 {
        var ok := Respond(204, w.writeOk);
        if !ok { keepalive := false; return Error; }
        return Ok;
      }
      if res == CI_MOD_ALLOW206 && allow206 {
        returnCode := 206;
        return Ok;
      }
      if res != CI_MOD_CONTINUE {
        keepalive := false;
        var _ := Respond(500, w.writeOk);
        return Error;
      }
      if read.PreviewEof? { return Eof; }
      RespondContinue();
      return Ok;
    }

    /** A handler that answers 204 outside a preview and leaves the data unlocked: the loop that only parses the body
        makes another response ready, and sends it if the body does not end before the socket takes some bytes. */
    ghost predicate Twice(w: World) {
      && w.previewHandler.Answers? && w.previewHandler.code == CI_MOD_ALLOW204 && !w.previewHandler.locks
      && allow204 && w.writeOk && hasBody && WritesFrom(w.rounds, 1)
    }

    lemma TwiceIs(w: World)
      ensures Twice(w) <==> && w.previewHandler.Answers? && w.previewHandler.code == 204 && allow204 && w.writeOk && hasBody
                            && !w.previewHandler.locks && WritesFrom(w.rounds, 1)
    {
    }

    /** `do_fake_preview`. */
    method DoFakePreview(w: World) returns (r: Outcome)
      requires sent == [] && Untouched() && preview < 0
      modifies this
      ensures r == Ok || r == Error
      ensures AllPermitted() && Continue !in sent
      ensures Twice(w) ==> Decide(w).NoContent? && sent == [Final(NoContentCode()), Final(NoContentCode())]
      ensures var d := Decide(w);
              && (d.Refuse? ==> r == Error && sent == [Final(d.code)])
              && (d.NoContent? ==> (r == Ok ==> returnCode == 204) && (!Twice(w) ==> sent == [Final(NoContentCode())]))
              && (d.Partial? ==> r == Ok && sent == [] && returnCode == 206 && Untouched())
              && (d.Proceed? ==> r == Ok && sent == [] && returnCode == (if d.body then 100 else 200) && Untouched())
              && (d.Partial? || d.Proceed? ==> dataLocked == LockedThen(w, old(dataLocked)))
      ensures Accepts(w) && w.writeOk && AllFine(w.rounds) && w.bodyComplete ==> r == Ok
      ensures keepalive == (old(keepalive) && (r != Error || (Decide(w).NoContent? && w.writeOk)))
    {
      hide After, WritesFrom;
      if w.previewHandler.Absent? {
        returnCode := if hasBody then 100 else 200;
        return Ok;
      }
      var res := w.previewHandler.code;
      dataLocked := w.previewHandler.locks;
      if res == CI_MOD_ALLOW204 && allow204 {
        var ok := Respond(204, w.writeOk);
        if !ok { keepalive := false; return Error; }
        if hasBody {
          LockedStaysIdle(w.rounds);
          UnlockedLeaves(w.rounds);
          r := GetSendBody(true, w.hasServiceIo, w.rounds, w.bodyComplete);
          if r == Error { return; }
        }
        returnCode := 204;
        return Ok;
      }
      if res == CI_MOD_ALLOW204 {
        if hasBody {
          if fakeAllow204 {
            echo, returnCode := true, 100;
            return Ok;
          }
        } else {
          returnCode := 200;
          return Ok;
        }
      }
      if res == CI_MOD_ALLOW206 && allow204 && allow206 {
        returnCode := 206;
        return Ok;
      }
      if res == CI_MOD_CONTINUE {
        returnCode := if hasBody then 100 else 200;
        return Ok;
      }
      keepalive := false;
      var _ := Respond(500, w.writeOk);
      r := Error;
    }

    /** `do_end_of_data`. */
    method DoEndOfData(w: World) returns (r: Outcome)
      requires Consistent() && (returnCode == 200 || (returnCode == 206 && allow206))
      modifies this`returnCode, this`started, this`dataLocked, this`keepalive, this`sent
      ensures Consistent() && (r == Ok || r == Error)
      ensures old(sent) <= sent && |sent| <= |old(sent)| + 1 && (Continue in sent <==> Continue in old(sent))
      ensures r == Ok ==> if returnCode == 204 then Answered() else returnCode == 200 || (returnCode == 206 && allow206)
      ensures w.endHandler.Absent? || w.endHandler.code == CI_MOD_DONE ==> r == Ok
      ensures r == Ok ==> keepalive == old(keepalive)
      ensures sent == old(sent) || (old(started) == 0 && sent == old(sent) + [Final(LateCode(w, old(returnCode), false))])
      ensures old(started) == 0 && sent == old(sent) ==>
                started == 0 && r == Ok && returnCode == LateCode(w, old(returnCode), false) && !AnswersLate(w)
      ensures old(started) != 0 ==> started == old(started) && returnCode == old(returnCode)
    {
      if w.endHandler.Absent? { return Ok; }
      var res := w.endHandler.code;
      dataLocked := w.endHandler.locks;
      if res == CI_MOD_ALLOW204 && allow204 && started == 0 {
        var ok := Respond(204, w.writeOk);
        return if ok then Ok else Error;
      }
      if res == CI_MOD_ALLOW206 && allow204 && allow206 && started == 0 {
        returnCode := 206;
        return Ok;
      }
      if res != CI_MOD_DONE {
        if started == 0 {
          keepalive := false;
          var _ := Respond(500, w.writeOk);
        }
        return Error;
      }
      r := Ok;
    }

    // ----- a whole request

    ghost predicate Served(w: World) {
      w.headerStatus == 100 && w.serviceReady && !w.denied && w.encapsulatedOk && w.verb.Modification?
    }

    /** The code of the final status line. */
    ghost function FinalCode(w: World): int {
      if w.headerStatus != 100 then w.headerStatus
      else if !w.serviceReady then 500
      else if w.denied then (if w.authRequired then 407 else 403)
      else if !w.encapsulatedOk then 400
      else if w.verb.Options? then (if w.verb.ok then 200 else 500)
      else ModificationCode(w, w.locksAtInit)
    }

    /** What a modification request is answered with, in terms of what the service, the client and the network did:
        an unreadable preview, the answers of the preview handler inside and outside a preview, and those of the
        end-of-data handler when nothing has been begun. */
    ghost predicate AsAsked(w: World)
      reads this`sent
    {
      var noContent := if allow204As200 then 200 else 204;
      var h, e := w.previewHandler, w.endHandler;
      var failed := preview >= 0 && hasBody && w.previewRead == PreviewError;
      var partial := allow206 && (preview >= 0 || allow204);
      var full := h == Absent || h.code == 100
                  || (h.code == 204 && preview < 0 && !allow204 && (!hasBody || fakeAllow204));
      var lead := if preview >= 0 && hasBody && w.previewRead == PreviewOk && (h == Absent || h.code == 100)
                  then [Continue] else [];
      var body := hasBody && (preview < 0 || w.previewRead == PreviewOk);
      var fluent := w.hasServiceIo && w.bodyComplete && forall i :: 0 <= i < |w.rounds| ==>
                      !w.rounds[i].readFails && w.rounds[i].write >= 0 && !w.rounds[i].failsAfter;
      var held := (w.rounds == [] || if h.Answers? then h.locks else w.locksAtInit)
                  && forall i :: 0 <= i < |w.rounds| - 1 ==> w.rounds[i].locks;
      var quiet := e == Absent || e.code == 1;
      var late := if quiet then 0 else if e.code == 204 && allow204 then noContent
                  else if e.code == 206 && allow204 && allow206 then 206 else 500;
      var goes := late == noContent || late == 500 || (w.hasServiceIo && w.restOk);
      && (failed ==> sent == [Final(408)])
      && (!failed && h.Answers? && h.code == 204 && preview >= 0 ==> sent == [Final(noContent)])
      && (h.Answers? && h.code == 204 && preview < 0 && allow204 ==>
            sent == if w.writeOk && hasBody && !h.locks && WritesFrom(w.rounds, 1) then [Final(noContent), Final(noContent)]
                    else [Final(noContent)])
      && (!failed && h.Answers? && h.code == 206 && partial && goes ==> sent == [Final(if quiet then 206 else late)])
      && (!failed && full && !body && goes ==> sent == [Final(if quiet then 200 else late)])
      && (!failed && full && body && fluent && held && goes ==> sent == lead + [Final(if quiet then 200 else late)])
      && (!failed && full && body && fluent && quiet && w.restOk ==> sent == lead + [Final(200)])
      && (!failed && full && body && fluent && !held ==> sent == lead || sent == lead + [Final(200)])
      && (!failed && !full && !(h.code == 204 && (preview >= 0 || allow204)) && !(h.code == 206 && partial) ==>
            sent == [Final(500)])
    }

    lemma WhenNoContent(w: World)
      ensures preview < 0 && Decide(w).NoContent? ==> allow204 && w.previewHandler.Answers? && w.previewHandler.code == 204
    {
    }

    /** The decision carried out is what was asked for. */
    lemma CarriedOut(w: World)
      requires sent == if preview < 0 && Twice(w) then [Final(NoContentCode()), Final(NoContentCode())]
                       else Lead(w) + if Answered() then [Final(ModificationCode(w, w.locksAtInit))] else []
      requires Decide(w).Refuse? || Decide(w).NoContent? ==> Answered()
      requires AnswersLate(w) || (w.hasServiceIo && w.restOk) ==>
                 (Decide(w).Partial? || Decide(w) == Proceed(false) || (Decide(w).Proceed? && Held(w, w.locksAtInit)) ==> Answered())
      requires (Decide(w).Partial? || Decide(w).Proceed?) && w.hasServiceIo && Fluent(w) ==> Answered()
      ensures AsAsked(w)
    {
      hide Decide, LateCode, AnswersLate, NoContentCode, Twice, Answered, WritesFrom, After, Lead;
      Decided(w);
      DecidedLate(w, 200);
      DecidedLate(w, 206);
      TwiceIs(w);
      if AllFine(w.rounds) { BegunExactly(w.rounds, LockedThen(w, w.locksAtInit)); }
    }

    /** The first half of `do_request`: the request is read, its service looked up and its client let in, or refused. */
    method Admit(w: World) returns (admitted: bool)
      requires sent == []
      requires w.headerStatus in {100, 400, 404, 405, 408, 500}
      modifies this
      ensures admitted == (w.headerStatus == 100 && w.serviceReady && !w.denied && w.encapsulatedOk)
      ensures admitted ==> unchanged(this)
      ensures !admitted ==> !keepalive
      ensures w.headerStatus != 100 ==> sent == if w.headerBytes then [Final(w.headerStatus)] else []
      ensures w.headerStatus == 100 && !w.serviceReady ==> sent == [Final(500)]
      ensures w.headerStatus == 100 && w.serviceReady && w.denied ==> sent == [Final(if w.authRequired then 407 else 403)]
      ensures w.headerStatus == 100 && w.serviceReady && !w.denied && !w.encapsulatedOk ==> sent == [Final(400)]
    {
      if w.headerStatus != 100 {
        returnCode, keepalive := w.headerStatus, false;
        if w.headerBytes { var _ := Respond(w.headerStatus, w.writeOk); }
        return false;
      }
      if !w.serviceReady {
        keepalive := false;
        var _ := Respond(500, w.writeOk);
        return false;
      }
      if w.denied {
        keepalive := false;
        var _ := Respond(if w.authRequired then 407 else 403, w.writeOk);
        return false;
      }
      if !w.encapsulatedOk {
        keepalive := false;
        var _ := Respond(400, w.writeOk);
        return false;
      }
      admitted := true;
    }

    /** `do_request`. */
    method DoRequest(w: World) returns (r: Outcome)
      requires sent == [] && Untouched()
      requires w.headerStatus in {100, 400, 404, 405, 408, 500}
      modifies this
      ensures AllPermitted()
      ensures Orderly() <==> !(Served(w) && preview < 0 && Twice(w))
      ensures Continue in sent <==> Served(w) && preview >= 0 && hasBody && w.previewRead.PreviewOk?
                                    && PreviewAnswer(w) == CI_MOD_CONTINUE
      ensures r == Ok ==> Answered()
      ensures Served(w) && Smooth(w) ==> r == Ok
      ensures AllCodes(FinalCode(w))
      // the connection stays open unless there was an error, but for one behind a 204 outside preview
      ensures r == Ok ==> keepalive == old(keepalive)
      ensures r == Error && keepalive ==>
                preview < 0 && allow204 && w.writeOk && w.previewHandler.Answers? && w.previewHandler.code == 204
      // what is sent, without the functions above
      ensures Orderly() ==> |sent| <= 2 && forall i :: 0 <= i < |sent| - 1 ==> sent[i] == Continue
      ensures forall i :: 0 <= i < |sent| && sent[i] == Final(204) ==> preview >= 0 || allow204
      ensures forall i :: 0 <= i < |sent| && sent[i] == Final(206) ==> allow206
      ensures w.headerStatus != 100 ==> sent == if w.headerBytes then [Final(w.headerStatus)] else []
      ensures w.headerStatus == 100 && !w.serviceReady ==> sent == [Final(500)]
      ensures w.headerStatus == 100 && w.serviceReady && w.denied ==> sent == [Final(if w.authRequired then 407 else 403)]
      ensures w.headerStatus == 100 && w.serviceReady && !w.denied && !w.encapsulatedOk ==> sent == [Final(400)]
      ensures w.headerStatus == 100 && w.serviceReady && !w.denied && w.encapsulatedOk ==>
                && (w.verb.Options? ==> sent == [Final(if w.verb.ok then 200 else 500)])
                && (w.verb == Unknown ==> sent == [])
                && (w.verb == Modification ==> AsAsked(w))
    {
      hide Decide, LateCode, ModificationCode, AnswersLate, NoContentCode, Twice, AsAsked, Held, After, Lead, Accepts, Fluent;
      WhenNoContent(w);
      var admitted := Admit(w);
      if !admitted { return Error; }
      dataLocked := w.locksAtInit;
      match w.verb {
        case Options(ok) =>
          returnCode := 200;
          sent := sent + [Final(if ok then 200 else 500)];
          r := Ok;
        case Modification =>
          r := Modify(w);
          CarriedOut(w);
        case Unknown =>
          keepalive := false;
          r := Error;
      }
    }

    /** The REQMOD and RESPMOD branch of `do_request`. */
    method Modify(w: World) returns (r: Outcome)
      requires sent == [] && Untouched()
      modifies this
      ensures AllPermitted()
      ensures Orderly() <==> !(preview < 0 && Twice(w))
      ensures Continue in sent <==> preview >= 0 && hasBody && w.previewRead.PreviewOk?
                                    && PreviewAnswer(w) == CI_MOD_CONTINUE
      ensures r == Ok ==> Answered()
      ensures Smooth(w) ==> r == Ok
      ensures AllCodes(ModificationCode(w, old(dataLocked)))
      ensures sent == if preview < 0 && Twice(w) then [Final(NoContentCode()), Final(NoContentCode())]
                      else Lead(w) + if Answered() then [Final(ModificationCode(w, old(dataLocked)))] else []
      ensures Decide(w).Refuse? || Decide(w).NoContent? ==> Answered()
      ensures AnswersLate(w) || (w.hasServiceIo && w.restOk) ==>
                (Decide(w).Partial? || Decide(w) == Proceed(false) || (Decide(w).Proceed? && Held(w, old(dataLocked))) ==> Answered())
      ensures (Decide(w).Partial? || Decide(w).Proceed?) && w.hasServiceIo && Fluent(w) ==> Answered()
      ensures keepalive == (old(keepalive) && (r != Error || (preview < 0 && Decide(w).NoContent? && w.writeOk)))
    {
      hide After, WritesFrom, AllFine, LateCode, Decide, Twice, NoContentCode, Accepts;
      DecisionIs(w);
      var status := Ask(w);
      if status == Error { return Error; }
      if status == Eof { returnCode := 200; }
      if returnCode == 204 { return Ok; }
      if returnCode != 100 && returnCode != 200 && returnCode != 206 {
        assert false;   // the code would answer with 500 here, but no other return code gets this far
      }
      r := Complete(w, returnCode == 100 && hasBody && status != Eof);
    }

    /** The preview step, inside or outside a preview. */
    method Ask(w: World) returns (status: Outcome)
      requires sent == [] && Untouched()
      modifies this
      ensures var d := Decide(w);
              && (d.Refuse? ==> status == Error && sent == [Final(d.code)])
              && (d.NoContent? ==> (status == Ok || status == Error)
                                   && sent == if preview < 0 && Twice(w) then [Final(NoContentCode()), Final(NoContentCode())]
                                              else [Final(NoContentCode())])
              && (d.NoContent? && status == Ok ==>
                    returnCode == 204 || (returnCode == 200 && preview >= 0 && Consistent() && !prepared && !remaining && started != 0))
              && (d.Partial? ==> status == Ok && sent == [] && returnCode == 206 && Untouched())
              && (d.Proceed? ==> Untouched() && sent == Lead(w) && status != Error
                                 && if d.body then status == Ok && returnCode == 100 else status == Eof || returnCode == 200)
              && (d.Partial? || d.Proceed? ==> dataLocked == LockedThen(w, old(dataLocked)))
      ensures Smooth(w) ==> status != Error
      ensures keepalive == (old(keepalive) && (status != Error || (preview < 0 && Decide(w).NoContent? && w.writeOk)))
    {
      hide After, WritesFrom, AllFine, LateCode;
      if preview >= 0 {
        status := DoRequestPreview(w);
      } else {
        status := DoFakePreview(w);
      }
    }

    /** What a decision means for the codes that may be sent. */
    lemma DecisionIs(w: World)
      ensures var d := Decide(w);
              && (d.Refuse? ==> d.code == 408 || d.code == 500)
              && (d.NoContent? ==> Permitted(NoContentCode()) && NoContentCode() in {200, 204})
              && (d.Partial? ==> allow206) && (d.Proceed? && d.body ==> hasBody)
              && (preview >= 0 ==>
                    (d == Proceed(true) <==> hasBody && w.previewRead.PreviewOk? && PreviewAnswer(w) == CI_MOD_CONTINUE))
              && (Twice(w) && preview < 0 ==> d.NoContent?)
    {
    }

    /** The part behind the preview step: the body, the end-of-data handler, and the rest of the response. */
    method Complete(w: World, body: bool) returns (r: Outcome)
      requires Consistent() && !prepared && !remaining
      requires if body then returnCode == 100 && Untouched() else returnCode == 200 || (returnCode == 206 && allow206)
      modifies this
      ensures Consistent() && (Continue in sent <==> Continue in old(sent)) && (r == Ok ==> Answered())
      ensures w.hasServiceIo && Fluent(w) ==> r == Ok
      ensures keepalive == (old(keepalive) && r != Error)
      ensures !body && old(started) == 0 && (AnswersLate(w) || (w.hasServiceIo && w.restOk)) ==> Answered()
      ensures body && (AnswersLate(w) || w.restOk) && w.hasServiceIo && w.bodyComplete && AllFine(w.rounds) ==>
                (After(w.rounds, false, old(dataLocked), Idle).Idle? ==> Answered())
      ensures || sent == old(sent)
              || (old(started) == 0 &&
                  sent == old(sent) + [Final(LateCode(w, if old(returnCode) == 206 then 206 else 200,
                                                      body && !After(w.rounds, false, old(dataLocked), Idle).Idle?))])
    {
      hide After, AllFine, LateCode;
      ghost var before := sent;
      CodeStands(w, 200);
      if body {
        returnCode := 200;
        r := GetSendBody(false, w.hasServiceIo, w.rounds, w.bodyComplete);
        if w.hasServiceIo || echo { PhaseIsConsistent(After(w.rounds, false, old(dataLocked), Idle), before); }
        if r == Error { keepalive := false; return Error; }
      }
      r := Conclude(w);
    }

    /** The end-of-data handler and the rest of the response. */
    method Conclude(w: World) returns (r: Outcome)
      requires Consistent() && (returnCode == 200 || (returnCode == 206 && allow206))
      modifies this
      ensures Consistent() && (Continue in sent <==> Continue in old(sent)) && (r == Ok ==> Answered())
      ensures w.hasServiceIo && Fluent(w) ==> r == Ok
      ensures keepalive == (old(keepalive) && r != Error)
      ensures old(started) == 0 && (AnswersLate(w) || (w.hasServiceIo && w.restOk)) ==> Answered()
      ensures || sent == old(sent)
              || (old(started) == 0 && sent == old(sent) + [Final(LateCode(w, old(returnCode), false))])
              || (old(prepared) && sent == old(sent) + [Final(old(headCode))])
    {
      hide LateCode, AllFine;
      r := DoEndOfData(w);
      if r == Error { keepalive := false; return Error; }
      if returnCode == 204 { return Ok; }
      dataLocked := false;
      r := SendRemaining(w.hasServiceIo, w.headGoes, w.restOk);
      if r == Error { keepalive := false; }
    }

    lemma CodeStands(w: World, code: int)
      ensures LateCode(w, code, true) == code
    {
    }

    /** A response in any phase, behind events without a final status line. */
    lemma PhaseIsConsistent(phase: Phase, before: seq<Event>)
      requires InPhase(phase, before) && (before == [] || before == [Continue]) && returnCode == 200
      ensures Consistent() && (Continue in sent <==> Continue in before)
    {
      if phase.Out? { assert sent[|before|].Final?; }
    }
  }
}
