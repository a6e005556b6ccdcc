/** What several components share. */
module Common {

  datatype Option<+T> = None | Some(value: T)

  type Byte = b: int | 0 <= b < 256

  /** The size of the input buffer, c-icap/include/header.h:90. */
  const BUFSIZE: nat := 4096

  /** What an encapsulated entity is. */
  datatype Kind = ReqHdr | ResHdr | ReqBody | ResBody | NullBody | OptBody

  predicate IsHeader(k: Kind) {
    k.ReqHdr? || k.ResHdr?
  }

  // ----- schedules of reads or writes: a negative number fails, zero does nothing

  predicate NoFailure(schedule: seq<int>) {
    forall i :: 0 <= i < |schedule| ==> schedule[i] >= 0
  }

  /** How many make progress. */
  function Positives(schedule: seq<int>): nat {
    if schedule == [] then 0
    else Positives(schedule[..|schedule| - 1]) + if schedule[|schedule| - 1] > 0 then 1 else 0
  }

  /** Nothing fails, and at least `n` make progress. */
  predicate Enough(schedule: seq<int>, n: nat) {
    NoFailure(schedule) && Positives(schedule) >= n
  }

  lemma PositivesNext(schedule: seq<int>, k: nat)
    requires k < |schedule|
    ensures Positives(schedule[..k + 1]) == Positives(schedule[..k]) + if schedule[k] > 0 then 1 else 0
  {
    assert schedule[..k + 1][..k] == schedule[..k];
  }

  lemma {:induction false} PositivesConcat(a: seq<int>, b: seq<int>)
    ensures Positives(a + b) == Positives(a) + Positives(b)
  {
    if b == [] {
      assert a + b == a;
    } else {
      PositivesConcat(a, b[..|b| - 1]);
      assert (a + b)[..|a + b| - 1] == a + b[..|b| - 1];
    }
  }

  /** The first `used` and then `u` of the rest are the first `used + u`. */
  lemma PositivesUsed(schedule: seq<int>, used: nat, u: nat)
    requires used + u <= |schedule|
    ensures Positives(schedule[..used + u]) == Positives(schedule[..used]) + Positives(schedule[used..][..u])
  {
    PositivesConcat(schedule[..used], schedule[used..][..u]);
    assert schedule[..used] + schedule[used..][..u] == schedule[..used + u];
  }

  lemma PositivesAll(schedule: seq<int>)
    ensures schedule[..|schedule|] == schedule && Positives(schedule[..0]) == 0
  {
  }

  function Concat<T>(pieces: seq<seq<T>>): seq<T> {
    if pieces == [] then [] else pieces[0] + Concat(pieces[1..])
  }

  lemma {:induction false} ConcatLast<T>(pieces: seq<seq<T>>, last: seq<T>)
    ensures Concat(pieces + [last]) == Concat(pieces) + last
  {
    if pieces == [] {
      assert (pieces + [last])[1..] == [];
    } else {
      ConcatLast(pieces[1..], last);
      assert (pieces + [last])[1..] == pieces[1..] + [last];
    }
  }

  /** Reads or writes that all make progress are enough for as many bytes as there are of them. */
  lemma {:induction false} EveryOneCounts(schedule: seq<int>)
    requires forall i :: 0 <= i < |schedule| ==> schedule[i] > 0
    ensures Positives(schedule) == |schedule| && Enough(schedule, |schedule|)
  {
    if schedule != [] { EveryOneCounts(schedule[..|schedule| - 1]); }
  }

  /** One that does nothing changes nothing. */
  lemma EmptyOnesDoNot(a: seq<int>, b: seq<int>)
    ensures Positives(a + [0] + b) == Positives(a + b)
  {
    PositivesConcat(a + [0], b);
    PositivesConcat(a, [0]);
    PositivesConcat(a, b);
    assert [0][..0] == [];
  }

  lemma SmallMultiple(x: int, d: nat, y: int)
    requires d * x == y && 0 - d < y < d
    ensures x == 0
  {
    assert x >= 1 ==> d * x >= d;
    assert x <= -1 ==> d * x <= 0 - d;
  }
}
