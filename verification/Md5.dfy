/** Streaming MD5: the message arrives in pieces, whole blocks of 64 bytes go through the transform, and the rest waits
    in the context. The transform is any function of a state and a block; the host is little-endian. */
module Md5 {
  import opened Common

  type Word = x: int | 0 <= x < 0x1_0000_0000

  datatype State = State(a: Word, b: Word, c: Word, d: Word)

  type Transform = (State, seq<Byte>) -> State

  const Initial: State := State(0x67452301, 0xefcdab89, 0x98badcfe, 0x10325476)

  // ----- the digest of a whole message (RFC 1321)

  /** Section 3.4: block by block; what is left over does not count. */
  function Absorb(transform: Transform, s: State, message: seq<Byte>): State
    decreases |message|
  {
    if |message| < 64 then s else Absorb(transform, transform(s, message[..64]), message[64..])
  }

  function Zeros(n: nat): (s: seq<Byte>)
    ensures |s| == n
  {
    seq(n, _ => 0)
  }

  /** Little-endian, in `n` bytes. */
  function LittleEndian(x: nat, n: nat): (s: seq<Byte>)
    ensures |s| == n
  {
    if n == 0 then [] else [x % 256] + LittleEndian(x / 256, n - 1)
  }

  /** Section 3.1: how many zeros follow the first padding byte so that eight bytes are missing to a whole block. */
  function ZerosFor(length: nat): (n: nat)
    ensures n < 64 && (length + 1 + n + 8) % 64 == 0
  {
    (119 - length % 64) % 64
  }

  /** Sections 3.1 and 3.2. */
  function Padded(message: seq<Byte>): (p: seq<Byte>)
    ensures |p| % 64 == 0
  {
    message + [0x80] + Zeros(ZerosFor(|message|)) + LittleEndian(8 * |message| % 0x1_0000_0000_0000_0000, 8)
  }

  /** Section 3.5. */
  function Output(s: State): seq<Byte> {
    LittleEndian(s.a, 4) + LittleEndian(s.b, 4) + LittleEndian(s.c, 4) + LittleEndian(s.d, 4)
  }

  function Digest(transform: Transform, message: seq<Byte>): seq<Byte> {
    Output(Absorb(transform, Initial, Padded(message)))
  }

  // ----- messages in pieces

  /** The bytes after the last whole block. */
  function Tail(message: seq<Byte>): (r: seq<Byte>)
    ensures |r| < 64
  {
    if |message| < 64 then message else Tail(message[64..])
  }

  lemma {:induction false} TailIs(message: seq<Byte>)
    ensures |Tail(message)| == |message| % 64
    ensures |Tail(message)| <= |message| && Tail(message) == message[|message| - |Tail(message)|..]
  {
    if |message| >= 64 {
      var n, t := |message|, |Tail(message)|;
      TailIs(message[64..]);
      SameRest64(n - 64);
      assert message[64..][n - 64 - t..] == message[n - t..];
    }
  }

  lemma SameRest64(n: nat)
    ensures (n + 64) % 64 == n % 64
  {
  }

  /** State and tail are all that a message leaves behind. */
  lemma {:induction false} Continue(transform: Transform, s: State, message: seq<Byte>, more: seq<Byte>)
    ensures Absorb(transform, s, message + more) == Absorb(transform, Absorb(transform, s, message), Tail(message) + more)
    ensures Tail(message + more) == Tail(Tail(message) + more)
    decreases |message|
  {
    if |message| >= 64 {
      assert (message + more)[..64] == message[..64] && (message + more)[64..] == message[64..] + more;
      Continue(transform, transform(s, message[..64]), message[64..], more);
    }
  }

  // ----- the bit counter

  /** Two words with a carry count modulo 2^64. */
  lemma Count(low: Word, high: Word, len: nat, low': Word, high': Word, total: nat)
    requires low + 0x1_0000_0000 * high == 8 * total % 0x1_0000_0000_0000_0000
    requires low' == (low + 8 * len % 0x1_0000_0000) % 0x1_0000_0000
    requires high' == (high + (if low' < low then 1 else 0) + len / 0x2000_0000) % 0x1_0000_0000
    ensures low' + 0x1_0000_0000 * high' == 8 * (total + len) % 0x1_0000_0000_0000_0000
  {
    var q, r := len / 0x2000_0000, 8 * len % 0x1_0000_0000;
    assert 8 * len == 0x1_0000_0000 * q + r;
    var carry := if low' < low then 1 else 0;
    assert low + r == low' + 0x1_0000_0000 * carry;
    var k := 8 * total / 0x1_0000_0000_0000_0000;
    var c := (high + carry + q) / 0x1_0000_0000;
    assert high + carry + q == 0x1_0000_0000 * c + high';
    assert 8 * (total + len) == low' + 0x1_0000_0000 * high' + 0x1_0000_0000_0000_0000 * (k + c);
  }

  /** The low word tells how full the block is. */
  lemma Filled(low: Word, high: Word, total: nat)
    requires low + 0x1_0000_0000 * high == 8 * total % 0x1_0000_0000_0000_0000
    ensures low / 8 % 64 == total % 64
  {
    var k := 8 * total / 0x1_0000_0000_0000_0000;
    LowBits(low, high + 0x1_0000_0000 * k, total);
  }

  lemma LowBits(low: nat, w: nat, total: nat)
    requires 8 * total == low + 0x1_0000_0000 * w
    ensures low / 8 % 64 == total % 64
  {
    var v := 0x80_0000 * w;
    assert low == 8 * (total - 64 * v);
    SameRest(total, v);
  }

  lemma SameRest(x: int, v: int)
    ensures (x - 64 * v) % 64 == x % 64
  {
    assert x - 64 * v == 64 * (x / 64 - v) + x % 64;
  }

  function Power256(n: nat): (p: nat)
    ensures p > 0
  {
    if n == 0 then 1 else 256 * Power256(n - 1)
  }

  lemma {:induction false} LittleEndianParts(x: nat, n: nat, y: nat, m: nat)
    requires x < Power256(n)
    ensures LittleEndian(x + Power256(n) * y, n + m) == LittleEndian(x, n) + LittleEndian(y, m)
  {
    if n > 0 {
      var z := Power256(n - 1) * y;
      assert Power256(n) * y == 256 * z;
      assert (x + 256 * z) % 256 == x % 256 && (x + 256 * z) / 256 == x / 256 + z;
      LittleEndianParts(x / 256, n - 1, y, m);
    }
  }

  /** The two words as they lie in memory. */
  lemma CounterBytes(low: Word, high: Word)
    ensures LittleEndian(low, 4) + LittleEndian(high, 4) == LittleEndian(low + 0x1_0000_0000 * high, 8)
  {
    assert Power256(4) == 256 * 256 * 256 * 256;
    LittleEndianParts(low, 4, high, 4);
  }

  // ----- the context

  class Context {
    const transform: Transform
    var state: State            // buf
    var low: Word               // bits[0]
    var high: Word              // bits[1]
    const block: array<Byte>    // in
    ghost var message: seq<Byte>

    /** The context after `message`. */
    ghost predicate Valid()
      reads this, block
    {
      && block.Length == 64
      && state == Absorb(transform, Initial, message)
      && block[..|Tail(message)|] == Tail(message)
      && low + 0x1_0000_0000 * high == 8 * |message| % 0x1_0000_0000_0000_0000
    }

    constructor (transform: Transform)
      ensures Valid() && message == [] && this.transform == transform && fresh(block)
    {
      this.transform := transform;
      state, low, high := Initial, 0, 0;
      block := new Byte[64](_ => 0);
      message := [];
    }

    method CopyIn(at: nat, data: seq<Byte>)
      requires at + |data| <= block.Length
      modifies block
      ensures block[..] == old(block[..at]) + data + old(block[at + |data|..])
      ensures block[..at + |data|] == old(block[..at]) + data
    {
      forall i | at <= i < at + |data| { block[i] := data[i - at]; }
    }

    /** The counter goes up by `len` bytes, in bits. */
    method CountUp(len: nat, ghost total: nat)
      requires low + 0x1_0000_0000 * high == 8 * total % 0x1_0000_0000_0000_0000
      modifies this`low, this`high
      ensures low + 0x1_0000_0000 * high == 8 * (total + len) % 0x1_0000_0000_0000_0000
    {
      var t := low;
      ghost var h := high;
      low := (t + 8 * len % 0x1_0000_0000) % 0x1_0000_0000;
      if low < t { high := (high + 1) % 0x1_0000_0000; }
      high := (high + len / 0x2000_0000) % 0x1_0000_0000;
      Count(t, h, len, low, high, total);
    }

    /** The whole blocks of `data` through the transform, and the rest into the block buffer. */
    method Blocks(data: seq<Byte>)
      requires block.Length == 64
      modifies this`state, block
      ensures state == Absorb(transform, old(state), data) && block[..|Tail(data)|] == Tail(data)
    {
      hide Absorb, Tail;
      var rest := data;
      while |rest| >= 64
        invariant Absorb(transform, state, rest) == Absorb(transform, old(state), data) && Tail(rest) == Tail(data)
      {
        Step(transform, state, rest);
        CopyIn(0, rest[..64]);
        assert block[..] == rest[..64];
        state := transform(state, block[..]);
        rest := rest[64..];
      }
      CopyIn(0, rest);
      Short(transform, state, rest);
    }

    /** How many bytes wait in the block buffer. */
    method Waiting() returns (filled: nat)
      requires Valid()
      ensures filled == |Tail(message)|
    {
      hide Absorb, Tail;
      Filled(low, high, |message|);
      TailIs(message);
      filled := low / 8 % 64;
    }

    /** The context after a further piece is the context after the longer message. */
    method Update(data: seq<Byte>)
      requires Valid()
      modifies this, block
      ensures Valid() && message == old(message) + data
    {
      hide Absorb, Tail;
      var filled := Waiting();
      CountUp(|data|, |message|);
      Continue(transform, Initial, message, data);
      ghost var all := Tail(message) + data;
      message := message + data;
      var rest := data;
      if filled > 0 {
        if |data| < 64 - filled {
          CopyIn(filled, data);
          Short(transform, state, all);
          return;
        }
        CopyIn(filled, data[..64 - filled]);
        Step(transform, state, all);
        rest := data[64 - filled..];
        assert block[..] == all[..64] && rest == all[64..];
        state := transform(state, block[..]);
      } else {
        assert all == data;
      }
      Blocks(rest);
    }
 
    method Clear()
      modifies this, block
      ensures state == State(0, 0, 0, 0) && low == 0 && high == 0 && block[..] == Zeros(block.Length)
    {
      state, low, high := State(0, 0, 0, 0), 0, 0;
      CopyIn(0, Zeros(block.Length));
    }

    /** The padding: one more block, or two when the length no longer fits into the first. */
    method FinishBlocks(count: nat, ghost tail: seq<Byte>)
      requires block.Length == 64 && count == |tail| < 64 && block[..count] == tail
      modifies this`state, block
      ensures state == Absorb(transform, old(state), tail + Pad(count, low, high))
    {
      hide Absorb, Tail, LittleEndian, Zeros;
      ghost var last := tail + Pad(count, low, high);
      Step(transform, state, last);
      CopyIn(count, [0x80]);
      if 63 - count < 8 {
        TwoBlocks(tail, low, high);
        CopyIn(count + 1, Zeros(63 - count));
        assert block[..] == block[..count + 1 + (63 - count)];
        state := transform(state, block[..]);
        CopyIn(0, Zeros(56));
        last := last[64..];
        Step(transform, state, last);
      } else {
        OneBlock(tail, low, high);
        CopyIn(count + 1, Zeros(55 - count));
      }
      assert last == block[..56] + LittleEndian(low, 4) + LittleEndian(high, 4);
      CopyIn(56, LittleEndian(low, 4));
      CopyIn(60, LittleEndian(high, 4));
      assert block[..] == block[..64] == last && last[..64] == last && last[64..] == [];
      state := transform(state, block[..]);
      Short(transform, state, []);
    }

    /** The digest of everything fed in, whatever the pieces were; nothing of it stays in the context. */
    method Final() returns (digest: seq<Byte>)
      requires Valid()
      modifies this, block
      ensures digest == Digest(transform, old(message))
      ensures state == State(0, 0, 0, 0) && low == 0 && high == 0 && block[..] == Zeros(64)
    {
      hide Absorb, Tail, Padded, LittleEndian, Zeros, ZerosFor, Pad, Output;
      var count := Waiting();
      TailIs(message);
      PadIs(message, low, high);
      Continue(transform, Initial, message, Pad(count, low, high));
      FinishBlocks(count, Tail(message));
      digest := Output(state);
      Clear();
    }
  }

  lemma OneBlock(tail: seq<Byte>, low: Word, high: Word)
    requires |tail| < 56
    ensures tail + Pad(|tail|, low, high)
         == tail + [0x80] + Zeros(55 - |tail|) + LittleEndian(low, 4) + LittleEndian(high, 4)
  {
    hide Zeros, LittleEndian;
  }

  lemma TwoBlocks(tail: seq<Byte>, low: Word, high: Word)
    requires 56 <= |tail| < 64
    ensures (tail + Pad(|tail|, low, high))[..64] == tail + [0x80] + Zeros(63 - |tail|)
    ensures (tail + Pad(|tail|, low, high))[64..] == Zeros(56) + LittleEndian(low, 4) + LittleEndian(high, 4)
  {
    hide LittleEndian;
    assert Zeros(119 - |tail|) == Zeros(63 - |tail|) + Zeros(56);
  }

  /** What is added to a message that leaves `count` bytes in the block. */
  function Pad(count: nat, low: Word, high: Word): (p: seq<Byte>)
    requires count < 64
    ensures count + |p| == if count < 56 then 64 else 128
  {
    [0x80] + Zeros(if count < 56 then 55 - count else 119 - count) + (LittleEndian(low, 4) + LittleEndian(high, 4))
  }

  lemma PadIs(message: seq<Byte>, low: Word, high: Word)
    requires low + 0x1_0000_0000 * high == 8 * |message| % 0x1_0000_0000_0000_0000
    ensures Padded(message) == message + Pad(|message| % 64, low, high)
  {
    hide LittleEndian, Zeros, Pad;
    CounterBytes(low, high);
    PadAgrees(message, low, high, |message| % 64);
  }

  lemma PadAgrees(message: seq<Byte>, low: Word, high: Word, count: nat)
    requires count == |message| % 64
    ensures message + [0x80] + Zeros(ZerosFor(|message|)) + (LittleEndian(low, 4) + LittleEndian(high, 4))
         == message + Pad(count, low, high)
  {
    hide LittleEndian, Zeros;
    assert ZerosFor(|message|) == if count < 56 then 55 - count else 119 - count;
  }

  lemma Step(transform: Transform, s: State, m: seq<Byte>)
    requires |m| >= 64
    ensures Absorb(transform, s, m) == Absorb(transform, transform(s, m[..64]), m[64..]) && Tail(m) == Tail(m[64..])
  {
  }

  lemma Short(transform: Transform, s: State, m: seq<Byte>)
    requires |m| < 64
    ensures Absorb(transform, s, m) == s && Tail(m) == m
  {
  }

  /** Init, one update for each piece, and final: only the concatenation of the pieces matters. */
  method DigestOfPieces(transform: Transform, pieces: seq<seq<Byte>>) returns (digest: seq<Byte>)
    ensures digest == Digest(transform, Concat(pieces))
  {
    hide Digest;
    var c := new Context(transform);
    assert pieces[..0] == [];
    for i := 0 to |pieces|
      invariant fresh(c) && fresh(c.block) && c.Valid() && c.message == Concat(pieces[..i]) && c.transform == transform
    {
      ConcatLast(pieces[..i], pieces[i]);
      assert pieces[..i + 1] == pieces[..i] + [pieces[i]];
      c.Update(pieces[i]);
    }
    assert pieces[..|pieces|] == pieces;
    digest := c.Final();
  }

  // ----- the constants and the order of bytes

  /** Byte `k` of a number in memory. */
  lemma {:induction false} ByteOf(x: nat, n: nat, k: nat)
    requires k < n
    ensures LittleEndian(x, n)[k] == x / Power256(k) % 256
  {
    if k > 0 {
      ByteOf(x / 256, n - 1, k - 1);
      Quotients(x, Power256(k - 1));
    }
  }

  lemma Quotients(x: nat, p: nat)
    requires p > 0
    ensures x / 256 / p == x / (256 * p)
  {
    var q, r := x / 256 / p, x / 256 % p;
    assert x == 256 * (x / 256) + x % 256 && x / 256 == p * q + r;
    assert x == 256 * p * q + (256 * r + x % 256) && 0 <= 256 * r + x % 256 < 256 * p;
    QuotientIs(x, 256 * p, q, 256 * r + x % 256);
  }

  lemma QuotientIs(x: nat, m: nat, q: nat, r: nat)
    requires m > 0 && x == m * q + r && r < m
    ensures x / m == q
  {
    var d := x / m - q;
    assert m * (x / m) + x % m == m * q + r;
    assert m * d == r - x % m;
    SmallMultiple(d, m, r - x % m);
  }

  /** Written out, the start state is the bytes 01 23 ... ef fe dc ... 10 (section 3.3 of RFC 1321). */
  lemma StartBytes()
    ensures Output(Initial) == [0x01, 0x23, 0x45, 0x67, 0x89, 0xab, 0xcd, 0xef, 0xfe, 0xdc, 0xba, 0x98, 0x76, 0x54, 0x32, 0x10]
  {
    Word4(0x67452301);
    Word4(0xefcdab89);
    Word4(0x98badcfe);
    Word4(0x10325476);
  }

  lemma Word4(x: Word)
    ensures LittleEndian(x, 4) == [x % 256, x / 256 % 256, x / 256 / 256 % 256, x / 256 / 256 / 256 % 256]
  {
    var a := LittleEndian(x / 256 / 256 / 256, 1);
    var b := LittleEndian(x / 256 / 256, 2);
    var c := LittleEndian(x / 256, 3);
    assert LittleEndian(x / 256 / 256 / 256 / 256, 0) == [];
    assert a == [x / 256 / 256 / 256 % 256];
    assert b == [x / 256 / 256 % 256] + a;
    assert c == [x / 256 % 256] + b;
  }

  /** The sixteen bytes of a digest: the four words in order, each with its low byte first. */
  lemma DigestBytes(s: State)
    ensures Output(s) == [s.a % 256, s.a / 256 % 256, s.a / 256 / 256 % 256, s.a / 256 / 256 / 256 % 256,
                          s.b % 256, s.b / 256 % 256, s.b / 256 / 256 % 256, s.b / 256 / 256 / 256 % 256,
                          s.c % 256, s.c / 256 % 256, s.c / 256 / 256 % 256, s.c / 256 / 256 / 256 % 256,
                          s.d % 256, s.d / 256 % 256, s.d / 256 / 256 % 256, s.d / 256 / 256 / 256 % 256]
  {
    hide LittleEndian;
    Word4(s.a);
    Word4(s.b);
    Word4(s.c);
    Word4(s.d);
  }

  /** The padded message: the message, a byte 0x80, zeros, and its length in bits, low byte first; the fewest zeros that
      make whole blocks. */
  lemma PaddedIs(message: seq<Byte>)
    ensures var p, n := Padded(message), |message|;
            && |p| % 64 == 0 && n + 9 <= |p| < n + 9 + 64
            && p[..n] == message && p[n] == 0x80 && (forall i :: n < i < |p| - 8 ==> p[i] == 0)
            && forall k :: 0 <= k < 8 ==> p[|p| - 8 + k] == 8 * n % 0x1_0000_0000_0000_0000 / Power256(k) % 256
  {
    hide LittleEndian, Power256;
    var bits := 8 * |message| % 0x1_0000_0000_0000_0000;
    forall k | 0 <= k < 8 ensures LittleEndian(bits, 8)[k] == bits / Power256(k) % 256 { ByteOf(bits, 8, k); }
  }

  /** The transform is applied to the first block, then to what follows, from the state it leaves. */
  lemma BlockByBlock(transform: Transform, s: State, block: seq<Byte>, more: seq<Byte>)
    requires |block| == 64
    ensures Absorb(transform, s, block + more) == Absorb(transform, transform(s, block), more)
    ensures Absorb(transform, s, []) == s
  {
    assert (block + more)[..64] == block && (block + more)[64..] == more;
  }
}
