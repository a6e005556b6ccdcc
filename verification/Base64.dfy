/** Base64 over the alphabet of section 4 of RFC 4648, without `=` padding: the last group is filled up with zeros. */
module Base64 {

  /** `base64_set`. */
  function Symbol(v: bv8): bv8
    requires v <= 63
  {
    if v < 26 then v + 65 else if v < 52 then v + 71 else if v < 62 then v - 4 else if v == 62 then 43 else 47
  }

  /** `base64_table`: 255 for what is no symbol; `=` counts as zero. */
  function Value(c: bv8): bv8 {
    if 65 <= c <= 90 then c - 65
    else if 97 <= c <= 122 then c - 71
    else if 48 <= c <= 57 then c + 4
    else if c == 43 then 62
    else if c == 47 then 63
    else if c == 61 then 0
    else 255
  }

  lemma ValueOfSymbol(v: bv8)
    requires v <= 63
    ensures Value(Symbol(v)) == v && Symbol(v) != 0
  {
  }

  // three bytes are four values of six bits
  function First(b0: bv8): bv8 { (b0 >> 2) & 0x3F }
  function Second(b0: bv8, b1: bv8): bv8 { ((b0 << 4) | (b1 >> 4)) & 0x3F }
  function Third(b1: bv8, b2: bv8): bv8 { ((b1 << 2) | (b2 >> 6)) & 0x3F }
  function Fourth(b2: bv8): bv8 { b2 & 0x3F }

  // and four values three bytes
  function Byte0(v0: bv8, v1: bv8): bv8 { (v0 << 2) | (v1 >> 4) }
  function Byte1(v1: bv8, v2: bv8): bv8 { (v1 << 4) | (v2 >> 2) }
  function Byte2(v2: bv8, v3: bv8): bv8 { (v2 << 6) | v3 }

  lemma SixBits(b0: bv8, b1: bv8, b2: bv8)
    ensures First(b0) <= 63 && Second(b0, b1) <= 63 && Third(b1, b2) <= 63 && Fourth(b2) <= 63
  {
  }

  lemma Bits(b0: bv8, b1: bv8, b2: bv8)
    ensures Byte0(First(b0), Second(b0, b1)) == b0
    ensures Byte1(Second(b0, b1), Third(b1, b2)) == b1
    ensures Byte2(Third(b1, b2), Fourth(b2)) == b2
  {
  }

  /** `dobase64`. */
  function Group(b0: bv8, b1: bv8, b2: bv8): (s: seq<bv8>)
    ensures |s| == 4
  {
    SixBits(b0, b1, b2);
    [Symbol(First(b0)), Symbol(Second(b0, b1)), Symbol(Third(b1, b2)), Symbol(Fourth(b2))]
  }

  /** Do four symbols start here? A string ends with its NUL, which is no symbol. */
  predicate Symbols(s: seq<bv8>)
  {
    |s| >= 4 && Value(s[0]) <= 63 && Value(s[1]) <= 63 && Value(s[2]) <= 63 && Value(s[3]) <= 63
  }

  function Bytes(s: seq<bv8>): (r: seq<bv8>)
    requires Symbols(s)
    ensures |r| == 3
  {
    [Byte0(Value(s[0]), Value(s[1])), Byte1(Value(s[1]), Value(s[2])), Byte2(Value(s[2]), Value(s[3]))]
  }

  /** Three bytes make four symbols, and these the three bytes. */
  lemma GroupAndBack(b0: bv8, b1: bv8, b2: bv8, more: seq<bv8>)
    ensures Symbols(Group(b0, b1, b2) + more) && Bytes(Group(b0, b1, b2) + more) == [b0, b1, b2]
  {
    hide Symbol, Value, First, Second, Third, Fourth, Byte0, Byte1, Byte2;
    SixBits(b0, b1, b2);
    Bits(b0, b1, b2);
    ValueOfSymbol(First(b0));
    ValueOfSymbol(Second(b0, b1));
    ValueOfSymbol(Third(b1, b2));
    ValueOfSymbol(Fourth(b2));
  }

  function ByteAt(data: seq<bv8>, i: nat): bv8 {
    if i < |data| then data[i] else 0
  }

  function Rest(data: seq<bv8>): seq<bv8> {
    if |data| < 3 then [] else data[3..]
  }

  /** The first `m` groups, with zeros behind the end of the data. */
  function Encoded(data: seq<bv8>, m: nat): (s: seq<bv8>)
    ensures |s| == 4 * m
    decreases m
  {
    if m == 0 then []
    else Group(ByteAt(data, 0), ByteAt(data, 1), ByteAt(data, 2)) + Encoded(Rest(data), m - 1)
  }

  lemma ThreeMore(n: nat)
    ensures (3 + n) % 3 == n % 3
  {
  }

  /** The leading groups of symbols, `limit` of them at most. */
  function Decoded(s: seq<bv8>, limit: nat): (r: seq<bv8>)
    ensures |r| <= 3 * limit && |r| % 3 == 0
  {
    hide Value, Bytes;
    if limit == 0 || !Symbols(s) then []
    else
      var more := Decoded(s[4..], limit - 1);
      ThreeMore(|more|);
      Bytes(s) + more
  }

  /** The first `m` groups of three bytes, with zeros behind the end of the data. */
  function Filled(data: seq<bv8>, m: nat): (s: seq<bv8>)
    ensures |s| == 3 * m && forall i :: 0 <= i < |s| ==> s[i] == ByteAt(data, i)
  {
    seq(3 * m, i requires i >= 0 => ByteAt(data, i))
  }

  /** The groups that a decoder may write into `len` bytes with a closing NUL. */
  function Triples(len: nat): (m: nat)
    requires len > 0
    ensures 3 * m < len <= 3 * m + 3
  {
    (len - 1) / 3
  }

  /** What was encoded comes back as far as the decoder may go, whatever follows the encoded text, provided that
      the text ends where the decoder would go on. */
  lemma {:induction false} DecodeEncoded(data: seq<bv8>, m: nat, rest: seq<bv8>, limit: nat)
    requires limit <= m || !Symbols(rest)
    ensures Decoded(Encoded(data, m) + rest, limit) == Filled(data, if limit <= m then limit else m)
    decreases m
  {
    hide Group, Symbols, Bytes, Filled;
    if m == 0 {
      assert Encoded(data, m) + rest == rest;
    } else if limit > 0 {
      var group := Group(ByteAt(data, 0), ByteAt(data, 1), ByteAt(data, 2));
      var more := Encoded(Rest(data), m - 1) + rest;
      Regroup(group, Encoded(Rest(data), m - 1), rest);
      assert (group + more)[4..] == more;
      GroupAndBack(ByteAt(data, 0), ByteAt(data, 1), ByteAt(data, 2), more);
      DecodeEncoded(Rest(data), m - 1, rest, limit - 1);
    }
  }

  /** The groups that hold all the data. */
  function GroupsOf(data: seq<bv8>): (m: nat)
    ensures 3 * m - 2 <= |data| <= 3 * m
  {
    (|data| + 2) / 3
  }

  /** The groups that fit into a buffer with a closing NUL. */
  function Room(length: nat): (m: nat)
    requires length > 0
    ensures 4 * m < length <= 4 * m + 4
  {
    (length - 1) / 4
  }

  /** The encoded text of at least three bytes, with its NUL, decodes to the data and up to two zeros. */
  lemma RoundTrip(data: seq<bv8>, rest: seq<bv8>, len: nat)
    requires len > 3 * GroupsOf(data)
    ensures Decoded(Encoded(data, GroupsOf(data)) + [0] + rest, Triples(len))
         == data + seq(3 * GroupsOf(data) - |data|, _ => 0)
  {
    var m := GroupsOf(data);
    assert Encoded(data, m) + [0] + rest == Encoded(data, m) + ([0] + rest);
    assert !Symbols([0] + rest);
    DecodeEncoded(data, m, [0] + rest, Triples(len));
  }

  // ----- the loops

  lemma EncodedStep(data: seq<bv8>, i: nat, m: nat)
    requires i < |data| && m > 0
    ensures Encoded(data[i..], m) == Group(data[i], ByteAt(data, i + 1), ByteAt(data, i + 2))
                                   + Encoded(Behind(data, i), m - 1)
  {
  }

  method PutGroup(out: array<bv8>, k: nat, b0: bv8, b1: bv8, b2: bv8)
    requires k + 4 <= out.Length
    modifies out
    ensures out[..k + 4] == old(out[..k]) + Group(b0, b1, b2)
  {
    hide Symbol;
    var g := Group(b0, b1, b2);
    out[k], out[k + 1], out[k + 2], out[k + 3] := g[0], g[1], g[2], g[3];
  }

  function Behind(data: seq<bv8>, i: nat): seq<bv8> {
    if i + 3 <= |data| then data[i + 3..] else []
  }

  /** One more group is out, with zeros behind the end of the data, and the rest of the text is to come. */
  method PutNext(data: seq<bv8>, i: nat, out: array<bv8>, k: nat, ghost whole: seq<bv8>, ghost n: nat)
    requires i < |data| && k + 4 <= out.Length && n > 0 && whole == out[..k] + Encoded(data[i..], n)
    modifies out
    ensures whole == out[..k + 4] + Encoded(Behind(data, i), n - 1)
  {
    hide Group, Encoded;
    EncodedStep(data, i, n);
    PutGroup(out, k, data[i], if i + 1 < |data| then data[i + 1] else 0, if i + 2 < |data| then data[i + 2] else 0);
  }

  /** Subtraction on `size_t`. */
  function Minus(a: nat, b: nat): (d: nat)
    requires b <= 4
    ensures a >= b ==> d == a - b
    ensures a < b ==> d > 0xffff_ffff
  {
    if a >= b then a - b else a - b + 0x1_0000_0000_0000_0000
  }

  /** The bounds of the loop do not wrap around, or it is not entered all the same. */
  predicate InBounds(data: seq<bv8>, length: nat) {
    length >= 4 && (|data| >= 3 || length == 4)
  }

  /** What the encoder does: it has written so many symbols and a NUL, or it has gone behind the end of the data or of
      the room. */
  datatype Result = Written(count: nat) | OutOfBounds

  function Fitting(data: seq<bv8>, length: nat): (m: nat)
    requires length > 0
  {
    if GroupsOf(data) <= Room(length) then GroupsOf(data) else Room(length)
  }

  /** As many groups as fit before a closing NUL, if the bounds hold, and only then. */
  method Encode(data: seq<bv8>, out: array<bv8>) returns (r: Result)
    modifies out
    ensures r.Written? <==> InBounds(data, out.Length)
    ensures r.Written? ==>
              && r.count == 4 * Fitting(data, out.Length) < out.Length
              && out[..r.count] == Encoded(data, Fitting(data, out.Length)) && out[r.count] == 0
  {
    hide Group, Encoded, GroupsOf, Room, Minus;
    var i, k := 0, 0;
    ghost var safe, g := InBounds(data, out.Length), 0;
    ghost var m := if safe then Fitting(data, out.Length) else 0;
    assert data[0..] == data;
    while i < Minus(|data|, 3) && k < Minus(out.Length, 4)
      invariant i == 3 * g && k == 4 * g && (if safe then g <= m && (g > 0 ==> i < |data|) else g == 0)
      invariant safe ==> Encoded(data, m) == out[..k] + Encoded(data[i..], m - g)
    {
      if i + 2 >= |data| || k + 4 > out.Length { return OutOfBounds; }
      assert safe;
      PutNext(data, i, out, k, Encoded(data, m), m - g);
      i, k, g := i + 3, k + 4, g + 1;
    }
    if k < Minus(out.Length, 4) && i < |data| {
      if k + 4 > out.Length { return OutOfBounds; }
      assert safe;
      PutNext(data, i, out, k, Encoded(data, m), m - g);
      k, g := k + 4, g + 1;
    }
    if k >= out.Length { return OutOfBounds; }
    assert m == g && (safe ==> Encoded(data, m) == out[..k]);
    out[k] := 0;
    r := Written(k);
  }

  lemma NulIsNoSymbol()
    ensures Value(0) > 63
  {
  }

  lemma DecodedStep(s: seq<bv8>, at: nat, limit: nat)
    requires at <= |s| && limit > 0
    ensures Decoded(s[at..], limit) == if Symbols(s[at..]) then Bytes(s[at..]) + Decoded(s[at + 4..], limit - 1) else []
  {
    if Symbols(s[at..]) { assert s[at..][4..] == s[at + 4..]; }
  }

  lemma Regroup(a: seq<bv8>, b: seq<bv8>, c: seq<bv8>)
    ensures a + (b + c) == a + b + c
  {
  }

  method PutBytes(encoded: seq<bv8>, at: nat, decoded: array<bv8>, to: nat)
    requires at <= |encoded| && Symbols(encoded[at..]) && to + 3 <= decoded.Length
    modifies decoded
    ensures decoded[..to + 3] == old(decoded[..to]) + Bytes(encoded[at..])
  {
    hide Value, Byte0, Byte1, Byte2;
    decoded[to] := Byte0(Value(encoded[at]), Value(encoded[at + 1]));
    decoded[to + 1] := Byte1(Value(encoded[at + 1]), Value(encoded[at + 2]));
    decoded[to + 2] := Byte2(Value(encoded[at + 2]), Value(encoded[at + 3]));
  }

  /** The next group is decoded behind what is there. */
  method TakeNext(encoded: seq<bv8>, at: nat, decoded: array<bv8>, to: nat, ghost all: seq<bv8>, ghost left: nat)
    requires at <= |encoded| && Symbols(encoded[at..]) && to + 3 <= decoded.Length && left > 0
    requires all == decoded[..to] + Decoded(encoded[at..], left)
    modifies decoded
    ensures all == decoded[..to + 3] + Decoded(encoded[at + 4..], left - 1)
  {
    hide Bytes, Decoded, Value;
    DecodedStep(encoded, at, left);
    Regroup(decoded[..to], Bytes(encoded[at..]), Decoded(encoded[at + 4..], left - 1));
    PutBytes(encoded, at, decoded, to);
  }

  /** Up to the first group with a character that is no symbol, and as far as the room goes. The string is never
      read beyond its NUL. */
  method Decode(encoded: seq<bv8>, decoded: array<bv8>, len: nat) returns (n: nat)
    requires len <= decoded.Length && exists z :: 0 <= z < |encoded| && encoded[z] == 0
    modifies decoded
    ensures if len == 0 then n == 0 else
              && n == |Decoded(encoded, Triples(len))| < len
              && decoded[..n] == Decoded(encoded, Triples(len)) && decoded[n] == 0
  {
    hide Decoded, Bytes, Value, Triples;
    if len == 0 { return 0; }
    NulIsNoSymbol();
    ghost var z :| 0 <= z < |encoded| && encoded[z] == 0;
    ghost var limit, g := Triples(len), 0;
    assert encoded[0..] == encoded;
    var i, at, to := len, 0, 0;
    while i > 3
      invariant i == len - to && at == 4 * g && to == 3 * g && g <= limit && at <= z
      invariant Decoded(encoded, limit) == decoded[..to] + Decoded(encoded[at..], limit - g)
      decreases i
    {
      if Value(encoded[at]) > 63 || Value(encoded[at + 1]) > 63 || Value(encoded[at + 2]) > 63 ||
         Value(encoded[at + 3]) > 63 {
        DecodedStep(encoded, at, limit - g);
        break;
      }
      TakeNext(encoded, at, decoded, to, Decoded(encoded, limit), limit - g);
      at, to, i, g := at + 4, to + 3, i - 3, g + 1;
    }
    decoded[to] := 0;
    n := len - i;
  }

  /** With room enough on both sides the data comes back, with zeros up to a whole group. */
  method EncodeAndDecode(data: seq<bv8>, out: array<bv8>, decoded: array<bv8>) returns (n: nat)
    requires |data| >= 3 && out.Length > 4 * GroupsOf(data) && decoded.Length > 3 * GroupsOf(data) && out != decoded
    modifies out, decoded
    ensures n == 3 * GroupsOf(data) && decoded[..n] == data + seq(n - |data|, _ => 0)
  {
    hide Encoded, Decoded;
    var r := Encode(data, out);
    var k := r.count;
    assert out[..] == out[..k] + [0] + out[k + 1..] && out[..][k] == 0;
    RoundTrip(data, out[k + 1..], decoded.Length);
    n := Decode(out[..], decoded, decoded.Length);
  }

  // ----- the alphabet

  /** The 64 symbols in the order of section 4 of RFC 4648: A to Z, a to z, 0 to 9, + and /. */
  lemma SymbolsInOrder()
    ensures [
      Symbol(0), Symbol(1), Symbol(2), Symbol(3), Symbol(4), Symbol(5), Symbol(6), Symbol(7), Symbol(8),
      Symbol(9), Symbol(10), Symbol(11), Symbol(12), Symbol(13), Symbol(14), Symbol(15), Symbol(16),
      Symbol(17), Symbol(18), Symbol(19), Symbol(20), Symbol(21), Symbol(22), Symbol(23), Symbol(24),
      Symbol(25), Symbol(26), Symbol(27), Symbol(28), Symbol(29), Symbol(30), Symbol(31), Symbol(32),
      Symbol(33), Symbol(34), Symbol(35), Symbol(36), Symbol(37), Symbol(38), Symbol(39), Symbol(40),
      Symbol(41), Symbol(42), Symbol(43), Symbol(44), Symbol(45), Symbol(46), Symbol(47), Symbol(48),
      Symbol(49), Symbol(50), Symbol(51), Symbol(52), Symbol(53), Symbol(54), Symbol(55), Symbol(56),
      Symbol(57), Symbol(58), Symbol(59), Symbol(60), Symbol(61), Symbol(62), Symbol(63)
    ] == [
      65, 66, 67, 68, 69, 70, 71, 72, 73, 74, 75, 76, 77, 78, 79, 80, 81, 82, 83, 84, 85, 86, 87, 88, 89, 90,
      97, 98, 99, 100, 101, 102, 103, 104, 105, 106, 107, 108, 109, 110, 111, 112, 113, 114, 115, 116, 117,
      118, 119, 120, 121, 122, 48, 49, 50, 51, 52, 53, 54, 55, 56, 57, 43, 47
    ]
  {
  }

  /** Nothing else is a symbol, but `=`, which counts as zero. */
  lemma NoOtherSymbol(c: bv8)
    ensures Value(c) <= 63 <==> 65 <= c <= 90 || 97 <= c <= 122 || 48 <= c <= 57 || c == 43 || c == 47 || c == 61
    ensures Value(61) == 0 && Value(43) == 62 && Value(47) == 63
  {
  }

  /** Text with `=` in place of what is missing of the last group decodes to the bytes that are there, and zeros. */
  lemma PaddingDecodes(b0: bv8, b1: bv8)
    ensures Decoded(Group(b0, 0, 0)[..2] + [61, 61], 1) == [b0, 0, 0]
    ensures Decoded(Group(b0, b1, 0)[..3] + [61], 1) == [b0, b1, 0]
  {
    hide Symbol, Value, First, Second, Third, Fourth, Byte0, Byte1, Byte2, Decoded;
    FilledUp(b0, 0, 2);
    FilledUp(b0, b1, 3);
  }

  lemma FilledUp(b0: bv8, b1: bv8, n: nat)
    requires n == 3 || (n == 2 && b1 == 0)
    ensures Decoded(Group(b0, b1, 0)[..n] + (if n == 2 then [61, 61] else [61]), 1) == [b0, b1, 0]
  {
    hide Symbol, Value, First, Second, Third, Fourth, Byte0, Byte1, Byte2;
    var s := Group(b0, b1, 0)[..n] + (if n == 2 then [61, 61] else [61]);
    NoOtherSymbol(61);
    ZeroValues();
    SixBits(b0, b1, 0);
    Bits(b0, b1, 0);
    ValueOfSymbol(First(b0));
    ValueOfSymbol(Second(b0, b1));
    ValueOfSymbol(Third(b1, 0));
    assert s[0] == Symbol(First(b0)) && s[1] == Symbol(Second(b0, b1)) && s[3] == 61;
    assert s[2] == if n == 2 then 61 else Symbol(Third(b1, 0));
    assert Decoded(s[4..], 0) == [];
  }

  lemma ZeroValues()
    ensures Third(0, 0) == 0 && Fourth(0) == 0
  {
  }
}
