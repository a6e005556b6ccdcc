/** The `Encapsulated` header (section 4.4.1 of RFC 3507): `ci_request_t_pack` computes and prints the offsets of
    the encapsulated entities, `process_encapsulated` reads them back. */
module Encapsulated {
  import opened Common
  import opened Text
  import opened HeaderBlock

  /** One item of the list: an entity and the offset at which it starts. */
  datatype Item = Item(kind: Kind, start: int)

  function Name(k: Kind): string {
    match k
    case ReqHdr => "req-hdr"
    case ResHdr => "res-hdr"
    case ReqBody => "req-body"
    case ResBody => "res-body"
    case NullBody => "null-body"
    case OptBody => "opt-body"
  }

  // ----- printing

  function ItemText(i: Item): string
    requires i.start >= 0
  {
    Name(i.kind) + "=" + Digits(i.start, 10)
  }

  predicate Printable(items: seq<Item>) {
    forall i :: 0 <= i < |items| ==> 0 <= items[i].start <= 0x7fff_ffff
  }

  function ItemsText(items: seq<Item>): string
    requires Printable(items)
  {
    if items == [] then ""
    else ItemText(items[0]) + (if |items| == 1 then "" else ", " + ItemsText(items[1..]))
  }

  const FIELD: string := "Encapsulated:"

  /** The whole header line; no entity at all is announced as an empty null-body. */
  function Line(items: seq<Item>): string
    requires Printable(items)
  {
    FIELD + " " + if items == [] then "null-body=0" else ItemsText(items)
  }

  // ----- parsing

  /** What `get_encaps_type` finds: an entity, its value, and where the value ends; `Overrun` when the value would
      have to be read behind the end of the string. */
  datatype Token = Token(kind: Kind, value: int, end: nat) | Unknown | Overrun

  predicate StartsWith(s: string, name: string) {
    |name| <= |s| && s[..|name|] == name
  }

  /** A `long` cut to an `int`. */
  function CutToInt(v: int): (n: int)
    ensures -0x8000_0000 <= n <= 0x7fff_ffff
    ensures -0x8000_0000 <= v <= 0x7fff_ffff ==> n == v
    ensures (v - n) % 0x1_0000_0000 == 0
  {
    (v + 0x8000_0000) % 0x1_0000_0000 - 0x8000_0000
  }

  function ValueAt(s: string, k: Kind, from: nat): Token {
    if from > |s| then Overrun
    else
      var n := Strtol(s, from, 10);
      Token(k, CutToInt(n.value), n.end)
  }

  function EncapsType(s: string): (t: Token)
    ensures t.Token? ==> 0 < t.end <= |s|
  {
    if StartsWith(s, "req-hdr") then ValueAt(s, ReqHdr, 8)
    else if StartsWith(s, "res-hdr") then ValueAt(s, ResHdr, 8)
    else if StartsWith(s, "req-body") then ValueAt(s, ReqBody, 9)
    else if StartsWith(s, "res-body") then ValueAt(s, ResBody, 9)
    else if StartsWith(s, "null-body") then ValueAt(s, NullBody, 10)
    else Unknown
  }

  function SkipSeparators(s: string): (r: string)
    ensures |r| <= |s|
  {
    if s != "" && (IsSpace(s[0]) || s[0] == ',') then SkipSeparators(s[1..]) else s
  }

  function SkipLeading(s: string): (r: string)
    ensures |r| <= |s|
  {
    if s != "" && IsSpace(s[0]) then SkipLeading(s[1..]) else s
  }

  datatype Parsed = Entities(items: seq<Item>) | BadRequest | Unsafe

  function Prepend(item: Item, p: Parsed): Parsed {
    if p.Entities? then Entities([item] + p.items) else p
  }

  /** How many entities a request has room for; `process_encapsulated` looks for more than five only after storing. */
  const SLOTS: nat := 5

  /** The entities in the rest of a line, `num` of them having been read. */
  function ParseItems(s: string, num: nat): Parsed
    decreases |s|
  {
    if s == "" then Entities([])
    else
      match EncapsType(s)
      case Unknown => BadRequest
      case Overrun => Unsafe
      case Token(kind, value, end) =>
        if num > 5 then Entities([])
        else if num >= SLOTS then Unsafe
        else Prepend(Item(kind, value), ParseItems(SkipSeparators(s[end..]), num + 1))
  }

  /** `process_encapsulated` on a header line. */
  method ProcessEncapsulated(line: string) returns (r: Parsed, hasBody: bool)
    requires |line| >= 13
    ensures r == ParseItems(SkipLeading(line[13..]), 0)
    ensures r.Entities? ==> (hasBody <==> forall i :: 0 <= i < |r.items| ==> !r.items[i].kind.NullBody?)
  {
    hide EncapsType;
    var rest := SkipSpaceRun(line[13..]);
    var items: seq<Item> := [];
    hasBody := true;
    ghost var whole := ParseItems(rest, 0);
    while rest != ""
      invariant whole == After(items, ParseItems(rest, |items|))
      invariant hasBody <==> forall i :: 0 <= i < |items| ==> !items[i].kind.NullBody?
      decreases |rest|
    {
      var token := EncapsType(rest);
      if token.Unknown? { return BadRequest, false; }
      if token.Overrun? { return Unsafe, false; }
      if |items| > 5 { break; }
      if |items| >= SLOTS { return Unsafe, false; }
      ghost var before := items;
      if token.kind.NullBody? { hasBody := false; }
      ghost var tail := ParseItems(SkipSeparators(rest[token.end..]), |items| + 1);
      assert tail.Entities? ==> items + ([Item(token.kind, token.value)] + tail.items)
                                == items + [Item(token.kind, token.value)] + tail.items;
      items := items + [Item(token.kind, token.value)];
      assert items[..|before|] == before && items[|before|].kind == token.kind;
      rest := SkipSeparatorRun(rest[token.end..]);
    }
    r := Entities(items);
  }

  method SkipSpaceRun(s: string) returns (rest: string)
    ensures rest == SkipLeading(s)
  {
    rest := s;
    while rest != "" && IsSpace(rest[0])
      invariant SkipLeading(rest) == SkipLeading(s)
      decreases |rest|
    {
      rest := rest[1..];
    }
  }

  method SkipSeparatorRun(s: string) returns (rest: string)
    ensures rest == SkipSeparators(s)
  {
    rest := s;
    while rest != "" && (IsSpace(rest[0]) || rest[0] == ',')
      invariant SkipSeparators(rest) == SkipSeparators(s)
      decreases |rest|
    {
      rest := rest[1..];
    }
  }

  ghost function After(items: seq<Item>, p: Parsed): Parsed {
    if p.Entities? then Entities(items + p.items) else p
  }

  // ----- printed lines are read back

  /** `get_encaps_type` on a printed item, whatever follows it. */
  lemma TokenOfItem(i: Item, more: string)
    requires 0 <= i.start <= 0x7fff_ffff && !i.kind.OptBody?
    requires more != "" ==> !IsDigit(more[0], 10) && more[0] != 'x' && more[0] != 'X'
    ensures EncapsType(ItemText(i) + more) == Token(i.kind, i.start, |ItemText(i)|)
  {
    hide Digits, Strtol, EncapsType, Name;
    var name, ds := Name(i.kind), Digits(i.start, 10);
    var s, from := ItemText(i) + more, |name| + 1;
    assert s == name + "=" + ds + more;
    assert s[from..from + |ds|] == ds;
    StrtolOfDigits(s, from, i.start, 10);
    assert StartsWith(s, name);
    NamesDiffer(i.kind, s);
  }

  /** No name that is tried earlier is a prefix of a later one. */
  lemma NamesDiffer(k: Kind, s: string)
    requires StartsWith(s, Name(k)) && !k.OptBody?
    ensures EncapsType(s) == ValueAt(s, k, |Name(k)| + 1)
  {
    hide ValueAt;
    assert s[2] == Name(k)[2] && s[4] == Name(k)[4] && s[0] == Name(k)[0];
    assert StartsWith(s, "req-hdr") ==> s[2] == 'q' && s[4] == 'h';
    assert StartsWith(s, "res-hdr") ==> s[2] == 's' && s[4] == 'h';
    assert StartsWith(s, "req-body") ==> s[2] == 'q' && s[4] == 'b';
    assert StartsWith(s, "res-body") ==> s[2] == 's' && s[4] == 'b';
  }

  lemma SeparatorsSkipped(s: string)
    requires s != "" && !IsSpace(s[0]) && s[0] != ','
    ensures SkipSeparators(", " + s) == s
  {
    var t := ", " + s;
    assert t[1..] == " " + s && t[1..][1..] == s;
    assert SkipSeparators(s) == s;
  }

  lemma ItemsStart(items: seq<Item>)
    requires Printable(items) && items != []
    ensures ItemsText(items) != "" && !IsSpace(ItemsText(items)[0]) && ItemsText(items)[0] != ','
  {
    hide Digits;
    assert ItemsText(items)[0] == Name(items[0].kind)[0];
  }

  lemma {:induction false} ItemsReadBack(items: seq<Item>, num: nat)
    requires Printable(items) && num <= SLOTS
    requires forall i :: 0 <= i < |items| ==> !items[i].kind.OptBody?
    ensures ParseItems(ItemsText(items), num) == if num + |items| <= SLOTS then Entities(items) else Unsafe
  {
    hide EncapsType, ItemText;
    if items != [] {
      ItemsStart(items);
      var s, tail := ItemsText(items), items[1..];
      var more := if tail == [] then "" else ", " + ItemsText(tail);
      assert s == ItemText(items[0]) + more;
      TokenOfItem(items[0], more);
      assert s[|ItemText(items[0])|..] == more;
      if tail != [] {
        ItemsStart(tail);
        SeparatorsSkipped(ItemsText(tail));
      }
      if num < SLOTS { ItemsReadBack(tail, num + 1); }
      assert items == [items[0]] + tail;
    }
  }

  /** The printed line is parsed back to the same list, if there is room for it; the empty list comes back as its
      null-body. */
  lemma LineReadBack(items: seq<Item>)
    requires Printable(items)
    requires forall i :: 0 <= i < |items| ==> !items[i].kind.OptBody?
    ensures |Line(items)| >= 13
    ensures ParseItems(SkipLeading(Line(items)[13..]), 0)
            == if |items| > SLOTS then Unsafe else Entities(if items == [] then [Item(NullBody, 0)] else items)
  {
    hide ParseItems, ItemText;
    var shown := if items == [] then [Item(NullBody, 0)] else items;
    assert items == [] ==> ItemsText(shown) == "null-body=0" by { EmptyText(); }
    var t := ItemsText(shown);
    ItemsStart(shown);
    ItemsReadBack(shown, 0);
    assert Line(items) == FIELD + " " + t;
    assert Line(items)[13..] == " " + t && (" " + t)[1..] == t;
    assert SkipLeading(t) == t;
  }

  lemma EmptyText()
    ensures ItemsText([Item(NullBody, 0)]) == "null-body=0"
  {
    assert Digits(0, 10) == "0";
  }

  // ----- the offsets are the places of the blocks on the wire

  /** The size that `sizeofencaps` takes a header block for: its lines and the closing CRLF. */
  function SizeOf(kind: Kind, lines: seq<HeaderBlock.Line>): nat {
    if IsHeader(kind) then |Joined(lines, true)| + 2 else 0
  }

  /** The bytes that go over the wire for an entity before the body; `closed` tells whether the block has the LF of its
      closing line. */
  function Wire(kind: Kind, lines: seq<HeaderBlock.Line>, closed: bool): string {
    if IsHeader(kind) then Joined(lines, false) + (if closed then CRLF else "\n") else ""
  }

  /** The total size that the blocks before entity `n` are taken for. */
  function Counted(kinds: seq<Kind>, lines: seq<seq<HeaderBlock.Line>>, n: nat): nat
    requires n <= |kinds| == |lines|
  {
    if n == 0 then 0 else Counted(kinds, lines, n - 1) + SizeOf(kinds[n - 1], lines[n - 1])
  }

  /** Their total length on the wire. */
  function LengthBefore(kinds: seq<Kind>, lines: seq<seq<HeaderBlock.Line>>, closed: seq<bool>, n: nat): nat
    requires n <= |kinds| == |lines| == |closed|
  {
    if n == 0 then 0 else LengthBefore(kinds, lines, closed, n - 1) + |Wire(kinds[n - 1], lines[n - 1], closed[n - 1])|
  }

  lemma SizeIsWireLength(kind: Kind, lines: seq<HeaderBlock.Line>, closed: bool)
    ensures SizeOf(kind, lines) == |Wire(kind, lines, closed)| + if IsHeader(kind) && !closed then 1 else 0
  {
    JoinedLength(lines);
  }

  predicate AllClosed(kinds: seq<Kind>, closed: seq<bool>, n: nat)
    requires n <= |kinds| == |closed|
  {
    forall i :: 0 <= i < n && IsHeader(kinds[i]) ==> closed[i]
  }

  /** The count is right exactly if all blocks before are closed, and too large otherwise. */
  lemma {:induction false} CountIsLength(kinds: seq<Kind>, lines: seq<seq<HeaderBlock.Line>>, closed: seq<bool>, n: nat)
    requires n <= |kinds| == |lines| == |closed|
    ensures LengthBefore(kinds, lines, closed, n) <= Counted(kinds, lines, n)
    ensures LengthBefore(kinds, lines, closed, n) == Counted(kinds, lines, n) <==> AllClosed(kinds, closed, n)
  {
    hide SizeOf, Wire, AllClosed, Counted, LengthBefore;
    NoneCounted(kinds, lines, closed);
    if n > 0 {
      OneMoreCounted(kinds, lines, closed, n - 1);
      CountIsLength(kinds, lines, closed, n - 1);
      SizeIsWireLength(kinds[n - 1], lines[n - 1], closed[n - 1]);
      OneMoreClosed(kinds, closed, n - 1);
    }
  }

  lemma NoneCounted(kinds: seq<Kind>, lines: seq<seq<HeaderBlock.Line>>, closed: seq<bool>)
    requires |kinds| == |lines| == |closed|
    ensures Counted(kinds, lines, 0) == LengthBefore(kinds, lines, closed, 0) == 0 && AllClosed(kinds, closed, 0)
  {
  }

  lemma OneMoreCounted(kinds: seq<Kind>, lines: seq<seq<HeaderBlock.Line>>, closed: seq<bool>, n: nat)
    requires n < |kinds| == |lines| == |closed|
    ensures Counted(kinds, lines, n + 1) == Counted(kinds, lines, n) + SizeOf(kinds[n], lines[n])
    ensures LengthBefore(kinds, lines, closed, n + 1)
         == LengthBefore(kinds, lines, closed, n) + |Wire(kinds[n], lines[n], closed[n])|
  {
  }

  lemma OneMoreClosed(kinds: seq<Kind>, closed: seq<bool>, n: nat)
    requires n < |kinds| == |closed|
    ensures AllClosed(kinds, closed, n + 1) <==> AllClosed(kinds, closed, n) && (IsHeader(kinds[n]) ==> closed[n])
  {
  }

  /** Every header block is in edit mode, closed as `closed` says, and shares no memory with another. */
  ghost predicate Ready(kinds: seq<Kind>, blocks: seq<Headers>, lines: seq<seq<HeaderBlock.Line>>, closed: seq<bool>, from: nat)
    requires |kinds| == |blocks| == |lines| == |closed|
    reads blocks, set b | b in blocks :: b.buf
  {
    forall i :: from <= i < |kinds| && IsHeader(kinds[i]) ==> ReadyBlock(blocks[i], lines[i], closed[i])
  }

  ghost predicate ReadyBlock(block: Headers, lines: seq<HeaderBlock.Line>, closed: bool)
    reads block, block.buf
  {
    block.Holds(lines) && (closed <==> block.Terminated())
  }

  ghost predicate PackedBlock(kind: Kind, block: Headers, lines: seq<HeaderBlock.Line>, closed: bool)
    reads block, block.buf
  {
    block.packed && block.bufused <= block.buf.Length && block.buf[..block.bufused] == Wire(kind, lines, closed)
  }

  method PackOne(kind: Kind, block: Headers, ghost lines: seq<HeaderBlock.Line>, ghost closed: bool)
    requires IsHeader(kind) && ReadyBlock(block, lines, closed)
    modifies block, block.buf
    ensures block.buf == old(block.buf) && PackedBlock(kind, block, lines, closed)
  {
    hide Joined;
    block.Pack(lines);
  }

  ghost predicate Apart(blocks: seq<Headers>)
    reads blocks
  {
    forall i, j :: 0 <= i < j < |blocks| ==> blocks[i] != blocks[j] && blocks[i].buf != blocks[j].buf
  }

  /** The header blocks up to `n` are packed. */
  ghost predicate Packed(kinds: seq<Kind>, blocks: seq<Headers>, lines: seq<seq<HeaderBlock.Line>>, closed: seq<bool>, n: nat)
    requires n <= |kinds| == |blocks| == |lines| == |closed|
    reads blocks, set b | b in blocks :: b.buf
  {
    forall i :: 0 <= i < n && IsHeader(kinds[i]) ==> PackedBlock(kinds[i], blocks[i], lines[i], closed[i])
  }

  /** The offsets and the packing in `ci_request_t_pack`, for up to three entities. The offsets are the places of the
      entities on the wire exactly if every header block before the last entity is closed. */
  method PackMessage(kinds: seq<Kind>, blocks: seq<Headers>, ghost lines: seq<seq<HeaderBlock.Line>>, ghost closed: seq<bool>)
    returns (items: seq<Item>, line: string)
    requires |kinds| == |blocks| == |lines| == |closed| <= 3 && Apart(blocks) && Ready(kinds, blocks, lines, closed, 0)
    requires Counted(kinds, lines, |kinds|) <= 0x7fff_ffff
    modifies blocks, set b | b in blocks :: b.buf
    ensures |items| == |kinds| && Printable(items) && line == Line(items)
    ensures forall i :: 0 <= i < |kinds| ==> items[i] == Item(kinds[i], Counted(kinds, lines, i))
    ensures Packed(kinds, blocks, lines, closed, |kinds|)
    ensures (forall i :: 0 <= i < |items| ==> items[i].start == LengthBefore(kinds, lines, closed, i))
            <==> kinds == [] || AllClosed(kinds, closed, |kinds| - 1)
  {
    hide Line, Joined, Headers.Holds, Headers.Terminated, Counted, LengthBefore;
    items := Offsets(kinds, blocks, lines, closed);
    line := Line(items);
    forall i | 0 <= i < |kinds|
      ensures items[i].start == LengthBefore(kinds, lines, closed, i) <==> AllClosed(kinds, closed, i)
    {
      CountIsLength(kinds, lines, closed, i);
    }
    PackAll(kinds, blocks, lines, closed);
  }

  method PackAll(kinds: seq<Kind>, blocks: seq<Headers>, ghost lines: seq<seq<HeaderBlock.Line>>, ghost closed: seq<bool>)
    requires |kinds| == |blocks| == |lines| == |closed| && Apart(blocks) && Ready(kinds, blocks, lines, closed, 0)
    modifies blocks, set b | b in blocks :: b.buf
    ensures Packed(kinds, blocks, lines, closed, |kinds|)
  {
    hide ReadyBlock, PackedBlock;
    for i := 0 to |kinds|
      invariant forall k :: 0 <= k < |blocks| ==> blocks[k].buf == old(blocks[k].buf)
      invariant Ready(kinds, blocks, lines, closed, i) && Packed(kinds, blocks, lines, closed, i)
    {
      if IsHeader(kinds[i]) {
        assert blocks[i] in blocks;
        PackOne(kinds[i], blocks[i], lines[i], closed[i]);
        assert forall k :: 0 <= k < |blocks| && k != i ==> blocks[k] != blocks[i] && blocks[k].buf != blocks[i].buf;
      }
    }
  }

  method Offsets(kinds: seq<Kind>, blocks: seq<Headers>, ghost lines: seq<seq<HeaderBlock.Line>>, ghost closed: seq<bool>)
    returns (items: seq<Item>)
    requires |kinds| == |blocks| == |lines| == |closed| <= 3 && Ready(kinds, blocks, lines, closed, 0)
    requires Counted(kinds, lines, |kinds|) <= 0x7fff_ffff
    ensures |items| == |kinds| && Printable(items)
    ensures forall i :: 0 <= i < |kinds| ==> items[i] == Item(kinds[i], Counted(kinds, lines, i))
  {
    hide Joined, SizeOf, Headers.Holds, Headers.Terminated;
    items := [];
    if |kinds| > 0 {
      assert Counted(kinds, lines, 0) == 0;
      items := [Item(kinds[0], 0)];
      if |kinds| > 1 {
        var size0 := SizeOfEntity(kinds[0], blocks[0], lines[0]);
        assert Counted(kinds, lines, 1) == size0;
        items := items + [Item(kinds[1], size0)];
        if |kinds| > 2 {
          var size1 := SizeOfEntity(kinds[1], blocks[1], lines[1]);
          assert Counted(kinds, lines, 2) == size0 + size1;
          items := items + [Item(kinds[2], size1 + size0)];
        }
      }
    }
  }

  /** `sizeofencaps`. */
  method SizeOfEntity(kind: Kind, block: Headers, ghost lines: seq<HeaderBlock.Line>) returns (size: nat)
    requires IsHeader(kind) ==> block.Holds(lines)
    ensures size == SizeOf(kind, lines)
  {
    size := if IsHeader(kind) then block.bufused + 2 else 0;
    assert IsHeader(kind) ==> |block.buf[..block.bufused]| == block.bufused;
  }

  // ----- how the lines look

  /** The lines of the usual messages. */
  lemma LinesLookLike(x: nat, y: nat)
    requires x <= 0x7fff_ffff && y <= 0x7fff_ffff
    ensures Line([Item(ReqHdr, 0), Item(ResHdr, x), Item(ResBody, y)])
         == "Encapsulated: req-hdr=0, res-hdr=" + Digits(x, 10) + ", res-body=" + Digits(y, 10)
    ensures Line([Item(ReqHdr, 0), Item(ReqBody, x)]) == "Encapsulated: req-hdr=0, req-body=" + Digits(x, 10)
    ensures Line([Item(ResHdr, 0), Item(NullBody, x)]) == "Encapsulated: res-hdr=0, null-body=" + Digits(x, 10)
    ensures Line([]) == "Encapsulated: null-body=0"
  {
    hide Digits, ItemText, Line;
    var a, b := Digits(x, 10), Digits(y, 10);
    ThreeItems(Item(ReqHdr, 0), Item(ResHdr, x), Item(ResBody, y));
    TwoItems(Item(ReqHdr, 0), Item(ReqBody, x));
    TwoItems(Item(ResHdr, 0), Item(NullBody, x));
    ItemsLookLike(x);
    ItemsLookLike(y);
    ItemsLookLike(0);
    ZeroLine();
    Fronts();
    Glue("Encapsulated: " + "req-hdr=0" + ", ", "res-hdr=", a);
    Glue("Encapsulated: req-hdr=0, res-hdr=" + a + ", ", "res-body=", b);
    Glue("Encapsulated: req-hdr=0, res-hdr=" + a, ", ", "res-body=");
    Glue("Encapsulated: " + "req-hdr=0" + ", ", "req-body=", a);
    Glue("Encapsulated: " + "res-hdr=0" + ", ", "null-body=", a);
  }

  lemma Glue(p: string, q: string, a: string)
    ensures p + (q + a) == p + q + a
  {
  }

  lemma Fronts()
    ensures "Encapsulated: " + "req-hdr=0" + ", " + "res-hdr=" == "Encapsulated: req-hdr=0, res-hdr="
    ensures "Encapsulated: " + "req-hdr=0" + ", " + "req-body=" == "Encapsulated: req-hdr=0, req-body="
    ensures "Encapsulated: " + "res-hdr=0" + ", " + "null-body=" == "Encapsulated: res-hdr=0, null-body="
    ensures ", " + "res-body=" == ", res-body="
  {
  }

  lemma ZeroLine()
    ensures Line([]) == "Encapsulated: null-body=0" && "req-hdr=" + Digits(0, 10) == "req-hdr=0" && "res-hdr=" + Digits(0, 10) == "res-hdr=0"
  {
    assert Digits(0, 10) == "0";
  }

  lemma ItemsLookLike(x: nat)
    ensures ItemText(Item(ReqHdr, x)) == "req-hdr=" + Digits(x, 10) && ItemText(Item(ResHdr, x)) == "res-hdr=" + Digits(x, 10)
    ensures ItemText(Item(ReqBody, x)) == "req-body=" + Digits(x, 10) && ItemText(Item(ResBody, x)) == "res-body=" + Digits(x, 10)
    ensures ItemText(Item(NullBody, x)) == "null-body=" + Digits(x, 10)
  {
    hide Digits;
  }

  lemma TwoItems(a: Item, b: Item)
    requires 0 <= a.start <= 0x7fff_ffff && 0 <= b.start <= 0x7fff_ffff
    ensures Line([a, b]) == "Encapsulated: " + ItemText(a) + ", " + ItemText(b)
  {
    hide ItemText;
    assert [a, b][1..] == [b];
    assert ItemsText([b]) == ItemText(b) + "";
  }

  lemma ThreeItems(a: Item, b: Item, c: Item)
    requires 0 <= a.start <= 0x7fff_ffff && 0 <= b.start <= 0x7fff_ffff && 0 <= c.start <= 0x7fff_ffff
    ensures Line([a, b, c]) == "Encapsulated: " + ItemText(a) + ", " + ItemText(b) + ", " + ItemText(c)
  {
    hide ItemText;
    assert [a, b, c][1..] == [b, c] && [b, c][1..] == [c];
    assert ItemsText([c]) == ItemText(c) + "";
    assert ItemsText([b, c]) == ItemText(b) + (", " + ItemsText([c]));
  }

  /** Items may be separated by any white space and commas. */
  lemma AnySeparators(i: Item, gap: string, text: string, num: nat)
    requires 0 <= i.start <= 0x7fff_ffff && !i.kind.OptBody? && num < SLOTS
    requires gap != "" && forall k :: 0 <= k < |gap| ==> gap[k] in {' ', '\t', '\n', 11 as char, 12 as char, '\r', ','}
    requires text != "" ==> text[0] !in {' ', '\t', '\n', 11 as char, 12 as char, '\r', ','}
    ensures ParseItems(ItemText(i) + (gap + text), num) == Prepend(i, ParseItems(text, num + 1))
  {
    hide EncapsType, ItemText, SkipSeparators;
    var s, more := ItemText(i) + (gap + text), gap + text;
    assert more[0] == gap[0];
    TokenOfItem(i, more);
    assert s[|ItemText(i)|..] == more;
    GapSkipped(gap, text);
  }

  lemma {:induction false} GapSkipped(gap: string, text: string)
    requires forall k :: 0 <= k < |gap| ==> gap[k] in {' ', '\t', '\n', 11 as char, 12 as char, '\r', ','}
    requires text != "" ==> text[0] !in {' ', '\t', '\n', 11 as char, 12 as char, '\r', ','}
    ensures SkipSeparators(gap + text) == text
  {
    if gap == "" {
      assert gap + text == text;
    } else {
      GapSkipped(gap[1..], text);
      assert (gap + text)[1..] == gap[1..] + text && (gap + text)[0] == gap[0];
    }
  }

  /** A list whose next item has none of the five names is refused, and with it the request. */
  lemma UnknownRefused(spaces: string, text: string)
    requires (forall k :: 0 <= k < |spaces| ==> spaces[k] in {' ', '\t', '\n', 11 as char, 12 as char, '\r'})
    requires text != "" && text[0] !in {' ', '\t', '\n', 11 as char, 12 as char, '\r'}
    requires !("req-hdr" <= text) && !("res-hdr" <= text) && !("req-body" <= text) && !("res-body" <= text) && !("null-body" <= text)
    ensures ParseItems(SkipLeading(spaces + text), 0) == BadRequest
    ensures forall num :: ParseItems(text, num) == BadRequest
  {
    LeadingSkipped(spaces, text);
  }

  lemma {:induction false} LeadingSkipped(spaces: string, text: string)
    requires (forall k :: 0 <= k < |spaces| ==> spaces[k] in {' ', '\t', '\n', 11 as char, 12 as char, '\r'})
    requires text != "" && text[0] !in {' ', '\t', '\n', 11 as char, 12 as char, '\r'}
    ensures SkipLeading(spaces + text) == text
  {
    if spaces == "" {
      assert spaces + text == text;
    } else {
      LeadingSkipped(spaces[1..], text);
      assert (spaces + text)[1..] == spaces[1..] + text && (spaces + text)[0] == spaces[0];
    }
  }
}
