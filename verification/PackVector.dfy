/** Vectors in one memory block: the pack allocator hands out the index from the front and the items from the rear.
    A vector is stored in a cache block with its pointers turned into offsets, and rebuilt from it. */
module PackVector {

  const SLOT: nat := 8

  /** `_CI_ALIGN`. */
  function Align(n: nat): (r: nat)
    ensures r % 8 == 0 && n <= r < n + 8
    ensures n % 8 == 0 ==> r == n
  {
    (n + 7) / 8 * 8
  }

  /** `_ALIGNED_OFFSET`: the next smaller aligned offset. */
  function AlignDown(n: nat): (r: nat)
    ensures r % 8 == 0 && r <= n < r + 8
    ensures n % 8 == 0 ==> r == n
  {
    n / 8 * 8
  }

  /** Room for the allocator and vector structures at the front of every block, on a 64-bit system. */
  const HEADER: nat := 144

  /** Where item `i` of a vector ends: at the item before it, or at the end of the block. */
  function Upper(items: seq<nat>, end: nat, i: nat): nat
    requires i <= |items|
  {
    if i == 0 then end else items[i - 1]
  }

  /** Item `i` lies right below the item before it and starts with its contents. */
  predicate Placed(mem: string, items: seq<nat>, contents: seq<string>, end: nat, i: nat)
    requires i < |items| == |contents|
  {
    && items[i] + Align(|contents[i]|) == Upper(items, end, i) <= |mem|
    && |contents[i]| >= 1 && mem[items[i]..items[i] + |contents[i]|] == contents[i]
  }

  /** All items, one below the other from the end of the block. */
  predicate Layout(mem: string, items: seq<nat>, contents: seq<string>, end: nat) {
    && |items| == |contents| && end <= |mem|
    && forall i :: 0 <= i < |items| ==> Placed(mem, items, contents, end, i)
  }

  lemma {:induction false} RearIsLowest(mem: string, items: seq<nat>, contents: seq<string>, end: nat, i: nat)
    requires Layout(mem, items, contents, end) && i < |items|
    ensures Upper(items, end, |items|) <= items[i]
    decreases |items| - i
  {
    if i + 1 < |items| {
      assert Placed(mem, items, contents, end, i + 1);
      RearIsLowest(mem, items, contents, end, i + 1);
    }
  }

  lemma {:induction false} EndIsHighest(mem: string, items: seq<nat>, contents: seq<string>, end: nat, i: nat)
    requires Layout(mem, items, contents, end) && i < |items|
    ensures items[i] + Align(|contents[i]|) <= end
  {
    assert Placed(mem, items, contents, end, i);
    if i > 0 { EndIsHighest(mem, items, contents, end, i - 1); }
  }

  lemma LayoutAdd(mem: string, items: seq<nat>, contents: seq<string>, end: nat, pos: nat, value: string, mem': string)
    requires Layout(mem, items, contents, end) && |value| >= 1 && |mem'| == |mem|
    requires pos + Align(|value|) == Upper(items, end, |items|) <= |mem| && mem'[pos..pos + |value|] == value
    requires mem'[pos + Align(|value|)..] == mem[pos + Align(|value|)..]
    ensures Layout(mem', items + [pos], contents + [value], end)
  {
    var rear := pos + Align(|value|);
    forall i | 0 <= i <= |items| ensures Placed(mem', items + [pos], contents + [value], end, i) {
      if i < |items| {
        assert Placed(mem, items, contents, end, i);
        RearIsLowest(mem, items, contents, end, i);
        SameAbove(mem, mem', rear, items[i], items[i] + |contents[i]|);
      }
    }
  }

  lemma SameAbove(mem: string, mem': string, rear: nat, a: nat, b: nat)
    requires rear <= a <= b <= |mem| == |mem'| && mem'[rear..] == mem[rear..]
    ensures mem'[a..b] == mem[a..b]
  {
    forall i | a <= i < b ensures mem'[i] == mem[i] {
      assert mem'[rear..][i - rear] == mem[rear..][i - rear];
    }
  }

  lemma LayoutPop(mem: string, items: seq<nat>, contents: seq<string>, end: nat)
    requires Layout(mem, items, contents, end) && items != []
    ensures var n := |items| - 1;
            && Layout(mem, items[..n], contents[..n], end)
            && items[n] <= Upper(items[..n], end, n) <= end
  {
    var n := |items| - 1;
    EndIsHighest(mem, items, contents, end, n);
    assert Placed(mem, items, contents, end, n);
    forall i | 0 <= i < n ensures Placed(mem, items[..n], contents[..n], end, i) {
      assert Placed(mem, items, contents, end, i);
    }
  }

  class Vector {
    const mem: array<char>
    const maxSize: nat
    var items: seq<nat>          // the positions in the index
    var curpos: nat              // the allocator's front
    var endpos: nat              // and its rear
    ghost var contents: seq<string>

    ghost function End(): nat {
      AlignDown(maxSize)
    }

    /** Front and rear never meet. */
    ghost predicate Disjoint()
      reads this
    {
      mem.Length == maxSize && HEADER <= curpos <= endpos <= End()
    }

    ghost predicate Valid()
      reads this, mem
    {
      && Disjoint() && Layout(mem[..], items, contents, End())
      && curpos == HEADER + SLOT * (|items| + 1)
      && endpos == Upper(items, End(), |items|)
    }

    constructor (maxSize: nat)
      requires AlignDown(maxSize) >= HEADER + SLOT
      ensures Valid() && fresh(mem) && contents == [] && this.maxSize == maxSize
    {
      this.maxSize := maxSize;
      mem := new char[maxSize](_ => '\0');
      items, contents := [], [];
      curpos, endpos := HEADER + SLOT, AlignDown(maxSize);
    }

    /** `ci_vector_create`: nothing if there is no memory or the block cannot hold the structures. */
    static method Create(maxSize: nat, memory: bool) returns (v: Vector?)
      ensures v == null <==> !memory || AlignDown(maxSize) < HEADER + SLOT
      ensures v != null ==> fresh(v) && fresh(v.mem) && v.Valid() && v.contents == [] && v.items == [] && v.maxSize == maxSize
    {
      if !memory || AlignDown(maxSize) < HEADER + SLOT { return null; }
      v := new Vector(maxSize);
    }

    /** `ci_vector_add`. The slot is taken before the item: if only the item does not fit, the slot is lost and the
        index no longer ends where the vector does. */
    method Add(value: string) returns (ok: bool)
      requires Valid() && |value| >= 1
      modifies this, mem
      ensures Disjoint()
      ensures ok <==> old(endpos - curpos) >= SLOT + Align(|value|)
      ensures ok ==> Valid() && contents == old(contents) + [value] && items == old(items) + [endpos]
                     && curpos == old(curpos) + SLOT && endpos == old(endpos) - Align(|value|)
      ensures !ok ==> contents == old(contents) && (Valid() <==> old(endpos - curpos) < SLOT)
    {
      hide Layout, Align, AlignDown;
      ok := false;
      if endpos - curpos < SLOT { return; }
      curpos := curpos + SLOT;
      if endpos - curpos < Align(|value|) { return; }
      ghost var before, rear := mem[..], endpos;
      endpos := endpos - Align(|value|);
      forall i | 0 <= i < |value| { mem[endpos + i] := value[i]; }
      assert mem[..][rear..] == before[rear..] && mem[..][endpos..endpos + |value|] == value;
      LayoutAdd(before, items, contents, End(), endpos, value, mem[..]);
      items, contents := items + [endpos], contents + [value];
      ok := true;
    }

    /** `ci_vector_pop`. */
    method Pop() returns (ok: bool)
      requires Valid()
      modifies this
      ensures Valid() && (ok <==> old(contents) != [])
      ensures ok ==> contents == old(contents)[..|old(contents)| - 1] && items == old(items)[..|old(items)| - 1]
                     && curpos == old(curpos) - SLOT
      ensures !ok ==> unchanged(this)
    {
      hide AlignDown;
      if |items| == 0 { return false; }
      LayoutPop(mem[..], items, contents, End());
      curpos := HEADER + SLOT * |items|;
      items, contents := items[..|items| - 1], contents[..|contents| - 1];
      endpos := if |items| == 0 then AlignDown(maxSize) else items[|items| - 1];
      ok := true;
    }

    /** Popping what was just added leaves the allocator where it was. */
    method AddThenPop(value: string) returns (ok: bool)
      requires Valid() && |value| >= 1
      modifies this, mem
      ensures ok <==> old(endpos - curpos) >= SLOT + Align(|value|)
      ensures ok ==> Valid() && contents == old(contents) && items == old(items)
                     && curpos == old(curpos) && endpos == old(endpos)
      ensures !ok ==> contents == old(contents) && (Valid() <==> old(endpos - curpos) < SLOT)
    {
      ok := Add(value);
      if ok { ok := Pop(); }
    }
  }

  // ----- vectors in cache blocks

  /** A stored vector: its size, its pointers as offsets from the index (a NULL follows them), and the used part of
      its memory. */
  datatype Stored = Stored(maxSize: nat, index: seq<nat>, data: string)

  /** The bytes that the index takes, its NULL included. */
  function IndexSize(count: nat): nat {
    (count + 1) * SLOT
  }

  /** `ci_cache_store_vector_size`. */
  function StoredSize(s: Stored): nat {
    8 + IndexSize(|s.index|) + |s.data|
  }

  /** `s` is the stored form of a vector with this memory and these items. */
  ghost predicate StoreOf(s: Stored, mem: string, items: seq<nat>) {
    && s.maxSize == |mem| && items != [] && |s.index| == |items|
    && items[|items| - 1] <= |mem| && s.data == mem[items[|items| - 1]..]
    && forall i :: 0 <= i < |items| ==>
         items[i] >= items[|items| - 1] && s.index[i] == items[i] - items[|items| - 1] + IndexSize(|items|)
  }

  /** `ci_cache_store_vector_val`. */
  method StoreVector(v: Vector) returns (s: Stored)
    requires v.Valid() && v.contents != []
    ensures StoreOf(s, v.mem[..], v.items)
    ensures var start, n := v.items[|v.items| - 1], |v.items|;
            && s.maxSize == v.mem.Length && start <= v.mem.Length && s.data == v.mem[start..] && |s.index| == n
            && StoredSize(s) == 8 + 8 * (n + 1) + (v.mem.Length - start)
            && forall i :: 0 <= i < n ==> s.index[i] == v.items[i] - start + 8 * (n + 1)
  {
    var start := v.items[|v.items| - 1];
    var index: seq<nat> := [];
    for i := 0 to |v.items|
      invariant |index| == i
      invariant forall j :: 0 <= j < i ==>
                  v.items[j] >= start && index[j] == v.items[j] - start + IndexSize(|v.items|)
    {
      RearIsLowest(v.mem[..], v.items, v.contents, v.End(), i);
      index := index + [v.items[i] - start + IndexSize(|v.items|)];
    }
    s := Stored(v.maxSize, index, v.mem[start..]);
    assert v.mem[start..] == v.mem[..][start..];
  }

  /** The item that `ci_cache_read_vector_val` cuts out of the block. */
  lemma StoredItem(s: Stored, mem: string, items: seq<nat>, contents: seq<string>, end: nat, i: nat)
    requires StoreOf(s, mem, items) && Layout(mem, items, contents, end) && end == |mem| && i < |items|
    ensures var size, from := Upper(items, end, i) - items[i], s.index[i] - IndexSize(|items|);
            && 1 <= size == Align(|contents[i]|) && 0 <= from && from + size <= |s.data|
            && contents[i] <= s.data[from..from + size]
  {
    assert Placed(mem, items, contents, end, i);
    EndIsHighest(mem, items, contents, end, i);
    var start := items[|items| - 1];
    var size, from := Upper(items, end, i) - items[i], s.index[i] - IndexSize(|items|);
    assert s.data[from..from + size] == mem[items[i]..items[i] + size];
    assert mem[items[i]..items[i] + size][..|contents[i]|] == mem[items[i]..items[i] + |contents[i]|];
  }

  /** `ci_cache_read_vector_val` on a stored vector of a block that is a multiple of the alignment: every item fits
      again, lies where it lay, and begins with its old bytes. */
  method ReadVector(s: Stored, ghost mem: string, ghost items: seq<nat>, ghost contents: seq<string>)
    returns (v: Vector?)
    requires StoreOf(s, mem, items) && Layout(mem, items, contents, |mem|) && |mem| % 8 == 0
    requires HEADER + SLOT * (|items| + 1) <= Upper(items, |mem|, |items|)
    ensures v != null && v.Valid() && v.items == items && |v.contents| == |contents|
    ensures forall i :: 0 <= i < |contents| ==>
              contents[i] <= v.contents[i] && |v.contents[i]| == Align(|contents[i]|)
  {
    hide Layout, Align, Vector.Valid;
    ghost var end := |mem|;
    RearBelowEnd(mem, items, contents);
    v := Vector.Create(s.maxSize, true);
    var count := |s.index|;
    var itemSize := StoredSize(s) - 8 - s.index[0];
    StoredItem(s, mem, items, contents, end, 0);
    for i := 0 to count
      invariant v != null && fresh(v) && fresh(v.mem) && v.Valid() && v.maxSize == s.maxSize
      invariant v.items == items[..i] && |v.contents| == i
      invariant i < count ==> itemSize == Upper(items, end, i) - items[i]
      invariant forall j :: 0 <= j < i ==> contents[j] <= v.contents[j] && |v.contents[j]| == Align(|contents[j]|)
    {
      StoredItem(s, mem, items, contents, end, i);
      Fits(v, mem, items, contents, i);
      var from := s.index[i] - IndexSize(count);
      var value := s.data[from..from + itemSize];
      var ok := v.Add(value);
      assert items[..i + 1] == items[..i] + [items[i]];
      if i + 1 < count { StoredItem(s, mem, items, contents, end, i + 1); }
      itemSize := if i + 1 < count then s.index[i] - s.index[i + 1] else 0;
    }
    assert items[..count] == items;
  }

  lemma RearBelowEnd(mem: string, items: seq<nat>, contents: seq<string>)
    requires Layout(mem, items, contents, |mem|) && items != []
    ensures |contents| == |items| && Upper(items, |mem|, |items|) <= |mem|
  {
    EndIsHighest(mem, items, contents, |mem|, |items| - 1);
  }

  /** While a vector is rebuilt, the allocator has room for the next item: the whole vector fitted before. */
  lemma Fits(v: Vector, mem: string, items: seq<nat>, contents: seq<string>, i: nat)
    requires v.Valid() && v.maxSize == |mem| && |mem| % 8 == 0 && i < |items| && v.items == items[..i]
    requires Layout(mem, items, contents, |mem|)
    requires HEADER + SLOT * (|items| + 1) <= Upper(items, |mem|, |items|)
    ensures v.endpos == Upper(items, |mem|, i)
    ensures v.endpos - v.curpos >= SLOT + (Upper(items, |mem|, i) - items[i])
  {
    RearIsLowest(mem, items, contents, |mem|, i);
  }

  /** Storing a vector and reading it back. */
  method StoreThenRead(v: Vector) returns (r: Vector?)
    requires v.Valid() && v.contents != [] && v.maxSize % 8 == 0
    ensures r != null && r.Valid() && r.items == v.items && |r.contents| == |v.contents|
    ensures forall i :: 0 <= i < |v.contents| ==>
              v.contents[i] <= r.contents[i] && |r.contents[i]| == Align(|v.contents[i]|)
  {
    hide Layout, Align;
    var s := StoreVector(v);
    r := ReadVector(s, v.mem[..], v.items, v.contents);
  }
}
