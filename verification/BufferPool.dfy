/** The buffer pools: blocks come in ten size classes, each with a free list, and larger ones from the system. A block
    remembers the size asked for, which decides its class again when it is freed: a shrinking `realloc` moves a
    block to a smaller class without copying it. */
module BufferPool {

  class Block {
    var recorded: int            // block->ID
    const data: array<char>

    constructor (capacity: nat)
      ensures fresh(data) && data.Length == capacity
    {
      data := new char[capacity](_ => '\0');
      recorded := 0;
    }
  }

  const POOLS: nat := 10

  /** The item size of a pool, without the block header. */
  function ClassSize(pool: nat): (n: nat)
    requires pool < POOLS
    ensures n > 0
  {
    [64, 128, 256, 512, 1024, 2048, 4096, 8192, 16384, 32768][pool]
  }

  /** The tables `short_buffers` and `long_buffers`: sixteen slots lead to five pools. */
  function Slot(type': nat): (k: nat)
    requires type' < 16
    ensures k < 5
  {
    if type' == 0 then 0 else if type' == 1 then 1 else if type' < 4 then 2 else if type' < 8 then 3 else 4
  }

  datatype Pool = Pool(index: nat) | System

  /** The pool for a block of this size: 64-byte steps up to 1024, then 2048-byte steps up to 32768. */
  function PoolOf(size: int): (p: Pool)
    requires size >= 1
    ensures p.Pool? ==> p.index < POOLS
  {
    var type' := (size - 1) / 64;
    if type' < 16 then Pool(Slot(type'))
    else if type' < 512 then Pool(5 + Slot(type' / 32))
    else System
  }

  /** `ci_buffer_blocksize` of a block that records `size`. */
  function BlockSize(size: int): (n: int)
    requires size >= 1
  {
    if PoolOf(size).Pool? then ClassSize(PoolOf(size).index) else size
  }

  /** Up to 32768 the block size is the least of the ten class sizes that is large enough, so less than twice the size
      asked for; above that it is the size itself. */
  lemma LeastClass(size: int)
    requires size >= 1
    ensures size > 32768 ==> BlockSize(size) == size && PoolOf(size) == System
    ensures var classes := [64, 128, 256, 512, 1024, 2048, 4096, 8192, 16384, 32768];
            size <= 32768 ==>
              && size <= BlockSize(size) && BlockSize(size) in classes
              && (forall k :: 0 <= k < |classes| && size <= classes[k] ==> BlockSize(size) <= classes[k])
              && PoolOf(size).Pool? && classes[PoolOf(size).index] == BlockSize(size)
    ensures 64 < size <= 32768 ==> BlockSize(size) < 2 * size
  {
    var type' := (size - 1) / 64;
    assert type' / 32 == (size - 1) / 2048;
  }

  /** A class holds what it is chosen for, it is chosen again for its own size, and smaller sizes never lead to
      larger classes. */
  lemma ClassesFit(size: int)
    requires size >= 1
    ensures size <= BlockSize(size)
    ensures BlockSize(BlockSize(size)) == BlockSize(size)
  {
  }

  lemma ClassesMonotone(a: int, b: int)
    requires 1 <= a <= b
    ensures BlockSize(a) <= BlockSize(b)
  {
    assert (a - 1) / 64 <= (b - 1) / 64;
    assert (a - 1) / 64 / 32 <= (b - 1) / 64 / 32;
    ClassesFit(b);
  }

  /** Shrinking, or growing within the class, never asks for more than the block was good for. */
  lemma InPlaceFits(recorded: int, size: int)
    requires recorded >= 1 && 1 <= size <= BlockSize(recorded)
    ensures BlockSize(size) <= BlockSize(recorded)
  {
    ClassesMonotone(size, BlockSize(recorded));
    ClassesFit(recorded);
  }

  class Buffers {
    var free: seq<seq<Block>>        // the free list of each pool
    var items: seq<nat>              // how many list items of each pool hold no block
    ghost var live: set<Block>       // handed out and not freed
    ghost var pooled: map<Block, nat>  // the free list that a block is in

    /** The free lists hold distinct blocks, none of them live, each at least as large as its pool's items. */
    ghost predicate FreeLists()
      reads this
    {
      && |free| == POOLS && |items| == POOLS && pooled.Keys !! live
      && (forall p, i :: 0 <= p < POOLS && 0 <= i < |free[p]| ==>
            free[p][i] in pooled && pooled[free[p][i]] == p && free[p][i].data.Length >= ClassSize(p))
      && (forall p, i, j :: 0 <= p < POOLS && 0 <= i < j < |free[p]| ==> free[p][i] != free[p][j])
    }

    /** A live block is as large as `ci_buffer_blocksize` says, which is enough for what was asked for. */
    ghost predicate Roomy(b: Block)
      reads b
    {
      1 <= b.recorded <= BlockSize(b.recorded) <= b.data.Length
    }

    /** No two blocks share their memory. */
    ghost predicate Apart()
      reads this
    {
      forall b, c :: b in live + pooled.Keys && c in live + pooled.Keys && b != c ==> b.data != c.data
    }

    ghost predicate Valid()
      reads this, live
    {
      FreeLists() && Apart() && forall b :: b in live ==> Roomy(b)
    }

    constructor ()
      ensures Valid() && live == {}
    {
      free, items := seq(POOLS, _ => []), seq(POOLS, _ => 0);
      live, pooled := {}, map[];
    }

    /** The pool has no block left and cannot get one of its item size, but the system has one of the size asked
        for: the block is smaller than its class. */
    ghost predicate Undersized(size: int, poolMemory: bool, memory: bool)
      requires FreeLists() && size >= 1
      reads this
    {
      var p := PoolOf(size);
      p.Pool? && free[p.index] == [] && !poolMemory && memory && size < ClassSize(p.index)
    }

    /** There is a block to be had for this size: a free one, or memory for a new one. */
    ghost predicate Available(size: int, poolMemory: bool, memory: bool)
      requires FreeLists() && size >= 1
      reads this
    {
      memory || (PoolOf(size).Pool? && (poolMemory || free[PoolOf(size).index] != []))
    }

    /** `pool_allocator_alloc`. */
    method PoolAlloc(p: nat, poolMemory: bool) returns (b: Block?)
      requires FreeLists() && p < POOLS
      modifies this`free, this`items, this`pooled
      ensures FreeLists() && live == old(live)
      ensures b == null <==> old(free[p]) == [] && !poolMemory
      ensures b != null ==> b !in live && b !in pooled && b.data.Length >= ClassSize(p)
      ensures b != null && b in old(pooled) ==> pooled == old(pooled) - {b}
      ensures b != null && b !in old(pooled) ==> fresh(b) && fresh(b.data) && pooled == old(pooled)
      ensures b == null ==> pooled == old(pooled)
      ensures forall q :: 0 <= q < POOLS && q != p ==> free[q] == old(free[q])
      ensures items == old(items)[p := old(items)[p] + 1]
      ensures if old(free[p]) != [] then b == old(free[p])[0] && free[p] == old(free[p])[1..]
              else free[p] == [] && (b != null ==> b.data.Length == ClassSize(p))
    {
      if free[p] != [] {
        b := free[p][0];
        free := free[p := free[p][1..]];
        pooled := pooled - {b};
      } else if poolMemory {
        b := new Block(ClassSize(p));
      } else {
        b := null;
      }
      items := items[p := items[p] + 1];
    }

    /** `pool_allocator_free`: without a spare list item the block goes back to the system. */
    method PoolFree(p: nat, b: Block)
      requires FreeLists() && p < POOLS && b !in pooled && b !in live && b.data.Length >= ClassSize(p)
      modifies this`free, this`items, this`pooled
      ensures FreeLists() && live == old(live)
      ensures pooled == if old(items[p]) > 0 then old(pooled)[b := p] else old(pooled)
      ensures if old(items[p]) > 0 then free == old(free)[p := [b] + old(free)[p]] && items == old(items)[p := old(items)[p] - 1]
              else free == old(free) && items == old(items)
    {
      if items[p] > 0 {
        items := items[p := items[p] - 1];
        free := free[p := [b] + free[p]];
        pooled := pooled[b := p];
      }
    }

    /** `ci_buffer_alloc`. */
    method Alloc(size: int, poolMemory: bool, memory: bool) returns (b: Block?)
      requires Valid() && size >= 1
      modifies this, pooled.Keys
      ensures FreeLists() && Apart()
      ensures b != null <==> old(Available(size, poolMemory, memory))
      ensures b == null ==> live == old(live)
      ensures b != null ==> b !in old(live) && live == old(live) + {b} && b.recorded == size && b.data.Length >= size
      ensures b != null && b !in old(pooled) ==> fresh(b) && fresh(b.data)
      ensures Valid() <==> !old(Undersized(size, poolMemory, memory))
      ensures (forall x :: x in old(live) ==> Roomy(x)) && (b != null ==> (Roomy(b) <==> Valid()))
      ensures pooled.Keys <= old(pooled.Keys)
    {
      ClassesFit(size);
      var p := PoolOf(size);
      b := null;
      if p.Pool? { b := PoolAlloc(p.index, poolMemory); }
      if b == null && memory { b := new Block(size); }
      if b == null { return; }
      HandOut(b, size);
    }

    /** The memory of `b` is that of no other block. */
    ghost predicate ApartFrom(b: Block)
      reads this
    {
      forall c :: c in live + pooled.Keys && b != c ==> b.data != c.data
    }

    /** A block that is in no free list becomes live. */
    method HandOut(b: Block, size: int)
      requires FreeLists() && Apart() && ApartFrom(b) && b !in live && b !in pooled
      modifies this`live, b`recorded
      ensures FreeLists() && Apart() && live == old(live) + {b} && b.recorded == size
    {
      hide ClassSize;
      b.recorded := size;
      live := live + {b};
    }

    /** `ci_buffer_free`. */
    method Free(b: Block?)
      requires FreeLists() && Apart() && (b != null ==> b in live && Roomy(b))
      modifies this
      ensures FreeLists() && Apart() && live == old(live) - (if b == null then {} else {b})
      ensures pooled == if b != null && PoolOf(b.recorded).Pool? && old(items[PoolOf(b.recorded).index]) > 0
                        then old(pooled)[b := PoolOf(b.recorded).index] else old(pooled)
    {
      if b == null { return; }
      live := live - {b};
      var p := PoolOf(b.recorded);
      if p.Pool? { PoolFree(p.index, b); }
    }

    /** `ci_buffer_realloc`. A block that has to move keeps the bytes that were recorded; the others are kept
        because the block stays. */
    method Realloc(b: Block?, size: int, poolMemory: bool, memory: bool) returns (r: Block?)
      requires Valid() && size >= 1 && (b != null ==> b in live)
      modifies this, live, pooled.Keys, set x | x in pooled :: x.data
      ensures Valid() <==> !old((b == null || size > BlockSize(b.recorded)) && Undersized(size, poolMemory, memory))
      ensures b != null && old(size <= BlockSize(b.recorded)) ==> r == b && live == old(live)
      ensures b != null && old(size > BlockSize(b.recorded)) && r != null ==>
                r != b && live == old(live) - {b} + {r} && old(b.recorded) <= r.data.Length
                && r.data[..old(b.recorded)] == old(b.data[..b.recorded])
      ensures r != null <==> old((b != null && size <= BlockSize(b.recorded)) || Available(size, poolMemory, memory))
      ensures r != null ==> r.recorded == size && r in live
      ensures r == null ==> live == old(live)
    {
      if b == null {
        r := Alloc(size, poolMemory, memory);
        return;
      }
      var bufferSize := BlockSize(b.recorded);
      if size > bufferSize {
        r := Alloc(size, poolMemory, memory);
        if r == null { return; }
        forall i | 0 <= i < b.recorded { r.data[i] := b.data[i]; }
        ghost var fits := Roomy(r);
        Free(b);
        assert r in live && (Roomy(r) <==> fits);
      } else {
        InPlaceFits(b.recorded, size);
        ClassesFit(size);
        b.recorded := size;
        r := b;
        assert Roomy(b);
      }
    }
  }
}
