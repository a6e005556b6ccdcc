/** The local cache: entries sit in a FIFO queue by age and, while they hold a key, in the hash chain of that key.
    The chains are not stored apart: an entry's chain link is always the latest older entry of its bucket. */
module LocalCache {
  import opened Common
  import opened HashIndex

  type Key = seq<Byte>

  class Entry {
    var hash: nat
    var time: int
    var key: Option<Key>
    var val: seq<Byte>           // empty when the key was stored without a value
    var qnext: Entry?
    var hnext: Entry?

    constructor ()
      ensures hash == 0 && time == 0 && key == None && val == [] && qnext == null && hnext == null
    {
      hash, time, key, val, qnext, hnext := 0, 0, None, [], null, null;
    }
  }

  // ----- positions in the queue; `keys[i]` is the key in the chains of entry `i`

  predicate InBucket(key: Option<Key>, max: nat, bucket: nat) {
    key.Some? && Bucket(max, key.value) == bucket
  }

  /** The latest of the first `n` entries that is in the bucket, or -1. */
  function Latest(keys: seq<Option<Key>>, max: nat, n: nat, bucket: nat): (j: int)
    requires n <= |keys|
    ensures -1 <= j < n && (j >= 0 ==> InBucket(keys[j], max, bucket))
  {
    if n == 0 then -1
    else if InBucket(keys[n - 1], max, bucket) then n - 1
    else Latest(keys, max, n - 1, bucket)
  }

  lemma {:induction false} LatestIsLatest(keys: seq<Option<Key>>, max: nat, n: nat, bucket: nat, i: nat)
    requires i < n <= |keys| && InBucket(keys[i], max, bucket)
    ensures i <= Latest(keys, max, n, bucket)
  {
    if !InBucket(keys[n - 1], max, bucket) { LatestIsLatest(keys, max, n - 1, bucket, i); }
  }

  /** Taking the oldest entry out of its chain concerns only the entry that linked to it. */
  lemma {:induction false} LatestWithoutHead(keys: seq<Option<Key>>, max: nat, n: nat, bucket: nat)
    requires 0 < |keys| && n <= |keys|
    ensures var l := Latest(keys, max, n, bucket);
            Latest(keys[0 := None], max, n, bucket) == if l == 0 then -1 else l
  {
    if n > 0 && !InBucket(keys[n - 1], max, bucket) { LatestWithoutHead(keys, max, n - 1, bucket); }
  }

  /** When the head leaves, every position moves down by one. */
  lemma {:induction false} LatestShifted(keys: seq<Option<Key>>, more: seq<Option<Key>>, max: nat, n: nat, bucket: nat)
    requires 0 < |keys| && keys[0] == None && n < |keys|
    ensures var l := Latest(keys, max, n + 1, bucket);
            Latest(keys[1..] + more, max, n, bucket) == if l < 0 then -1 else l - 1
  {
    if n > 0 {
      assert (keys[1..] + more)[n - 1] == keys[n];
      LatestShifted(keys, more, max, n - 1, bucket);
    } else {
      assert Latest(keys, max, 1, bucket) == -1;
    }
  }

  /** The latest of the first `n` entries with this very key, or -1. */
  function LatestOf(keys: seq<Option<Key>>, n: nat, key: Key): (j: int)
    requires n <= |keys|
    ensures -1 <= j < n && (j >= 0 ==> keys[j] == Some(key))
  {
    if n == 0 then -1 else if keys[n - 1] == Some(key) then n - 1 else LatestOf(keys, n - 1, key)
  }

  /** A chain meets the entries of a key in the order of their age, the latest first. */
  lemma {:induction false} KeyInChain(keys: seq<Option<Key>>, max: nat, n: nat, key: Key)
    requires n <= |keys|
    ensures var l := Latest(keys, max, n, Bucket(max, key));
            LatestOf(keys, n, key) == if l >= 0 && keys[l] != Some(key) then LatestOf(keys, l, key) else l
  {
    if n > 0 && !InBucket(keys[n - 1], max, Bucket(max, key)) { KeyInChain(keys, max, n - 1, key); }
  }

  lemma {:induction false} LatestOfWithoutHead(keys: seq<Option<Key>>, n: nat, key: Key)
    requires 0 < |keys| && n <= |keys|
    ensures var l := LatestOf(keys, n, key);
            LatestOf(keys[0 := None], n, key) == if l == 0 then -1 else l
  {
    if n > 0 && keys[n - 1] != Some(key) { LatestOfWithoutHead(keys, n - 1, key); }
  }

  lemma {:induction false} LatestOfShifted(keys: seq<Option<Key>>, more: seq<Option<Key>>, n: nat, key: Key)
    requires 0 < |keys| && keys[0] == None && n < |keys|
    ensures var l := LatestOf(keys, n + 1, key);
            LatestOf(keys[1..] + more, n, key) == if l < 0 then -1 else l - 1
  {
    if n > 0 {
      assert (keys[1..] + more)[n - 1] == keys[n];
      LatestOfShifted(keys, more, n - 1, key);
    } else {
      assert LatestOf(keys, 1, key) == -1;
    }
  }

  lemma {:induction false} LatestOfIs(keys: seq<Option<Key>>, n: nat, key: Key)
    requires n <= |keys|
    ensures var l := LatestOf(keys, n, key);
            && -1 <= l < n && (l >= 0 ==> keys[l] == Some(key)) && forall i :: l < i < n ==> keys[i] != Some(key)
  {
    if n > 0 && keys[n - 1] != Some(key) { LatestOfIs(keys, n - 1, key); }
  }

  /** The last entry of the queue that holds the key. */
  ghost predicate IsLatest(queue: seq<Entry>, key: Key, i: int)
    reads queue`key
  {
    && 0 <= i < |queue| && queue[i].key == Some(key)
    && forall j :: i < j < |queue| ==> queue[j].key != Some(key)
  }

  ghost predicate Distinct(queue: seq<Entry>) {
    forall i, j :: 0 <= i < j < |queue| ==> queue[i] != queue[j]
  }

  /** The node at a queue position; -1 is the null pointer. */
  ghost function Node(queue: seq<Entry>, i: int): Entry?
    requires -1 <= i < |queue|
  {
    if i < 0 then null else queue[i]
  }

  /** Every chain consists of the entries of its bucket, in reverse queue order. */
  ghost predicate Chained(queue: seq<Entry>, keys: seq<Option<Key>>, max: nat, links: seq<Entry?>, heads: seq<Entry?>)
    requires |keys| == |queue| == |links| && |heads| == max + 1
  {
    && (forall i :: 0 <= i < |queue| && keys[i].Some? ==>
          links[i] == Node(queue, Latest(keys, max, i, Bucket(max, keys[i].value))))
    && (forall h :: 0 <= h <= max ==> heads[h] == Node(queue, Latest(keys, max, |queue|, h)))
  }

  /** The chain links, entry by entry. */
  ghost function Links(queue: seq<Entry>): (s: seq<Entry?>)
    reads queue`hnext
    ensures |s| == |queue| && forall i :: 0 <= i < |queue| ==> s[i] == queue[i].hnext
  {
    if queue == [] then [] else Links(queue[..|queue| - 1]) + [queue[|queue| - 1].hnext]
  }

  /** The link of an entry without key is in no chain. */
  lemma DeadLink(queue: seq<Entry>, keys: seq<Option<Key>>, max: nat, links: seq<Entry?>, heads: seq<Entry?>,
                 links': seq<Entry?>)
    requires 0 < |keys| == |queue| == |links| == |links'| && |heads| == max + 1 && keys[0] == None
    requires Chained(queue, keys, max, links, heads) && forall k :: 0 < k < |queue| ==> links'[k] == links[k]
    ensures Chained(queue, keys, max, links', heads)
  {
  }

  /** Cutting the one link to the oldest entry takes it out of its chain, and leaves all chains in order. */
  lemma CutLink(queue: seq<Entry>, keys: seq<Option<Key>>, max: nat, links: seq<Entry?>, heads: seq<Entry?>,
                bucket: nat, i: int, links': seq<Entry?>, heads': seq<Entry?>)
    requires 0 < |keys| == |queue| == |links| && |heads| == max + 1 && bucket <= max
    requires Chained(queue, keys, max, links, heads)
    requires keys[0].Some? ==> InBucket(keys[0], max, bucket)
    requires -1 <= i < |queue| && if i <= 0 then i == Latest(keys, max, |queue|, bucket)
                                  else InBucket(keys[i], max, bucket) && Latest(keys, max, i, bucket) <= 0
    requires links' == if i > 0 then links[i := null] else links
    requires heads' == if i == 0 then heads[bucket := null] else heads
    ensures Chained(queue, keys[0 := None], max, links', heads')
  {
    hide Bucket, Latest;
    var keys' := keys[0 := None];
    forall k | 0 <= k < |queue| && keys'[k].Some?
      ensures links'[k] == Node(queue, Latest(keys', max, k, Bucket(max, keys[k].value)))
    {
      var b := Bucket(max, keys[k].value);
      LatestWithoutHead(keys, max, k, b);
      if Latest(keys, max, k, b) == 0 { OnlyOneLinksToHead(keys, max, |queue|, k, i, b); }
    }
    forall h | 0 <= h <= max ensures heads'[h] == Node(queue, Latest(keys', max, |queue|, h)) {
      LatestWithoutHead(keys, max, |queue|, h);
      if Latest(keys, max, |queue|, h) == 0 && i > 0 { LatestIsLatest(keys, max, |queue|, h, i); }
    }
  }

  datatype Tag = Tag(key: Option<Key>, hash: nat)

  /** Key and hash, entry by entry. */
  ghost function Tags(queue: seq<Entry>): (s: seq<Tag>)
    reads queue`key, queue`hash
    ensures |s| == |queue| && forall i :: 0 <= i < |queue| ==> s[i] == Tag(queue[i].key, queue[i].hash)
  {
    if queue == [] then []
    else Tags(queue[..|queue| - 1]) + [Tag(queue[|queue| - 1].key, queue[|queue| - 1].hash)]
  }

  /** What the entries say about themselves is what the chains take them for. */
  predicate Filed(keys: seq<Option<Key>>, tags: seq<Tag>, max: nat)
    requires |keys| == |tags|
  {
    && (forall i :: 0 <= i < |keys| ==> tags[i].key == keys[i] && tags[i].hash <= max)
    && (forall i :: 0 <= i < |keys| && keys[i].Some? ==> tags[i].hash == Bucket(max, keys[i].value))
  }

  lemma FiledWithoutHead(keys: seq<Option<Key>>, tags: seq<Tag>, max: nat, tags': seq<Tag>)
    requires 0 < |keys| == |tags| && Filed(keys, tags, max) && tags' == tags[0 := Tag(None, 0)]
    ensures Filed(keys[0 := None], tags', max)
  {
  }

  lemma FiledNew(keys: seq<Option<Key>>, tags: seq<Tag>, max: nat, key: Key)
    requires 0 < |keys| == |tags| && Filed(keys, tags, max)
    ensures Filed(keys[1..] + [Some(key)], tags[1..] + [Tag(Some(key), Bucket(max, key))], max)
  {
  }

  // ----- what the queue remembers

  datatype Stamp = Stamp(val: seq<Byte>, time: int)

  /** Value and time, entry by entry. */
  ghost function Stamps(queue: seq<Entry>): (s: seq<Stamp>)
    reads queue`val, queue`time
    ensures |s| == |queue| && forall i :: 0 <= i < |queue| ==> s[i] == Stamp(queue[i].val, queue[i].time)
  {
    if queue == [] then []
    else Stamps(queue[..|queue| - 1]) + [Stamp(queue[|queue| - 1].val, queue[|queue| - 1].time)]
  }

  /** The queue is sorted by time. */
  predicate Aged(stamps: seq<Stamp>, clock: int) {
    && (forall i :: 0 <= i < |stamps| ==> 0 <= stamps[i].time <= clock)
    && (forall i, j :: 0 <= i < j < |stamps| ==> stamps[i].time <= stamps[j].time)
  }

  /** The latest entry of a key holds its last successful update; a key without entry was updated so long ago
      that it had expired. */
  predicate Remembers(keys: seq<Option<Key>>, stamps: seq<Stamp>, stored: map<Key, Stamp>, clock: int, ttl: int, key: Key)
    requires |keys| == |stamps|
  {
    var l := LatestOf(keys, |keys|, key);
    if l >= 0 then key in stored && stamps[l] == stored[key]
    else key in stored ==> clock - stored[key].time >= ttl
  }

  ghost predicate RemembersAll(keys: seq<Option<Key>>, stamps: seq<Stamp>, stored: map<Key, Stamp>, clock: int, ttl: int)
    requires |keys| == |stamps|
  {
    forall key :: Remembers(keys, stamps, stored, clock, ttl, key)
  }

  lemma RememberLater(keys: seq<Option<Key>>, stamps: seq<Stamp>, stored: map<Key, Stamp>, clock: int, ttl: int, now: int)
    requires |keys| == |stamps| && RemembersAll(keys, stamps, stored, clock, ttl) && now >= clock
    ensures RemembersAll(keys, stamps, stored, now, ttl)
  {
    forall key ensures Remembers(keys, stamps, stored, now, ttl, key) {
      assert Remembers(keys, stamps, stored, clock, ttl, key);
    }
  }

  /** An expired head may go: what was stored in it need not be remembered. */
  lemma RememberWithoutHead(keys: seq<Option<Key>>, stamps: seq<Stamp>, stored: map<Key, Stamp>, clock: int, ttl: int,
                            stamps': seq<Stamp>)
    requires 0 < |keys| == |stamps| == |stamps'| && RemembersAll(keys, stamps, stored, clock, ttl)
    requires clock - stamps[0].time >= ttl && stamps'[1..] == stamps[1..]
    ensures RemembersAll(keys[0 := None], stamps', stored, clock, ttl)
  {
    var keys' := keys[0 := None];
    forall key ensures Remembers(keys', stamps', stored, clock, ttl, key) {
      assert Remembers(keys, stamps, stored, clock, ttl, key);
      LatestOfWithoutHead(keys, |keys|, key);
      var l := LatestOf(keys, |keys|, key);
      if l > 0 { assert stamps'[1..][l - 1] == stamps[1..][l - 1]; }
    }
  }

  /** The new last entry is what its key is remembered by. */
  lemma RememberNew(keys: seq<Option<Key>>, stamps: seq<Stamp>, stored: map<Key, Stamp>, clock: int, ttl: int,
                    key: Key, stamp: Stamp)
    requires 0 < |keys| == |stamps| && RemembersAll(keys, stamps, stored, clock, ttl) && keys[0] == None
    ensures RemembersAll(keys[1..] + [Some(key)], stamps[1..] + [stamp], stored[key := stamp], clock, ttl)
  {
    var n, keys', stamps' := |keys| - 1, keys[1..] + [Some(key)], stamps[1..] + [stamp];
    var stored' := stored[key := stamp];
    forall k ensures Remembers(keys', stamps', stored', clock, ttl, k) {
      assert Remembers(keys, stamps, stored, clock, ttl, k);
      LatestOfShifted(keys, [Some(key)], n, k);
      assert keys'[n] == Some(key);
    }
  }

  // ----- the cache

  datatype Found = Miss | Hit(val: seq<Byte>)

  class Cache {
    var first: Entry             // first_queue_entry
    var last: Entry              // last_queue_entry
    const table: array<Entry?>   // hash_table
    const size: nat              // hash_table_size
    const ttl: int
    ghost var queue: seq<Entry>
    ghost var keys: seq<Option<Key>>
    ghost var clock: int                 // no call has seen a later time
    ghost var stored: map<Key, Stamp>    // the last successful update of each key

    /** The entries are linked in the order of the queue, each of them once. */
    ghost predicate InOrder()
      reads this`first, this`last, this`queue, queue`qnext
    {
      && |queue| >= 1 && first == queue[0] && last == queue[|queue| - 1]
      && (forall i :: 0 <= i < |queue| - 1 ==> queue[i].qnext == queue[i + 1])
      && queue[|queue| - 1].qnext == null
    }

    ghost predicate Queued()
      reads this`first, this`last, this`queue, queue`qnext
    {
      |queue| >= 2 && Distinct(queue) && InOrder()
    }

    /** A queue of entries that have never been used. */
    ghost predicate Blank()
      reads this, queue
    {
      && InOrder() && Distinct(queue) && |keys| == |queue|
      && forall i :: 0 <= i < |queue| ==>
           keys[i] == None && queue[i].key == None && queue[i].hash == 0 && queue[i].time == 0
    }

    ghost predicate Linked()
      reads this`queue, this`keys, queue`hnext, table
      ensures Linked() ==> |keys| == |queue|
    {
      table.Length == size + 1 && |keys| == |queue| && Chained(queue, keys, size, Links(queue), table[..])
    }

    ghost predicate Valid()
      reads this, queue, table
    {
      && Queued() && Linked() && Filed(keys, Tags(queue), size)
      && Aged(Stamps(queue), clock) && RemembersAll(keys, Stamps(queue), stored, clock, ttl)
    }

    /** `ci_local_cache_init` with room for `items` entries. With a single entry the first update would leave the
        queue without a head, so two are needed. */
    constructor (items: nat, size: nat, ttl: int, now: int)
      requires items >= 2 && now >= 0
      ensures Valid() && fresh(queue) && fresh(table) && |queue| == items
      ensures stored == map[] && clock == now && this.size == size && this.ttl == ttl
    {
      var e := new Entry();
      first, last := e, e;
      this.size, this.ttl := size, ttl;
      table := new Entry?[size + 1](_ => null);
      queue, keys, clock, stored := [e], [None], now, map[];
      new;
      hide Linked, RemembersAll, InOrder, Stamps, Tags, Filed, Aged;
      assert Blank() by { OneBlank(); }
      for k := 1 to items
        invariant |queue| == k && Blank() && fresh(queue) && fresh(table)
        invariant table.Length == size + 1 && forall h :: 0 <= h <= size ==> table[h] == null
        invariant stored == map[] && clock == now
      {
        AppendEntry();
      }
      EmptyCache();
    }

    lemma OneBlank()
      requires queue == [first] && first == last && keys == [None] && first.qnext == null
      requires first.key == None && first.hash == 0 && first.time == 0
      ensures Blank()
    {
    }

    method AppendEntry()
      requires Blank()
      modifies this`queue, this`keys, this`last, last`qnext
      ensures Blank() && queue[..|queue| - 1] == old(queue) && fresh(queue[|queue| - 1])
    {
      var next := new Entry();
      last.qnext := next;
      last := next;
      queue, keys := queue + [next], keys + [None];
    }

    /** A cache without keys has empty chains. */
    lemma EmptyCache()
      requires Blank() && table.Length == size + 1 && stored == map[] && clock >= 0
      requires forall h :: 0 <= h <= size ==> table[h] == null
      ensures Linked() && RemembersAll(keys, Stamps(queue), stored, clock, ttl)
      ensures Filed(keys, Tags(queue), size) && Aged(Stamps(queue), clock)
    {
      forall h | 0 <= h <= size ensures Latest(keys, size, |queue|, h) == -1 { NoneLatest(keys, size, |queue|, h); }
    }

    /** What the chains take for the latest entry of a key is the last one in the queue that holds it. */
    lemma LatestByKey(key: Key)
      requires Valid()
      ensures var l := LatestOf(keys, |keys|, key);
              && |keys| == |queue| && (forall i :: IsLatest(queue, key, i) <==> l >= 0 && i == l)
    {
      hide Bucket, Latest, Chained;
      LatestOfIs(keys, |keys|, key);
      assert forall i :: 0 <= i < |queue| ==> Tags(queue)[i].key == queue[i].key;
      assert forall i :: 0 <= i < |queue| ==> queue[i].key == keys[i];
    }

    /** `ci_local_cache_search` at time `now`. */
    method Search(key: Key, now: int) returns (r: Found)
      requires Valid() && now >= clock
      ensures r.Hit? ==> key in stored && r.val == stored[key].val && now - stored[key].time <= ttl
      ensures key in stored && now - stored[key].time < ttl ==> r.Hit?
      ensures r.Hit? <==> exists i :: IsLatest(queue, key, i) && now - queue[i].time <= ttl
      ensures forall i :: IsLatest(queue, key, i) && now - queue[i].time <= ttl ==> r == Hit(queue[i].val)
    {
      hide Bucket, InOrder, Distinct, Aged, Latest, LatestOf;
      LatestByKey(key);
      var h := ComputeHash(size, key);
      var e := table[h];
      ghost var n := |queue|;
      ghost var i := Latest(keys, size, n, h);
      assert Remembers(keys, Stamps(queue), stored, clock, ttl, key);
      while e != null
        invariant 0 <= n <= |queue| && -1 <= i < |queue| && i == Latest(keys, size, n, h) && e == Node(queue, i)
        invariant LatestOf(keys, n, key) == LatestOf(keys, |keys|, key)
        decreases i
      {
        KeyInChain(keys, size, n, key);
        if e.key == Some(key) {
          return if now - e.time > ttl then Miss else Hit(e.val);
        }
        e, n := e.hnext, i;
        i := Latest(keys, size, n, h);
      }
      KeyInChain(keys, size, n, key);
      r := Miss;
    }

    /** Walks the chain of the oldest entry to the entry that links to it, or to the end. */
    method Predecessor() returns (tmp: Entry, ghost i: nat)
      requires Valid() && table[first.hash] != null && table[first.hash] != first
      ensures 0 < i < |queue| && tmp == queue[i] && InBucket(keys[i], size, first.hash)
      ensures Latest(keys, size, i, first.hash) <= 0
      ensures tmp.hnext == Node(queue, Latest(keys, size, i, first.hash))
    {
      hide Bucket;
      tmp := table[first.hash];
      i := Latest(keys, size, |queue|, first.hash);
      while tmp.hnext != null && first != tmp.hnext
        invariant 0 < i < |queue| && tmp == queue[i] && InBucket(keys[i], size, first.hash)
        decreases i
      {
        i := Latest(keys, size, i, first.hash);
        tmp := tmp.hnext;
      }
    }

    /** The oldest entry leaves its chain; it is always the last one in it. */
    method UnlinkHead()
      requires Valid()
      modifies queue`hnext, table, this`keys
      ensures Queued() && Linked() && keys == old(keys)[0 := None]
    {
      hide Bucket, Links, Latest, Chained, Filed, Aged, RemembersAll, Stamps, Tags, InOrder;
      HeadOfQueue();
      HeadOfChain();
      var e := first;
      ghost var i := Latest(keys, size, |queue|, e.hash);
      ghost var links, heads := Links(queue), table[..];
      if table[e.hash] == e {
        table[e.hash] := e.hnext;
      } else if table[e.hash] != null {
        var tmp;
        tmp, i := Predecessor();
        if tmp.hnext != null { tmp.hnext := tmp.hnext.hnext; }
      }
      assert table[..] == if i == 0 then heads[e.hash := null] else heads;
      assert forall k :: 0 <= k < |queue| ==> Links(queue)[k] == if k == i && i > 0 then null else links[k];
      CutLink(queue, keys, size, links, heads, e.hash, i, Links(queue), table[..]);
      keys := keys[0 := None];
    }

    /** The head of the queue becomes its tail. */
    method Rotate()
      requires Queued()
      modifies this`first, this`last, this`queue, first`qnext, last`qnext
      ensures Queued() && queue == old(queue)[1..] + [old(queue)[0]]
    {
      ghost var q, n := queue, |queue|;
      var e := first;
      assert e.qnext == q[0 + 1];
      first := first.qnext;
      last.qnext := e;
      last := e;
      e.qnext := null;
      queue := q[1..] + [e];
      forall i | 0 <= i < n - 1 ensures queue[i].qnext == queue[i + 1] {
        var k := i + 1;
        assert k < n - 1 ==> q[k].qnext == q[k + 1];
      }
    }

    /** The head gets its key and value and becomes the newest entry of the queue. */
    method Refill(key: Key, val: seq<Byte>, now: int, h: nat) returns (e: Entry)
      requires Queued()
      modifies this`first, this`last, this`queue, first`key, first`val, first`hash, first`time, first`qnext, last`qnext
      ensures Queued() && queue == old(queue)[1..] + [e] && e == old(queue)[0]
      ensures Stamps(queue) == old(Stamps(queue))[1..] + [Stamp(val, now)]
      ensures Tags(queue) == old(Tags(queue))[1..] + [Tag(Some(key), h)]
      ensures Links(queue) == old(Links(queue))[1..] + [e.hnext]
    {
      hide Links, Stamps, Tags, InOrder;
      ghost var q, links, stamps, tags := queue, Links(queue), Stamps(queue), Tags(queue);
      HeadOfQueue();
      e := first;
      e.key, e.val, e.hash, e.time := Some(key), val, h, now;
      Rotate();
      assert forall k :: 0 <= k < |q| - 1 ==> queue[k] == q[k + 1] && queue[k] != e;
      assert forall k :: 0 <= k < |q| - 1 ==> Stamps(queue)[k] == stamps[k + 1];
      Turned(stamps, Stamps(queue), Stamp(val, now));
      assert forall k :: 0 <= k < |q| - 1 ==> Tags(queue)[k] == tags[k + 1];
      Turned(tags, Tags(queue), Tag(Some(key), h));
      assert forall k :: 0 <= k < |q| - 1 ==> Links(queue)[k] == links[k + 1];
      Turned(links, Links(queue), e.hnext);
    }

    /** The emptied head is filled and becomes the newest entry, first in the chain of its key. */
    method Requeue(key: Key, val: seq<Byte>, now: int, h: nat)
      requires Queued() && Linked() && Filed(keys, Tags(queue), size) && keys[0] == None && h == Bucket(size, key)
      modifies this`first, this`last, this`queue, this`keys, queue, table
      ensures Queued() && Linked() && Filed(keys, Tags(queue), size)
      ensures queue == old(queue)[1..] + [old(queue)[0]] && keys == old(keys)[1..] + [Some(key)]
      ensures Stamps(queue) == old(Stamps(queue))[1..] + [Stamp(val, now)]
    {
      hide Bucket, Links, Chained, Stamps, Tags, Filed, InOrder, Queued;
      ghost var q, links, heads, tags := queue, Links(queue), table[..], Tags(queue);
      HeadOfQueue();
      var e := Refill(key, val, now, h);
      LastOfQueue();
      PutFirst(e, h);
      RotateChains(q, keys, size, links, heads, key, h, queue, Links(queue), table[..]);
      FiledNew(keys, tags, size, key);
      keys := keys[1..] + [Some(key)];
    }

    lemma LastOfQueue()
      requires Queued()
      ensures |queue| > 0 && Distinct(queue)
    {
    }

    /** The last entry of the queue is put first in the chain of its hash. */
    method PutFirst(e: Entry, h: nat)
      requires |queue| > 0 && Distinct(queue) && e == queue[|queue| - 1] && h < table.Length
      modifies e`hnext, table
      ensures Links(queue) == old(Links(queue))[..|queue| - 1] + [old(table[h])] && table[..] == old(table[..])[h := e]
      ensures Stamps(queue) == old(Stamps(queue)) && Tags(queue) == old(Tags(queue)) && Queued() == old(Queued())
    {
      hide Stamps, Tags, Queued;
      ghost var links := Links(queue);
      e.hnext := table[h];
      table[h] := e;
      assert forall k :: 0 <= k < |queue| - 1 ==> queue[k] != e && Links(queue)[k] == links[k];
    }

    /** An entry that is in no chain loses its key, value and time. */
    method ClearHead()
      requires Queued() && Linked() && keys[0] == None
      modifies first
      ensures Queued() && Linked()
      ensures Stamps(queue) == old(Stamps(queue))[0 := Stamp([], 0)]
      ensures Tags(queue) == old(Tags(queue))[0 := Tag(None, 0)]
    {
      hide Links, Latest, Chained, Stamps, Tags, InOrder;
      HeadOfQueue();
      ghost var links, stamps, tags := Links(queue), Stamps(queue), Tags(queue);
      var e := first;
      e.key, e.val, e.hnext, e.time, e.hash := None, [], null, 0, 0;
      assert forall k :: 0 < k < |queue| ==> Links(queue)[k] == links[k];
      DeadLink(queue, keys, size, links, table[..], Links(queue));
      assert Stamps(queue) == stamps[0 := Stamp([], 0)];
      assert Tags(queue) == tags[0 := Tag(None, 0)];
    }

    /** The oldest entry is emptied and taken out of its chain. It stays at the head. */
    method EvictHead()
      requires Valid()
      modifies first, queue`hnext, table, this`keys
      ensures Queued() && Linked() && Filed(keys, Tags(queue), size) && keys == old(keys)[0 := None]
      ensures Stamps(queue) == old(Stamps(queue))[0 := Stamp([], 0)]
    {
      hide Aged, RemembersAll, Stamps, Tags, Filed, Queued, Linked;
      HeadOfQueue();
      ghost var tags := Tags(queue);
      FiledWithoutHead(keys, tags, size, tags[0 := Tag(None, 0)]);
      UnlinkHead();
      ClearHead();
    }

    lemma HeadOfQueue()
      requires Queued()
      ensures |queue| >= 2 && first == queue[0] && last == queue[|queue| - 1]
    {
    }

    /** Time passes. */
    ghost method Tick(now: int)
      requires Valid() && now >= clock
      modifies this`clock
      ensures Valid() && clock == now
    {
      hide Bucket, Queued, Linked, Filed, Aged, RemembersAll, Stamps, Tags;
      RememberLater(keys, Stamps(queue), stored, clock, ttl, now);
      AgedLater(Stamps(queue), clock, now);
      clock := now;
    }

    /** The oldest entry, which has expired, is emptied; nothing that counts is forgotten. */
    method Expire()
      requires Valid() && clock - first.time >= ttl
      modifies first, queue`hnext, table, this`keys
      ensures Valid() && keys == old(keys)[0 := None]
    {
      hide Bucket, Queued, Linked, Filed, Aged, RemembersAll, Stamps, Tags;
      HeadOfQueue();
      ghost var keys0, stamps0 := keys, Stamps(queue);
      EvictHead();
      RememberWithoutHead(keys0, stamps0, stored, clock, ttl, Stamps(queue));
      AgedWithoutHead(stamps0, Stamps(queue), clock);
    }

    /** The emptied entry gets the new value. */
    method Store(key: Key, val: seq<Byte>, now: int, h: nat)
      requires Valid() && keys[0] == None && h == Bucket(size, key) && now == clock
      modifies this`first, this`last, this`queue, this`keys, this`stored, queue, table
      ensures Valid() && stored == old(stored)[key := Stamp(val, clock)]
      ensures queue == old(queue)[1..] + [old(queue)[0]]
    {
      hide Bucket, Queued, Linked, Filed, Aged, RemembersAll, Stamps, Tags;
      HeadOfQueue();
      ghost var keys1, stamps1 := keys, Stamps(queue);
      Requeue(key, val, now, h);
      RememberNew(keys1, stamps1, stored, clock, ttl, key, Stamp(val, clock));
      AgedNew(stamps1, Stamp(val, clock), clock);
      stored := stored[key := Stamp(val, clock)];
    }

    /** `ci_local_cache_update` at time `now`; allocating the copy of the key or of the value may fail. */
    method Update(key: Key, val: seq<Byte>, now: int, keyAllocated: bool, valAllocated: bool) returns (ok: bool)
      requires Valid() && now >= clock
      modifies this, queue, table
      ensures Valid() && clock == now
      ensures ok <==> now - old(first.time) >= ttl && keyAllocated && (val == [] || valAllocated)
      ensures stored == if ok then old(stored)[key := Stamp(val, now)] else old(stored)
      ensures queue == if ok then old(queue)[1..] + [old(queue)[0]] else old(queue)
    {
      hide Bucket, Queued, Linked, Filed, Aged, RemembersAll, Stamps, Tags;
      HeadOfQueue();
      var h := ComputeHash(size, key);
      Tick(now);
      if now - first.time < ttl { return false; }
      Expire();
      if !keyAllocated || (val != [] && !valAllocated) { return false; }
      Store(key, val, now, h);
      ok := true;
    }

    /** The head of a chain and the end of it. */
    lemma HeadOfChain()
      requires Valid()
      ensures var i := Latest(keys, size, |queue|, first.hash);
              && first.hash <= size && table[first.hash] == Node(queue, i)
              && (keys[0].Some? ==> InBucket(keys[0], size, first.hash) && first.hnext == null)
    {
    }
  }

  /** At most one entry links to the oldest one: `i` is either that entry or, with the head first in its chain,
      the head itself. */
  lemma OnlyOneLinksToHead(keys: seq<Option<Key>>, max: nat, n: nat, k: nat, i: int, bucket: nat)
    requires 0 < k < n <= |keys| && InBucket(keys[k], max, bucket) && Latest(keys, max, k, bucket) == 0
    requires -1 <= i < n
    requires i <= 0 ==> i == Latest(keys, max, n, bucket)
    requires i > 0 ==> InBucket(keys[i], max, bucket) && Latest(keys, max, i, bucket) <= 0
    ensures k == i
  {
    LatestIsLatest(keys, max, n, bucket, k);
    if 0 < i < k { LatestIsLatest(keys, max, k, bucket, i); }
    if k < i { LatestIsLatest(keys, max, i, bucket, k); }
  }

  lemma {:induction false} NoneLatest(keys: seq<Option<Key>>, max: nat, n: nat, bucket: nat)
    requires n <= |keys| && forall i :: 0 <= i < |keys| ==> keys[i] == None
    ensures Latest(keys, max, n, bucket) == -1
  {
    if n > 0 { NoneLatest(keys, max, n - 1, bucket); }
  }

  /** The chains after the head of the queue has become its tail, under a new key. */
  lemma RotateChains(queue: seq<Entry>, keys: seq<Option<Key>>, max: nat, links: seq<Entry?>, heads: seq<Entry?>,
                     key: Key, h: nat, queue': seq<Entry>, links': seq<Entry?>, heads': seq<Entry?>)
    requires 0 < |keys| == |queue| == |links| == |links'| && |heads| == max + 1 && h == Bucket(max, key)
    requires Chained(queue, keys, max, links, heads) && keys[0] == None
    requires queue' == queue[1..] + [queue[0]]
    requires forall k :: 0 <= k < |queue| - 1 ==> links'[k] == links[k + 1]
    requires links'[|queue| - 1] == heads[h]
    requires heads' == heads[h := queue[0]]
    ensures Chained(queue', keys[1..] + [Some(key)], max, links', heads')
  {
    hide Bucket;
    var n, keys' := |queue| - 1, keys[1..] + [Some(key)];
    forall i | 0 <= i < |queue'| && keys'[i].Some?
      ensures links'[i] == Node(queue', Latest(keys', max, i, Bucket(max, keys'[i].value)))
    {
      LatestShifted(keys, [Some(key)], max, i, Bucket(max, keys'[i].value));
    }
    forall b | 0 <= b <= max ensures heads'[b] == Node(queue', Latest(keys', max, |queue'|, b)) {
      LatestShifted(keys, [Some(key)], max, n, b);
    }
  }

  lemma Turned<T>(s: seq<T>, t: seq<T>, last: T)
    requires 0 < |s| == |t| && t[|t| - 1] == last && forall k :: 0 <= k < |s| - 1 ==> t[k] == s[k + 1]
    ensures t == s[1..] + [last]
  {
  }

  lemma AgedLater(stamps: seq<Stamp>, clock: int, now: int)
    requires Aged(stamps, clock) && now >= clock
    ensures Aged(stamps, now)
  {
  }

  lemma AgedWithoutHead(stamps: seq<Stamp>, stamps': seq<Stamp>, clock: int)
    requires Aged(stamps, clock) && 0 < |stamps| == |stamps'| && stamps'[1..] == stamps[1..]
    requires stamps'[0].time == 0
    ensures Aged(stamps', clock)
  {
    assert 0 <= stamps[0].time <= clock;
    assert forall i :: 0 < i < |stamps| ==> stamps'[i] == stamps'[1..][i - 1] == stamps[1..][i - 1] == stamps[i];
  }

  lemma AgedNew(stamps: seq<Stamp>, stamp: Stamp, clock: int)
    requires Aged(stamps, clock) && 0 < |stamps| && stamp.time == clock
    ensures Aged(stamps[1..] + [stamp], clock)
  {
    assert 0 <= stamps[0].time <= clock;
  }
}
