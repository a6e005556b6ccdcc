/** The string hash and the chained hash table, and the lookup tables built on it: `hash` tables answer through
    the index, `file` tables by walking the rows. */
module HashIndex {
  import opened Common

  // ----- the hash function

  /** `&` on unsigned numbers. */
  function And(a: nat, b: nat): (r: nat)
    ensures r <= a && r <= b
    decreases a
  {
    if a == 0 || b == 0 then 0
    else 2 * And(a / 2, b / 2) + (if a % 2 == 1 && b % 2 == 1 then 1 else 0)
  }

  /** One step of the accumulator, an `unsigned long`. */
  function Mix(hash: nat, c: Byte): nat {
    (hash * 33 + c) % 0x1_0000_0000_0000_0000
  }

  function Accumulate(key: seq<Byte>): nat {
    if key == [] then 5381 else Mix(Accumulate(key[..|key| - 1]), key[|key| - 1])
  }

  /** The accumulator is the polynomial in 33 over the bytes, from 5381 on, modulo 2^64. */
  function Polynomial(key: seq<Byte>): nat {
    if key == [] then 5381 else 33 * Polynomial(key[..|key| - 1]) + key[|key| - 1]
  }

  function Power33(n: nat): nat {
    if n == 0 then 1 else 33 * Power33(n - 1)
  }

  /** The same as a sum: the byte at place `i` of `n` counts 33^(n-1-i) times. */
  function Sum33(key: seq<Byte>, n: nat): nat
    requires n <= |key|
  {
    if n == 0 then 0 else Sum33(key, n - 1) + key[n - 1] * Power33(|key| - n)
  }

  lemma {:induction false} AccumulateIs(key: seq<Byte>)
    ensures Accumulate(key) == Polynomial(key) % 0x1_0000_0000_0000_0000
  {
    hide Mix;
    if key != [] {
      var n := |key| - 1;
      AccumulateIs(key[..n]);
      MixModulo(Polynomial(key[..n]), key[n]);
    }
  }

  lemma MixModulo(x: nat, c: Byte)
    ensures Mix(x % 0x1_0000_0000_0000_0000, c) == (33 * x + c) % 0x1_0000_0000_0000_0000
  {
    var m := 0x1_0000_0000_0000_0000;
    assert x == m * (x / m) + x % m;
    assert 33 * x + c == (x % m * 33 + c) + m * (33 * (x / m));
    SameRest(x % m * 33 + c, 33 * (x / m));
  }

  lemma SameRest(y: nat, k: nat)
    ensures (y + 0x1_0000_0000_0000_0000 * k) % 0x1_0000_0000_0000_0000 == y % 0x1_0000_0000_0000_0000
  {
    var m := 0x1_0000_0000_0000_0000;
    assert y + m * k == m * (y / m + k) + y % m;
  }

  lemma {:induction false} PolynomialIs(key: seq<Byte>)
    ensures Polynomial(key) == 5381 * Power33(|key|) + Sum33(key, |key|)
  {
    if key != [] {
      var n := |key| - 1;
      PolynomialIs(key[..n]);
      SumScaled(key, n);
    }
  }

  lemma {:induction false} SumScaled(key: seq<Byte>, k: nat)
    requires k < |key|
    ensures 33 * Sum33(key[..|key| - 1], k) == Sum33(key, k)
  {
    if k > 0 {
      var s, n := key[..|key| - 1], |key|;
      SumScaled(key, k - 1);
      assert Power33(n - k) == 33 * Power33(n - 1 - k);
      assert key[k - 1] * Power33(n - k) == 33 * (s[k - 1] * Power33(n - 1 - k));
    }
  }

  /** The bucket of a key in a table of `2^n` buckets: the low `n` bits of the polynomial over its bytes and their NUL, or
      of one if it is zero. */
  lemma BucketIs(n: nat, key: seq<Byte>)
    ensures var p := Polynomial(key + [0]) % 0x1_0000_0000_0000_0000;
            Bucket(Power2(n) - 1, key) == (if p == 0 then 1 else p) % Power2(n)
  {
    hide Power2;
    var p := Polynomial(key + [0]) % 0x1_0000_0000_0000_0000;
    AccumulateIs(key + [0]);
    MaskKeepsLowBits(if p == 0 then 1 else p, n);
  }

  /** The bucket of a key: string keys are hashed with their closing NUL, and a zero hash counts as one. */
  function Bucket(max: nat, key: seq<Byte>): (h: nat)
    ensures h <= max
  {
    var hash := Accumulate(key + [0]);
    And(if hash == 0 then 1 else hash, max)
  }

  /** `ci_hash_compute` on a key of `len` bytes. */
  method ComputeHash(max: nat, key: seq<Byte>) returns (h: nat)
    ensures h == Bucket(max, key) <= max
  {
    hide And, Mix;
    var bytes := key + [0];
    var hash: nat := 5381;
    for i := 0 to |bytes|
      invariant hash == Accumulate(bytes[..i])
    {
      assert bytes[..i + 1][..i] == bytes[..i];
      hash := Mix(hash, bytes[i]);
    }
    assert bytes[..|bytes|] == bytes;
    if hash == 0 { hash := hash + 1; }
    h := And(hash, max);
  }

  function Power2(n: nat): (p: nat)
    ensures p >= 1
  {
    if n == 0 then 1 else 2 * Power2(n - 1)
  }

  ghost predicate IsMask(m: nat) {
    exists n: nat :: m == Power2(n) - 1
  }

  function LowBits(a: nat, p: nat): nat
    requires p > 0
  {
    a % p
  }

  /** Under a mask the hash keeps its low bits, so every bucket can be reached. */
  lemma {:induction false} MaskKeepsLowBits(a: nat, n: nat)
    ensures And(a, Power2(n) - 1) == LowBits(a, Power2(n))
    decreases n
  {
    hide And, LowBits;
    if n == 0 || a == 0 {
      AndZero(a, Power2(n) - 1);
      NoBits(a, Power2(n));
    } else {
      var p := Power2(n - 1);
      MaskKeepsLowBits(a / 2, n - 1);
      AndStep(a, p);
      HalfRemainder(a, p);
    }
  }

  lemma NoBits(a: nat, p: nat)
    requires p > 0 && (a == 0 || p == 1)
    ensures LowBits(a, p) == 0
  {
  }

  lemma AndZero(a: nat, b: nat)
    requires a == 0 || b == 0
    ensures And(a, b) == 0
  {
  }

  lemma AndStep(a: nat, p: nat)
    requires a > 0 && p > 0
    ensures And(a, 2 * p - 1) == 2 * And(a / 2, p - 1) + a % 2
  {
    assert (2 * p - 1) / 2 == p - 1 && (2 * p - 1) % 2 == 1;
  }

  lemma HalfRemainder(a: nat, p: nat)
    requires p > 0
    ensures LowBits(a, 2 * p) == 2 * LowBits(a / 2, p) + a % 2
  {
    var q, r := a / 2 / p, a / 2 % p;
    assert a / 2 == p * q + r;
    assert a == 2 * p * q + (2 * r + a % 2);
    Remainder(a, 2 * p, q, 2 * r + a % 2);
  }

  lemma Remainder(a: nat, d: nat, q: nat, r: nat)
    requires a == d * q + r && r < d
    ensures a % d == r
  {
    var x, y := a / d, a % d;
    assert a == d * x + y;
    assert d * x - d * q == d * (x - q);
    SmallMultiple(x - q, d, r - y);
  }

  /** The size loop of `ci_hash_build` and `ci_local_cache_init`. */
  method TableSize(items: nat) returns (size: nat)
    ensures IsMask(size) && size >= 63 && (size >= items || size >= 0xFFFFFF)
    ensures size > 63 ==> size / 2 < items && size / 2 < 0xFFFFFF
  {
    size := 63;
    ghost var n := 6;
    assert Power2(6) == 64;
    if items > 63 {
      while size < items && size < 0xFFFFFF
        invariant size == Power2(n) - 1 && size >= 63 && (size > 63 ==> size / 2 < items && size / 2 < 0xFFFFFF)
        decreases 0xFFFFFF - size
      {
        size := size + 1;
        size := size * 2 - 1;
        n := n + 1;
      }
    }
  }

  // ----- rows, and what a lookup should find

  datatype Row = Row(key: seq<Byte>, vals: seq<seq<Byte>>)

  /** The first row of a key, which a walk over the rows meets. */
  function FirstRow(rows: seq<Row>, key: seq<Byte>): (r: Option<Row>)
    ensures r.None? <==> forall i :: 0 <= i < |rows| ==> rows[i].key != key
    ensures r.Some? ==> exists i :: 0 <= i < |rows| && rows[i] == r.value && rows[i].key == key
                                    && forall j :: 0 <= j < i ==> rows[j].key != key
  {
    if rows == [] then None
    else if rows[0].key == key then Some(rows[0])
    else FirstRow(rows[1..], key)
  }

  /** The last row of a key. */
  function LastRow(rows: seq<Row>, key: seq<Byte>): (r: Option<Row>)
    ensures r.None? <==> forall i :: 0 <= i < |rows| ==> rows[i].key != key
    ensures r.Some? ==> exists i :: 0 <= i < |rows| && rows[i] == r.value && rows[i].key == key
                                    && forall j :: i < j < |rows| ==> rows[j].key != key
  {
    if rows == [] then None
    else
      var last := |rows| - 1;
      if rows[last].key == key then Some(rows[last]) else LastRow(rows[..last], key)
  }

  /** Rows are linked lists in the order of the file. */
  datatype List = Nil | Cons(row: Row, next: List)

  function Rows(l: List): seq<Row> {
    if l.Nil? then [] else [l.row] + Rows(l.next)
  }

  /** `file_table_search`. */
  method FileTableSearch(entries: List, key: seq<Byte>) returns (r: Option<Row>)
    ensures r == FirstRow(Rows(entries), key)
  {
    var e := entries;
    while e.Cons?
      invariant FirstRow(Rows(entries), key) == FirstRow(Rows(e), key)
      decreases e
    {
      if e.row.key == key { return Some(e.row); }
      assert Rows(e)[1..] == Rows(e.next);
      e := e.next;
    }
    r := None;
  }

  // ----- the index

  /** The chain of a bucket holds the rows of that bucket, the latest first. */
  ghost function Chain(rows: seq<Row>, max: nat, bucket: nat): List {
    if rows == [] then Nil
    else
      var last := |rows| - 1;
      var rest := Chain(rows[..last], max, bucket);
      if Bucket(max, rows[last].key) == bucket then Cons(rows[last], rest) else rest
  }

  class Table {
    const size: nat                // hash_table_size, the largest bucket number
    const buckets: array<List>     // hash_table
    ghost var rows: seq<Row>       // what has been added, in order

    ghost predicate Valid()
      reads this, buckets
    {
      buckets.Length == size + 1 && forall h :: 0 <= h <= size ==> buckets[h] == Chain(rows, size, h)
    }

    /** `ci_hash_build`. */
    constructor (size: nat)
      requires IsMask(size)
      ensures Valid() && rows == [] && this.size == size && fresh(buckets)
    {
      this.size := size;
      buckets := new List[size + 1](_ => Nil);
      rows := [];
    }

    /** `ci_hash_add`. */
    method Add(row: Row)
      requires Valid()
      modifies this, buckets
      ensures Valid() && rows == old(rows) + [row]
    {
      var h := ComputeHash(size, row.key);
      buckets[h] := Cons(row, buckets[h]);
      rows := rows + [row];
      assert rows[..|rows| - 1] == old(rows);
    }

    /** `ci_hash_search`. */
    method Search(key: seq<Byte>) returns (r: Option<Row>)
      requires Valid()
      ensures r == LastRow(rows, key)
    {
      var h := ComputeHash(size, key);
      ChainFindsLast(rows, size, key);
      var e := buckets[h];
      while e.Cons?
        invariant FirstRow(Rows(e), key) == LastRow(rows, key)
        decreases e
      {
        if e.row.key == key { return Some(e.row); }
        assert Rows(e)[1..] == Rows(e.next);
        e := e.next;
      }
      r := None;
    }
  }

  lemma {:induction false} ChainFindsLast(rows: seq<Row>, max: nat, key: seq<Byte>)
    ensures FirstRow(Rows(Chain(rows, max, Bucket(max, key))), key) == LastRow(rows, key)
  {
    if rows != [] {
      var last := |rows| - 1;
      ChainFindsLast(rows[..last], max, key);
      var c := Chain(rows, max, Bucket(max, key));
      if Bucket(max, rows[last].key) == Bucket(max, key) { assert Rows(c)[1..] == Rows(c.next); }
    }
  }

  /** `hash_table_open`: every row of the file table goes into the index, in file order. */
  method HashTableOpen(entries: List, count: nat) returns (t: Table)
    ensures fresh(t) && fresh(t.buckets) && t.Valid() && t.rows == Rows(entries)
  {
    hide Chain, Bucket, IsMask;
    var size := TableSize(count);
    t := new Table(size);
    var e := entries;
    assert t.rows + Rows(e) == Rows(e);
    while e.Cons?
      invariant fresh(t) && fresh(t.buckets) && t.Valid()
      invariant t.rows + Rows(e) == Rows(entries)
      decreases e
    {
      assert t.rows + [e.row] + Rows(e.next) == t.rows + Rows(e);
      t.Add(e.row);
      e := e.next;
    }
  }

  // ----- the two kinds of table compared

  /** The number of rows with a key. */
  function Count(rows: seq<Row>, key: seq<Byte>): nat {
    if rows == [] then 0 else (if rows[0].key == key then 1 else 0) + Count(rows[1..], key)
  }

  lemma {:induction false} FirstRowBySplit(a: seq<Row>, b: seq<Row>, key: seq<Byte>)
    ensures FirstRow(a + b, key) == if FirstRow(a, key).Some? then FirstRow(a, key) else FirstRow(b, key)
    ensures Count(a + b, key) == Count(a, key) + Count(b, key)
  {
    if a == [] {
      assert a + b == b;
    } else {
      FirstRowBySplit(a[1..], b, key);
      assert (a + b)[1..] == a[1..] + b;
    }
  }

  /** Both tables miss the same keys, both answer with a row of the key, and they agree on every key that is not
      repeated. */
  lemma {:induction false} TablesAgree(rows: seq<Row>, key: seq<Byte>)
    ensures FirstRow(rows, key).None? <==> LastRow(rows, key).None?
    ensures FirstRow(rows, key).None? <==> Count(rows, key) == 0
    ensures Count(rows, key) == 1 ==> FirstRow(rows, key) == LastRow(rows, key)
  {
    if rows != [] {
      var last := |rows| - 1;
      TablesAgree(rows[..last], key);
      assert rows == rows[..last] + [rows[last]];
      FirstRowBySplit(rows[..last], [rows[last]], key);
      assert [rows[last]][1..] == [];
    }
  }

  /** An index and a walk over the same entries, asked for the same key. */
  method Compare(entries: List, count: nat, key: seq<Byte>) returns (hashed: Option<Row>, walked: Option<Row>)
    ensures hashed.None? <==> walked.None?
    ensures hashed.Some? ==> hashed.value.key == walked.value.key == key
    ensures hashed == LastRow(Rows(entries), key) && walked == FirstRow(Rows(entries), key)
    ensures Count(Rows(entries), key) <= 1 ==> hashed == walked
    ensures (forall i, j :: 0 <= i < j < |Rows(entries)| ==> Rows(entries)[i].key != key || Rows(entries)[j].key != key) ==>
              hashed == walked
  {
    var table := HashTableOpen(entries, count);
    hashed := table.Search(key);
    walked := FileTableSearch(entries, key);
    TablesAgree(Rows(entries), key);
    FoundHasKey(Rows(entries), key);
  }

  lemma {:induction false} FoundHasKey(rows: seq<Row>, key: seq<Byte>)
    ensures FirstRow(rows, key).Some? ==> FirstRow(rows, key).value.key == key
    ensures LastRow(rows, key).Some? ==> LastRow(rows, key).value.key == key
  {
    if rows != [] {
      FoundHasKey(rows[1..], key);
      FoundHasKey(rows[..|rows| - 1], key);
    }
  }
}
