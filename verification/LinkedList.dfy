/** The list of `array.c`: singly linked nodes with a pointer to the last one, popped nodes kept for reuse, and an
    insertion sort that relinks the nodes. */
module LinkedList {
  import opened Common

  type Item(!new)

  // ----- what sorting means

  /** The place of `x`: before the first element that it is less than. */
  function Place(s: seq<Item>, x: Item, cmp: (Item, Item) -> int): (j: nat)
    ensures j <= |s| && (j < |s| ==> cmp(x, s[j]) < 0) && forall i :: 0 <= i < j ==> cmp(x, s[i]) >= 0
  {
    if s == [] || cmp(x, s[0]) < 0 then 0 else 1 + Place(s[1..], x, cmp)
  }

  function Put(s: seq<Item>, x: Item, j: nat): (r: seq<Item>)
    requires j <= |s|
    ensures |r| == |s| + 1 && r[j] == x
    ensures forall i :: 0 <= i < j ==> r[i] == s[i]
    ensures forall i :: j < i < |r| ==> r[i] == s[i - 1]
  {
    s[..j] + [x] + s[j..]
  }

  function Insert(s: seq<Item>, x: Item, cmp: (Item, Item) -> int): seq<Item> {
    Put(s, x, Place(s, x, cmp))
  }

  function InsertionSort(s: seq<Item>, cmp: (Item, Item) -> int): seq<Item> {
    if s == [] then [] else Insert(InsertionSort(s[..|s| - 1], cmp), s[|s| - 1], cmp)
  }

  ghost predicate TotalPreorder(cmp: (Item, Item) -> int) {
    && (forall a, b :: cmp(a, b) < 0 <==> cmp(b, a) > 0)
    && (forall a, b, c :: cmp(a, b) <= 0 && cmp(b, c) <= 0 ==> cmp(a, c) <= 0)
  }

  ghost predicate Sorted(s: seq<Item>, cmp: (Item, Item) -> int) {
    forall i, j :: 0 <= i < j < |s| ==> cmp(s[i], s[j]) <= 0
  }

  /** The elements that compare equal to `y`, in their order. */
  function Equals(s: seq<Item>, y: Item, cmp: (Item, Item) -> int): seq<Item> {
    if s == [] then [] else (if cmp(s[0], y) == 0 then [s[0]] else []) + Equals(s[1..], y, cmp)
  }

  /** Comparing by a number, as by any key, is such an order. */
  lemma KeysAreOrdered(key: Item -> int)
    ensures TotalPreorder((a, b) => key(a) - key(b))
  {
  }

  lemma Flip(cmp: (Item, Item) -> int, a: Item, b: Item)
    requires TotalPreorder(cmp)
    ensures (cmp(a, b) < 0 <==> cmp(b, a) > 0) && (cmp(a, b) <= 0 <==> cmp(b, a) >= 0)
  {
  }

  lemma Chain(cmp: (Item, Item) -> int, a: Item, b: Item, c: Item)
    requires TotalPreorder(cmp)
    ensures cmp(a, b) <= 0 && cmp(b, c) <= 0 ==> cmp(a, c) <= 0
  {
  }

  lemma InsertSorted(s: seq<Item>, x: Item, cmp: (Item, Item) -> int)
    requires TotalPreorder(cmp) && Sorted(s, cmp)
    ensures Sorted(Insert(s, x, cmp), cmp)
  {
    hide TotalPreorder;
    var j := Place(s, x, cmp);
    forall i | 0 <= i < j ensures cmp(s[i], x) <= 0 { Flip(cmp, x, s[i]); }
    forall k | j <= k < |s| ensures cmp(x, s[k]) <= 0 { if j < k { Chain(cmp, x, s[j], s[k]); } }
    SortedParts(s[..j], x, s[j..], cmp);
  }

  lemma SortedParts(a: seq<Item>, x: Item, b: seq<Item>, cmp: (Item, Item) -> int)
    requires Sorted(a + b, cmp)
    requires forall i :: 0 <= i < |a| ==> cmp(a[i], x) <= 0
    requires forall i :: 0 <= i < |b| ==> cmp(x, b[i]) <= 0
    ensures Sorted(a + [x] + b, cmp)
  {
    var r := a + [x] + b;
    forall i, j | 0 <= i < j < |r| ensures cmp(r[i], r[j]) <= 0 {
      var p, q := if i <= |a| then i else i - 1, if j <= |a| then j else j - 1;
      assert p < q && i != |a| && j != |a| ==> cmp((a + b)[p], (a + b)[q]) <= 0;
    }
  }

  lemma {:induction false} EqualsOfConcat(a: seq<Item>, b: seq<Item>, y: Item, cmp: (Item, Item) -> int)
    ensures Equals(a + b, y, cmp) == Equals(a, y, cmp) + Equals(b, y, cmp)
  {
    if a == [] {
      assert a + b == b;
    } else {
      EqualsOfConcat(a[1..], b, y, cmp);
      assert (a + b)[1..] == a[1..] + b;
    }
  }

  lemma {:induction false} NoEquals(s: seq<Item>, y: Item, cmp: (Item, Item) -> int)
    requires forall i :: 0 <= i < |s| ==> cmp(s[i], y) != 0
    ensures Equals(s, y, cmp) == []
  {
    if s != [] { NoEquals(s[1..], y, cmp); }
  }

  /** An element goes behind all its equals. */
  lemma InsertStable(s: seq<Item>, x: Item, y: Item, cmp: (Item, Item) -> int)
    requires TotalPreorder(cmp) && Sorted(s, cmp)
    ensures Equals(Insert(s, x, cmp), y, cmp) == Equals(s, y, cmp) + (if cmp(x, y) == 0 then [x] else [])
  {
    hide TotalPreorder, Sorted, Equals, Place;
    var j := Place(s, x, cmp);
    assert Insert(s, x, cmp) == s[..j] + [x] + s[j..];
    EqualsAround(s[..j], x, s[j..], y, cmp);
    assert s[..j] + s[j..] == s;
    if cmp(x, y) == 0 {
      forall i | 0 <= i < |s[j..]| ensures cmp(s[j..][i], y) != 0 { LaterIsGreater(s, x, y, cmp, j, j + i); }
      NoEquals(s[j..], y, cmp);
    }
  }

  lemma EqualsAround(a: seq<Item>, x: Item, b: seq<Item>, y: Item, cmp: (Item, Item) -> int)
    ensures Equals(a + b, y, cmp) == Equals(a, y, cmp) + Equals(b, y, cmp)
    ensures Equals(a + [x] + b, y, cmp)
         == Equals(a, y, cmp) + (if cmp(x, y) == 0 then [x] else []) + Equals(b, y, cmp)
  {
    EqualsOfConcat(a, b, y, cmp);
    EqualsOfConcat(a + [x], b, y, cmp);
    EqualsOfConcat(a, [x], y, cmp);
  }

  lemma EqualsOfLast(s: seq<Item>, y: Item, cmp: (Item, Item) -> int)
    requires s != []
    ensures var n, x := |s| - 1, s[|s| - 1];
            Equals(s, y, cmp) == Equals(s[..n], y, cmp) + (if cmp(x, y) == 0 then [x] else [])
  {
    hide Equals;
    EqualsAround(s[..|s| - 1], s[|s| - 1], [], y, cmp);
    NoEquals([], y, cmp);
    assert s[..|s| - 1] + [s[|s| - 1]] + [] == s;
  }

  /** The places of the elements that compare equal to `y`, in order, and no others. */
  function EqualPlaces(s: seq<Item>, y: Item, cmp: (Item, Item) -> int): (places: seq<nat>)
    ensures forall k :: 0 <= k < |places| ==> places[k] < |s| && cmp(s[places[k]], y) == 0
    ensures forall k, l :: 0 <= k < l < |places| ==> places[k] < places[l]
    ensures forall i :: 0 <= i < |s| && cmp(s[i], y) == 0 ==> i in places
  {
    if s == [] then []
    else EqualPlaces(s[..|s| - 1], y, cmp) + if cmp(s[|s| - 1], y) == 0 then [|s| - 1] else []
  }

  /** `Equals` is the elements at these places. */
  lemma {:induction false} EqualsAre(s: seq<Item>, y: Item, cmp: (Item, Item) -> int)
    ensures |Equals(s, y, cmp)| == |EqualPlaces(s, y, cmp)|
    ensures forall k :: 0 <= k < |EqualPlaces(s, y, cmp)| ==> Equals(s, y, cmp)[k] == s[EqualPlaces(s, y, cmp)[k]]
  {
    if s != [] {
      hide Equals;
      EqualsAre(s[..|s| - 1], y, cmp);
      EqualsOfLast(s, y, cmp);
    }
  }

  lemma LaterIsGreater(s: seq<Item>, x: Item, y: Item, cmp: (Item, Item) -> int, j: nat, k: nat)
    requires TotalPreorder(cmp) && Sorted(s, cmp) && j <= k < |s| && cmp(x, s[j]) < 0 && cmp(x, y) == 0
    ensures cmp(s[k], y) != 0
  {
    // otherwise s[j] <= s[k] <= y <= x, against x < s[j]
    hide TotalPreorder;
    Flip(cmp, x, y);
    Flip(cmp, x, s[j]);
    Chain(cmp, s[k], y, x);
    Chain(cmp, s[j], s[k], x);
  }

  /** The sort is a sorting, a permutation, and stable. */
  lemma {:induction false} SortSorts(s: seq<Item>, cmp: (Item, Item) -> int)
    requires TotalPreorder(cmp)
    ensures Sorted(InsertionSort(s, cmp), cmp)
    ensures var r := InsertionSort(s, cmp); forall i, j :: 0 <= i < j < |r| ==> cmp(r[i], r[j]) <= 0
  {
    SortedSort(s, cmp);
  }

  lemma {:induction false} SortedSort(s: seq<Item>, cmp: (Item, Item) -> int)
    requires TotalPreorder(cmp)
    ensures Sorted(InsertionSort(s, cmp), cmp)
  {
    if s != [] {
      hide TotalPreorder, Sorted, Insert;
      SortedSort(s[..|s| - 1], cmp);
      InsertSorted(InsertionSort(s[..|s| - 1], cmp), s[|s| - 1], cmp);
    }
  }

  lemma {:induction false} SortPermutes(s: seq<Item>, cmp: (Item, Item) -> int)
    ensures multiset(InsertionSort(s, cmp)) == multiset(s)
  {
    if s != [] {
      hide Insert;
      SortPermutes(s[..|s| - 1], cmp);
      assert s[..|s| - 1] + [s[|s| - 1]] == s;
      InsertKeeps(InsertionSort(s[..|s| - 1], cmp), s[|s| - 1], cmp);
    }
  }

  lemma {:induction false} SortStable(s: seq<Item>, y: Item, cmp: (Item, Item) -> int)
    requires TotalPreorder(cmp)
    ensures Equals(InsertionSort(s, cmp), y, cmp) == Equals(s, y, cmp)
  {
    if s != [] {
      hide TotalPreorder, Sorted, Equals, Insert;
      var n, x := |s| - 1, s[|s| - 1];
      SortStable(s[..n], y, cmp);
      SortSorts(s[..n], cmp);
      InsertStable(InsertionSort(s[..n], cmp), x, y, cmp);
      EqualsOfLast(s, y, cmp);
    }
  }

  lemma InsertKeeps(s: seq<Item>, x: Item, cmp: (Item, Item) -> int)
    ensures multiset(Insert(s, x, cmp)) == multiset(s) + multiset{x}
  {
    var j := Place(s, x, cmp);
    assert s == s[..j] + s[j..];
  }

  // ----- nodes and links

  class Node {
    var item: Item
    var next: Node?

    constructor (item: Item)
      ensures this.item == item && next == null
    {
      this.item, next := item, null;
    }
  }

  /** The node at a position; the position after the last one is the null pointer. */
  ghost function At(nodes: seq<Node>, i: nat): Node? {
    if i < |nodes| then nodes[i] else null
  }

  ghost predicate Distinct(nodes: seq<Node>) {
    forall i, j :: 0 <= i < j < |nodes| ==> nodes[i] != nodes[j]
  }

  /** Every node points to the following one. */
  ghost predicate Linked(nodes: seq<Node>)
    reads nodes`next
  {
    forall i {:trigger nodes[i].next} :: 0 <= i < |nodes| ==> nodes[i].next == At(nodes, i + 1)
  }

  ghost function Items(nodes: seq<Node>): (s: seq<Item>)
    reads nodes`item
    ensures |s| == |nodes| && forall i :: 0 <= i < |nodes| ==> s[i] == nodes[i].item
  {
    if nodes == [] then [] else Items(nodes[..|nodes| - 1]) + [nodes[|nodes| - 1].item]
  }

  ghost predicate Apart(a: seq<Node>, b: seq<Node>) {
    forall n :: n in a ==> n !in b
  }

  /** A list with one more node, at position `j`. */
  ghost function With(nodes: seq<Node>, x: Node, j: nat): (s: seq<Node>)
    requires j <= |nodes|
    ensures |s| == |nodes| + 1 && s[j] == x
    ensures forall i :: 0 <= i < j ==> s[i] == nodes[i]
    ensures forall i :: j < i < |s| ==> s[i] == nodes[i - 1]
  {
    nodes[..j] + [x] + nodes[j..]
  }

  lemma DistinctWith(nodes: seq<Node>, x: Node, j: nat)
    requires Distinct(nodes) && x !in nodes && j <= |nodes|
    ensures Distinct(With(nodes, x, j))
    ensures forall n :: n in With(nodes, x, j) <==> n == x || n in nodes
  {
  }

  /** All nodes but the one at `k` point to the following one. */
  ghost predicate LinkedBut(nodes: seq<Node>, k: int)
    reads nodes`next
  {
    forall i {:trigger nodes[i].next} :: 0 <= i < |nodes| && i != k ==> nodes[i].next == At(nodes, i + 1)
  }

  /** A node linked in at position `j`: it points on, and the node before it points to it. */
  lemma LinkedIn(nodes: seq<Node>, x: Node, j: nat)
    requires j <= |nodes| && LinkedBut(nodes, j - 1)
    requires x.next == At(nodes, j) && (j > 0 ==> nodes[j - 1].next == x)
    ensures Linked(With(nodes, x, j))
  {
    hide With;
    var s := With(nodes, x, j);
    forall i {:trigger s[i].next} | 0 <= i < |s| ensures s[i].next == At(s, i + 1) {
      if i < j {
        assert nodes[i].next == s[i].next;
      } else if i > j {
        assert nodes[i - 1].next == s[i].next;
      }
    }
  }

  lemma ItemsWith(nodes: seq<Node>, x: Node, j: nat)
    requires j <= |nodes|
    ensures Items(With(nodes, x, j)) == Put(Items(nodes), x.item, j)
  {
    hide Items, With, Put;
    var s, t := Items(With(nodes, x, j)), Put(Items(nodes), x.item, j);
    forall i | 0 <= i < |s| ensures s[i] == t[i] {
      if i > j { assert t[i] == Items(nodes)[i - 1]; }
    }
  }

  lemma PutEnds(s: seq<Item>, x: Item)
    ensures Put(s, x, 0) == [x] + s && Put(s, x, |s|) == s + [x]
  {
  }

  lemma NotAt(nodes: seq<Node>, n: Node)
    requires n !in nodes
    ensures forall i {:trigger nodes[i].next} :: 0 <= i < |nodes| ==> nodes[i] != n
  {
  }

  lemma ItemsConcat(a: seq<Node>, b: seq<Node>)
    ensures Items(a + b) == Items(a) + Items(b)
  {
    hide Items;
  }

  lemma ItemsSlice(nodes: seq<Node>, a: nat, b: nat)
    requires a <= b <= |nodes|
    ensures Items(nodes[a..b]) == Items(nodes)[a..b]
  {
    hide Items;
  }

  ghost function Without(nodes: seq<Node>, j: nat): (s: seq<Node>)
    requires j < |nodes|
    ensures |s| == |nodes| - 1
    ensures forall i :: 0 <= i < j ==> s[i] == nodes[i]
    ensures forall i :: j <= i < |s| ==> s[i] == nodes[i + 1]
  {
    nodes[..j] + nodes[j + 1..]
  }

  lemma WithoutAgrees(nodes: seq<Node>, j: nat)
    requires Distinct(nodes) && j < |nodes|
    ensures Distinct(Without(nodes, j)) && nodes[j] !in Without(nodes, j)
    ensures forall n :: n in nodes <==> n == nodes[j] || n in Without(nodes, j)
  {
    var s := Without(nodes, j);
    assert forall i :: 0 <= i < |nodes| ==> i == j || nodes[i] == s[if i < j then i else i - 1];
  }

  function Removed(s: seq<Item>, j: nat): seq<Item>
    requires j < |s|
  {
    s[..j] + s[j + 1..]
  }

  lemma ItemsWithout(nodes: seq<Node>, j: nat)
    requires j < |nodes|
    ensures Items(Without(nodes, j)) == Removed(Items(nodes), j)
  {
    hide Items;
    ItemsSlice(nodes, 0, j);
    ItemsSlice(nodes, j + 1, |nodes|);
    ItemsConcat(nodes[0..j], nodes[j + 1..|nodes|]);
  }

  lemma LinkedOut(nodes: seq<Node>, j: nat)
    requires j < |nodes| && LinkedBut(nodes, j - 1) && (j > 0 ==> nodes[j - 1].next == At(nodes, j + 1))
    ensures Linked(Without(nodes, j))
  {
    hide Without;
    var s := Without(nodes, j);
    forall i {:trigger s[i].next} | 0 <= i < |s| ensures s[i].next == At(s, i + 1) {
      if i < j {
        assert nodes[i].next == s[i].next;
      } else {
        assert nodes[i + 1].next == s[i].next;
      }
    }
  }

  /** The first item that compares equal to `x`. */
  function FirstLike(s: seq<Item>, x: Item, cmp: (Item, Item) -> int): (j: nat)
    ensures j <= |s| && (j < |s| ==> cmp(s[j], x) == 0) && forall i :: 0 <= i < j ==> cmp(s[i], x) != 0
  {
    if s == [] || cmp(s[0], x) == 0 then 0 else 1 + FirstLike(s[1..], x, cmp)
  }

  lemma FirstIs(s: seq<Item>, x: Item, cmp: (Item, Item) -> int, j: nat)
    requires j <= |s| && (j < |s| ==> cmp(s[j], x) == 0) && forall i :: 0 <= i < j ==> cmp(s[i], x) != 0
    ensures j == FirstLike(s, x, cmp)
  {
  }

  /** The nodes from `k` on point to the following ones. */
  ghost predicate LinkedFrom(nodes: seq<Node>, k: nat)
    reads nodes`next
  {
    forall i {:trigger nodes[i].next} :: k <= i < |nodes| ==> nodes[i].next == At(nodes, i + 1)
  }

  /** A list whose last node but one has become the last. */
  lemma LinkedShort(nodes: seq<Node>)
    requires |nodes| >= 2 && LinkedBut(nodes, |nodes| - 2) && nodes[|nodes| - 2].next == null
    ensures Linked(nodes[..|nodes| - 1])
  {
    var s := nodes[..|nodes| - 1];
    forall i {:trigger s[i].next} | 0 <= i < |s| ensures s[i].next == At(s, i + 1) {
      assert nodes[i].next == s[i].next;
    }
  }

  lemma OnlyOne(nodes: seq<Node>)
    requires nodes != [] && Distinct(nodes) && nodes[0] == nodes[|nodes| - 1]
    ensures |nodes| == 1 && nodes[..|nodes| - 1] == []
  {
  }

  /** Without its last node a list is still apart from another. */
  lemma ShortIsApart(nodes: seq<Node>, bin: seq<Node>)
    requires nodes != [] && Distinct(nodes) && Apart(nodes, bin)
    ensures var s, n := nodes[..|nodes| - 1], nodes[|nodes| - 1];
            && Distinct(s) && Apart(s, bin) && n !in s && n !in bin && n in nodes
            && forall m :: m in nodes && m != n ==> m in s
  {
    var k := |nodes| - 1;
    assert nodes == nodes[..k] + [nodes[k]];
  }

  /** One step of the sort: from the head, past the nodes that `x` is not less than, then `x` is linked in. A null
      `prev` stands for a pointer to the head. */
  method InsertNode(ghost sorted: seq<Node>, head: Node?, x: Node, cmp: (Item, Item) -> int, ghost all: seq<Node>, ghost k: nat)
    returns (head': Node?, ghost j: nat)
    requires Linked(sorted) && Distinct(sorted) && head == At(sorted, 0) && x !in sorted
    requires LinkedFrom(all, k) && forall i :: k <= i < |all| ==> all[i] !in sorted && all[i] != x
    modifies x`next, sorted`next
    ensures LinkedFrom(all, k)
    ensures j == Place(Items(sorted), x.item, cmp)
    ensures Linked(With(sorted, x, j)) && head' == At(With(sorted, x, j), 0)
    ensures j == |sorted| <==> x.next == null
  {
    hide Items, Place, With;
    var prev: Node?, cur := null, head;
    j := 0;
    while !(cur == null || cmp(x.item, cur.item) < 0)
      invariant j <= |sorted| && cur == At(sorted, j) && prev == if j == 0 then null else sorted[j - 1]
      invariant forall i :: 0 <= i < j ==> cmp(x.item, sorted[i].item) >= 0
      decreases |sorted| - j
    {
      prev, cur, j := cur, cur.next, j + 1;
    }
    PlaceIs(Items(sorted), x.item, cmp, j);
    x.next := cur;
    head' := head;
    if prev == null {
      head' := x;
    } else {
      assert prev in sorted;
      prev.next := x;
    }
    LinkedIn(sorted, x, j);
  }

  lemma PlaceIs(s: seq<Item>, x: Item, cmp: (Item, Item) -> int, j: nat)
    requires j <= |s| && (j < |s| ==> cmp(x, s[j]) < 0) && forall i :: 0 <= i < j ==> cmp(x, s[i]) >= 0
    ensures j == Place(s, x, cmp)
  {
  }

  /** The nodes that a list still knows. */
  ghost function Kept(nodes: seq<Node>, bin: seq<Node>, spare: Node?): set<Node> {
    (set n | n in nodes) + (set n | n in bin) + (if spare == null then {} else {spare})
  }

  // A node that moves is kept.

  lemma KeptIn(nodes: seq<Node>, bin: seq<Node>, n: Node, j: nat)
    requires j <= |nodes|
    ensures Kept(With(nodes, n, j), bin, null) == Kept(nodes, bin, n)
    ensures Kept(bin, With(nodes, n, j), null) == Kept(bin, nodes, n)
  {
    assert forall m :: m in With(nodes, n, j) <==> m == n || m in nodes;
  }

  lemma KeptOut(nodes: seq<Node>, bin: seq<Node>, j: nat)
    requires j < |nodes|
    ensures Kept(Without(nodes, j), bin, nodes[j]) == Kept(nodes, bin, null)
  {
    assert nodes == nodes[..j] + [nodes[j]] + nodes[j + 1..];
  }

  lemma KeptEnds(nodes: seq<Node>, bin: seq<Node>)
    requires nodes != []
    ensures Kept(nodes[1..], bin, nodes[0]) == Kept(nodes, bin, null)
    ensures Kept(bin, nodes[1..], nodes[0]) == Kept(bin, nodes, null)
    ensures Kept(nodes[..|nodes| - 1], bin, nodes[|nodes| - 1]) == Kept(nodes, bin, null)
  {
    assert nodes == [nodes[0]] + nodes[1..] && nodes == nodes[..|nodes| - 1] + [nodes[|nodes| - 1]];
  }

  class List {
    var items: Node?
    var last: Node?
    var trash: Node?
    var cursor: Node?
    ghost var nodes: seq<Node>    // the nodes from `items` on
    ghost var bin: seq<Node>      // the nodes from `trash` on
    ghost var made: set<Node>     // all nodes ever allocated
    ghost var leaked: set<Node>   // allocated and lost, because there was no memory for the object

    /** Both lists, with `spare` in neither of them, are well linked, and the three are all nodes but the leaked. */
    ghost predicate Shape(spare: Node?)
      reads this, nodes`next, bin`next
    {
      && Linked(nodes) && Linked(bin) && Distinct(nodes) && Distinct(bin) && Apart(nodes, bin)
      && items == At(nodes, 0) && trash == At(bin, 0)
      && (cursor != null ==> cursor in nodes)
      && (spare != null ==> spare !in nodes && spare !in bin)
      && made == Kept(nodes, bin, spare) + leaked && Kept(nodes, bin, spare) !! leaked
    }

    /** List and trash are all nodes ever made, exactly if none was leaked. */
    lemma NothingLost()
      requires Valid()
      ensures made == (set n | n in nodes) + (set n | n in bin) <==> leaked == {}
    {
    }

    ghost predicate LastIsLast()
      reads this
    {
      last == if nodes == [] then null else nodes[|nodes| - 1]
    }

    ghost predicate Valid()
      reads this, nodes`next, bin`next
    {
      Shape(null) && LastIsLast()
    }

    ghost function Contents(): seq<Item>
      reads this, nodes`item
    {
      Items(nodes)
    }

    constructor ()
      ensures Valid() && Contents() == [] && made == leaked == {}
    {
      items, last, trash, cursor := null, null, null, null;
      nodes, bin, made, leaked := [], [], {}, {};
    }

    /** `list_alloc_item`: a popped node is used again before a new one is allocated; a new one that gets no object is
        lost. */
    method AllocItem(x: Item, memory: bool, itemMemory: bool) returns (n: Node?)
      requires Valid()
      modifies this`trash, this`bin, this`made, this`leaked, bin
      ensures Shape(n) && LastIsLast() && Contents() == old(Contents())
      ensures n == null <==> old(bin) == [] && !(memory && itemMemory)
      ensures old(leaked) <= leaked && (leaked == old(leaked) <==> !(old(bin) == [] && memory && !itemMemory))
      ensures n == null ==> bin == old(bin)
      ensures n != null ==> n.item == x && n.next == null
      ensures n != null ==> if old(bin) == [] then fresh(n) && bin == [] else [n] + bin == old(bin)
      ensures old(made) <= made && fresh(made - old(made))
    {
      hide Items, Linked, Distinct;
      if trash != null {
        n := Recycle(x);
      } else if memory {
        n := Allocate(x, itemMemory);
      } else {
        n := null;
      }
    }

    method Recycle(x: Item) returns (n: Node)
      requires Valid() && trash != null
      modifies this`trash, this`bin, bin
      ensures Shape(n) && LastIsLast() && Contents() == old(Contents())
      ensures n.item == x && n.next == null && [n] + bin == old(bin)
    {
      hide Kept;
      KeptEnds(bin, nodes);
      n := trash;
      trash := trash.next;
      assert n in bin;
      NotAt(nodes, n);
      assert bin == [n] + bin[1..] && forall i {:trigger bin[1..][i].next} :: 0 <= i < |bin| - 1 ==> bin[1..][i] == bin[i + 1];
      bin := bin[1..];
      n.item, n.next := x, null;
    }

    method Allocate(x: Item, itemMemory: bool) returns (n: Node?)
      requires Valid() && trash == null
      modifies this`made, this`leaked
      ensures Shape(n) && LastIsLast() && Contents() == old(Contents())
      ensures if itemMemory then n != null && fresh(n) && n.item == x && n.next == null && leaked == old(leaked)
              else n == null && old(leaked) < leaked
      ensures old(made) <= made && fresh(made - old(made))
    {
      n := new Node(x);
      made := made + {n};
      if !itemMemory {
        leaked := leaked + {n};
        n := null;
      }
    }

    method LinkFront(n: Node)
      requires Shape(n) && LastIsLast() && n.next == null
      modifies this`items, this`last, this`nodes, n`next
      ensures Valid() && nodes == With(old(nodes), n, 0)
    {
      hide With, Kept;
      if items != null {
        n.next, items := items, n;
      } else {
        items, last := n, n;
      }
      LinkedIn(nodes, n, 0);
      DistinctWith(nodes, n, 0);
      KeptIn(nodes, bin, n, 0);
      nodes := With(nodes, n, 0);
    }

    method LinkBack(n: Node)
      requires Shape(n) && LastIsLast() && n.next == null
      modifies this`items, this`last, this`nodes, n`next, nodes`next
      ensures Valid() && nodes == With(old(nodes), n, |old(nodes)|)
    {
      hide With, Kept;
      if last != null {
        assert last in nodes;
        NotAt(bin, last);
        last.next, last := n, n;
      } else {
        items, last := n, n;
      }
      LinkedIn(nodes, n, |nodes|);
      DistinctWith(nodes, n, |nodes|);
      KeptIn(nodes, bin, n, |nodes|);
      nodes := With(nodes, n, |nodes|);
    }

    method Push(x: Item, memory: bool, itemMemory: bool) returns (ok: bool)
      requires Valid()
      modifies this, nodes, bin
      ensures Valid() && old(made) <= made && fresh(made - old(made))
      ensures ok <==> old(bin) != [] || (memory && itemMemory)
      ensures leaked == old(leaked) <==> !(old(bin) == [] && memory && !itemMemory)
      ensures Contents() == if ok then [x] + old(Contents()) else old(Contents())
    {
      hide Items, With, Put, Linked, Distinct, Apart, At;
      var n := AllocItem(x, memory, itemMemory);
      ok := n != null;
      if n != null {
        ItemsWith(nodes, n, 0);
        PutEnds(Items(nodes), x);
        LinkFront(n);
      }
    }

    method PushBack(x: Item, memory: bool, itemMemory: bool) returns (ok: bool)
      requires Valid()
      modifies this, nodes, bin
      ensures Valid() && old(made) <= made && fresh(made - old(made))
      ensures ok <==> old(bin) != [] || (memory && itemMemory)
      ensures leaked == old(leaked) <==> !(old(bin) == [] && memory && !itemMemory)
      ensures Contents() == if ok then old(Contents()) + [x] else old(Contents())
    {
      hide Items, With, Put, Linked, Distinct, Apart, At;
      var n := AllocItem(x, memory, itemMemory);
      ok := n != null;
      if n != null {
        ItemsWith(nodes, n, |nodes|);
        PutEnds(Items(nodes), x);
        LinkBack(n);
      }
    }

    /** A node goes to the trash. */
    method Discard(n: Node)
      requires Shape(n)
      modifies this`trash, this`bin, n`next
      ensures Shape(null) && bin == [n] + old(bin)
    {
      n.next := trash;
      trash := n;
      hide Kept;
      LinkedIn(bin, n, 0);
      KeptIn(bin, nodes, n, 0);
      DistinctWith(bin, n, 0);
      bin := With(bin, n, 0);
    }

    method UnlinkFront() returns (n: Node)
      requires Valid() && items != null
      modifies this`items, this`last, this`cursor, this`nodes
      ensures n == old(items) && Shape(n) && LastIsLast() && nodes == old(nodes)[1..|old(nodes)|]
      ensures cursor == if old(cursor) == old(nodes)[0] || |old(nodes)| == 1 then At(old(nodes), 1) else old(cursor)
    {
      hide Kept;
      KeptEnds(nodes, bin);
      n := items;
      if last == items {
        last, items, cursor := null, null, null;
      } else {
        if cursor == items { cursor := items.next; }
        items := items.next;
      }
      nodes := nodes[1..];
    }

    /** The walk for the node before the last one never falls off the end. */
    method UnlinkBack() returns (n: Node)
      requires Valid() && items != null
      modifies this`items, this`last, this`cursor, this`nodes, nodes`next
      ensures n == old(last) && Shape(n) && LastIsLast() && nodes == old(nodes)[0..|old(nodes)| - 1]
      ensures cursor == if old(cursor) == old(last) then null else old(cursor)
    {
      hide Kept, Linked, Distinct, Apart;
      n := last;
      if last == items {
        OnlyOne(nodes);
        KeptEnds(nodes, bin);
        ShortIsApart(nodes, bin);
        NoneLinked();
        last, items, cursor := null, null, null;
        nodes := nodes[..|nodes| - 1];
      } else {
        CutBack();
      }
    }

    lemma NoneLinked()
      ensures Linked([])
    {
    }

    /** The last of at least two nodes is cut off. */
    method CutBack()
      requires Valid() && |nodes| >= 2
      modifies this`last, this`cursor, this`nodes, nodes`next
      ensures Shape(old(last)) && LastIsLast() && nodes == old(nodes)[..|old(nodes)| - 1]
      ensures cursor == if old(cursor) == old(last) then null else old(cursor)
    {
      hide Kept;
      KeptEnds(nodes, bin);
      ShortIsApart(nodes, bin);
      if cursor == last { cursor := null; }
      last := BeforeLast();
      assert last in nodes;
      NotAt(bin, last);
      last.next := null;
      LinkedShort(nodes);
      assert Linked(bin);
      hide Linked, Distinct, Apart;
      nodes := nodes[..|nodes| - 1];
    }

    /** The node before the last one. */
    method BeforeLast() returns (tmp: Node)
      requires Linked(nodes) && Distinct(nodes) && |nodes| >= 2 && items == nodes[0] && last == nodes[|nodes| - 1]
      ensures tmp == nodes[|nodes| - 2]
    {
      var p := items;
      ghost var k := 0;
      while p != null && p.next != last
        invariant 0 <= k < |nodes| - 1 && p == nodes[k]
        decreases |nodes| - k
      {
        p, k := p.next, k + 1;
      }
      assert p != null;
      tmp := p;
    }

    method Pop() returns (x: Option<Item>)
      requires Valid()
      modifies this, nodes
      ensures Valid() && made == old(made) && leaked == old(leaked)
      ensures if old(Contents()) == [] then x == None && Contents() == []
              else x == Some(old(Contents())[0]) && Contents() == old(Contents())[1..]
      ensures bin == if x == None then old(bin) else [old(nodes[0])] + old(bin)
    {
      hide Items, Linked, Distinct, Apart;
      if items == null { return None; }
      ItemsSlice(nodes, 1, |nodes|);
      var n := UnlinkFront();
      Discard(n);
      x := Some(n.item);
    }

    method PopBack() returns (x: Option<Item>)
      requires Valid()
      modifies this, nodes
      ensures Valid() && made == old(made) && leaked == old(leaked)
      ensures var s := old(Contents());
              if s == [] then x == None && Contents() == []
              else x == Some(s[|s| - 1]) && Contents() == s[..|s| - 1]
      ensures bin == if x == None then old(bin) else [old(nodes[|nodes| - 1])] + old(bin)
    {
      hide Items, Linked, Distinct, Apart;
      if items == null { return None; }
      ItemsSlice(nodes, 0, |nodes| - 1);
      var n := UnlinkBack();
      Discard(n);
      x := Some(n.item);
    }

    method Unlink(ghost j: nat, prev: Node?, it: Node)
      requires Valid() && j < |nodes| && it == nodes[j] && prev == if j == 0 then null else nodes[j - 1]
      modifies this`items, this`cursor, this`nodes, nodes`next
      ensures Shape(it) && nodes == Without(old(nodes), j) && (LastIsLast() <==> j != |old(nodes)| - 1)
      ensures cursor == if old(cursor) == it then At(old(nodes), j + 1) else old(cursor)
    {
      hide Without, Kept;
      KeptOut(nodes, bin, j);
      WithoutAgrees(nodes, j);
      if prev != null {
        assert prev in nodes;
        NotAt(bin, prev);
      }
      assert it.next == At(nodes, j + 1);
      if prev != null { prev.next := it.next; } else { items := it.next; }
      if cursor == it { cursor := cursor.next; }
      LinkedOut(nodes, j);
      nodes := Without(nodes, j);
    }

    method Find(x: Item, cmp: (Item, Item) -> int) returns (it: Node?, prev: Node?, ghost j: nat)
      requires Valid()
      ensures j == FirstLike(Contents(), x, cmp) && it == At(nodes, FirstLike(Contents(), x, cmp))
      ensures prev == if j == 0 then null else nodes[j - 1]
    {
      hide Items, FirstLike, Apart, Distinct;
      it, prev, j := items, null, 0;
      while it != null && cmp(it.item, x) != 0
        invariant 0 <= j <= |nodes| && it == At(nodes, j) && prev == if j == 0 then null else nodes[j - 1]
        invariant forall i :: 0 <= i < j ==> cmp(nodes[i].item, x) != 0
        decreases |nodes| - j
      {
        prev, it, j := it, it.next, j + 1;
      }
      FirstIs(Items(nodes), x, cmp, j);
    }

    /** `ci_list_remove` forgets `last`: the list stays valid exactly when another node than the last one goes, and
        otherwise `last` is the node at the head of the trash. */
    method Remove(x: Item, cmp: (Item, Item) -> int) returns (found: bool)
      requires Valid()
      modifies this`items, this`cursor, this`trash, this`bin, this`nodes, nodes`next
      ensures var s, j := old(Contents()), FirstLike(old(Contents()), x, cmp);
              && found == (j < |s|)
              && Contents() == (if found then Removed(s, j) else s)
              && bin == (if found then [old(nodes)[j]] + old(bin) else old(bin))
              && (Valid() <==> j != |s| - 1)
      ensures Shape(null) && last == old(last)
    {
      hide Items, Without, Apart, FirstLike, Linked, Distinct, Removed;
      var it, prev, j := Find(x, cmp);
      found := it != null;
      if it != null {
        ItemsWithout(nodes, j);
        Unlink(j, prev, it);
        Discard(it);
      }
    }

    /** `ci_list_sort2`. */
    method Sort(cmp: (Item, Item) -> int)
      requires Valid()
      modifies this`items, this`last, this`nodes, nodes`next
      ensures Valid() && made == old(made) && bin == old(bin)
      ensures Contents() == InsertionSort(old(Contents()), cmp)
    {
      hide Items, InsertionSort, Taken, Distinct;
      if items == null || items.next == null {
        assert |nodes| <= 1;
        SortOfFew(Items(nodes), cmp);
        return;
      }
      assert forall i {:trigger bin[i].next} :: 0 <= i < |bin| ==> bin[i] in bin && bin[i] !in nodes;
      ghost var sorted;
      items, last, sorted := SortNodes(nodes, items, cmp);
      assert Linked(bin);
      hide Linked, Apart, Kept;
      TakenAll(nodes, sorted);
      SameNodes(nodes, sorted, bin);
      nodes := sorted;
    }
  }

  /** A part of the nodes, in another order. */
  ghost predicate Taken(all: seq<Node>, k: nat, sorted: seq<Node>)
    requires k <= |all|
  {
    && |sorted| == k && Distinct(sorted)
    && (forall n :: n in sorted ==> n in all)
    && (forall i :: 0 <= i < |all| ==> (i < k <==> all[i] in sorted))
  }

  lemma TakeNext(all: seq<Node>, k: nat, sorted: seq<Node>, j: nat)
    requires Distinct(all) && k < |all| && j <= |sorted| && Taken(all, k, sorted)
    ensures Taken(all, k + 1, With(sorted, all[k], j))
  {
    DistinctWith(sorted, all[k], j);
  }

  lemma TakenAll(all: seq<Node>, sorted: seq<Node>)
    requires Taken(all, |all|, sorted)
    ensures Distinct(sorted) && |sorted| == |all|
    ensures (set n | n in sorted) == (set n | n in all) && forall n :: n in sorted <==> n in all
  {
  }

  lemma SameNodes(nodes: seq<Node>, sorted: seq<Node>, bin: seq<Node>)
    requires Apart(nodes, bin) && forall n :: n in sorted <==> n in nodes
    ensures Apart(sorted, bin) && Kept(sorted, bin, null) == Kept(nodes, bin, null)
  {
  }

  lemma TakenSoFar(all: seq<Node>, k: nat, sorted: seq<Node>)
    requires k < |all| && Taken(all, k, sorted) && Distinct(all)
    ensures Distinct(sorted) && all[k] !in sorted
    ensures forall i :: 0 <= i < |sorted| ==> sorted[i] in all
    ensures forall i :: k < i < |all| ==> all[i] !in sorted && all[i] != all[k]
  {
  }

  /** Between two rounds of the sort: `k` nodes are taken and linked up anew, the others as they were. */
  ghost predicate Halfway(all: seq<Node>, k: nat, it: Node?, sorted: seq<Node>, head: Node?, tail: Node?)
    requires k <= |all|
    reads all`next, sorted`next
  {
    && it == At(all, k) && Taken(all, k, sorted) && Linked(sorted) && head == At(sorted, 0)
    && tail == (if sorted == [] then null else sorted[|sorted| - 1]) && LinkedFrom(all, k)
  }

  method SortRound(ghost all: seq<Node>, ghost k: nat, it: Node, ghost sorted: seq<Node>, head: Node?, tail: Node?,
                   cmp: (Item, Item) -> int)
    returns (it': Node?, ghost sorted': seq<Node>, head': Node?, tail': Node?)
    requires Distinct(all) && k < |all| && Halfway(all, k, it, sorted, head, tail)
    modifies all`next
    ensures Halfway(all, k + 1, it', sorted', head', tail')
    ensures Items(sorted') == Insert(Items(sorted), all[k].item, cmp)
  {
    hide Items, With, Put, Distinct, Place, Taken, Linked;
    it', tail' := it.next, tail;
    TakenSoFar(all, k, sorted);
    assert LinkedFrom(all, k + 1) && it' == At(all, k + 1);
    hide LinkedFrom;
    ghost var j;
    head', j := InsertNode(sorted, head, it, cmp, all, k + 1);
    if it.next == null { tail' := it; }
    ItemsWith(sorted, it, j);
    TakeNext(all, k, sorted, j);
    sorted' := With(sorted, it, j);
  }

  /** The loop of the sort: node by node, each goes to its place among those already taken. */
  method SortNodes(ghost all: seq<Node>, first: Node?, cmp: (Item, Item) -> int)
    returns (head: Node?, tail: Node?, ghost sorted: seq<Node>)
    requires Linked(all) && Distinct(all) && first == At(all, 0)
    modifies all`next
    ensures Taken(all, |all|, sorted) && Linked(sorted) && head == At(sorted, 0)
    ensures tail == if sorted == [] then null else sorted[|sorted| - 1]
    ensures Items(sorted) == InsertionSort(Items(all), cmp)
  {
    hide Items, InsertionSort, Insert, Distinct, Taken;
    ghost var was, k := Items(all), 0;
    var it := first;
    head, tail, sorted := null, null, [];
    SortOfFew(was[..0], cmp);
    TakenNone(all);
    while it != null
      invariant 0 <= k <= |all| && Halfway(all, k, it, sorted, head, tail)
      invariant Items(sorted) == InsertionSort(was[..k], cmp)
      decreases |all| - k
    {
      it, sorted, head, tail := SortRound(all, k, it, sorted, head, tail, cmp);
      SortStep(was, k, cmp);
      k := k + 1;
    }
    assert was[..k] == was;
  }

  lemma TakenNone(all: seq<Node>)
    ensures Taken(all, 0, [])
  {
  }

  lemma SortOfFew(s: seq<Item>, cmp: (Item, Item) -> int)
    requires |s| <= 1
    ensures InsertionSort(s, cmp) == s
  {
    if |s| == 1 { assert s[..0] == []; }
  }

  lemma SortStep(s: seq<Item>, k: nat, cmp: (Item, Item) -> int)
    requires k < |s|
    ensures InsertionSort(s[..k + 1], cmp) == Insert(InsertionSort(s[..k], cmp), s[k], cmp)
  {
    assert s[..k + 1][..k] == s[..k];
  }
}
