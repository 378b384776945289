// The lazy union of posting lists: a min-heap of iterators (varint/LazyOrSet.cpp).
module LazyOrs {

  const NO_MORE_DOCS := 0xffff_ffff
  const MAX_DOC := 0x7fff_ffff

  type Docs = seq<nat>

  // A posting list: ascending, without 0 and within the signed range.
  ghost predicate IsPosting(docs: Docs) {
    && (forall i :: 0 <= i < |docs| ==> 0 < docs[i] <= MAX_DOC)
    && (forall i, j :: 0 <= i < j < |docs| ==> docs[i] < docs[j])
  }

  // The heap compares doc ids as int.
  function AsInt(doc: nat): int {
    if doc > MAX_DOC then doc - 0x1_0000_0000 else doc
  }

  // What an iterator over a set must return when asked for a doc from `from` on.
  ghost predicate IsLeastFrom(docs: set<nat>, from: nat, r: nat) {
    if r == NO_MORE_DOCS then forall d :: d in docs ==> d < from
    else r in docs && from <= r && forall d :: d in docs && from <= d ==> r <= d
  }

  // ----- One iterator in the heap -----

  // pos docs have been returned; doc is the last of them, 0 before the first.
  datatype Item = Item(docs: Docs, pos: nat, doc: nat) {
    ghost predicate Valid() {
      IsPosting(docs) && pos <= |docs| && doc == if pos == 0 then 0 else docs[pos - 1]
    }

    // d is the present doc or comes after it.
    ghost predicate Has(d: nat) {
      exists k :: 0 <= k < |docs| && pos <= k + 1 && docs[k] == d
    }
  }

  // First position from p on whose doc is at least target.
  function FirstFrom(docs: Docs, p: nat, target: nat): (q: nat)
    requires p <= |docs|
    ensures p <= q <= |docs|
    ensures forall i :: p <= i < q ==> docs[i] < target
    ensures q < |docs| ==> docs[q] >= target
    decreases |docs| - p
  {
    if p == |docs| || docs[p] >= target then p else FirstFrom(docs, p + 1, target)
  }

  // nextDoc and Advance of the iterator of a posting list that is not exhausted:
  // the position behind the doc returned, or None past the last doc.
  datatype Moved = Exhausted | Moved(item: Item)

  function MoveTo(item: Item, q: nat): Moved {
    if q < |item.docs| then Moved(Item(item.docs, q + 1, item.docs[q])) else Exhausted
  }

  // ----- The heap -----

  function Parent(k: nat): (p: nat)
    requires k > 0
    ensures p < k && (k == 2 * p + 1 || k == 2 * p + 2)
  {
    (k - 1) / 2
  }

  // Entry k is no smaller than entry p.
  predicate InOrder(heap: seq<Item>, p: nat, k: nat)
    requires p < |heap| && k < |heap|
  {
    AsInt(heap[p].doc) <= AsInt(heap[k].doc)
  }

  ghost predicate Heap(heap: seq<Item>) {
    forall k: nat :: 0 < k < |heap| ==> InOrder(heap, Parent(k), k)
  }

  // A heap but for the entry at hole, which may be larger than its children.
  ghost predicate HeapBut(heap: seq<Item>, hole: nat) {
    && (forall k: nat :: 0 < k < |heap| && Parent(k) != hole ==> InOrder(heap, Parent(k), k))
    && (forall k: nat :: 0 < k < |heap| && Parent(k) == hole && hole > 0 ==> InOrder(heap, Parent(hole), k))
  }

  lemma {:induction false} RootIsLeast(heap: seq<Item>, k: nat)
    requires k < |heap| && Heap(heap)
    ensures InOrder(heap, 0, k)
  {
    if k > 0 {
      RootIsLeast(heap, Parent(k));
      assert InOrder(heap, Parent(k), k);
    }
  }

  // ----- Work left, for termination -----

  function WorkOf(item: Item): nat {
    if item.pos <= |item.docs| then |item.docs| - item.pos + 1 else 0
  }

  function Work(items: seq<Item>): nat {
    if items == [] then 0 else WorkOf(items[0]) + Work(items[1..])
  }

  lemma {:induction false} WorkUpdate(items: seq<Item>, i: nat, item: Item)
    requires i < |items|
    ensures Work(items[i := item]) + WorkOf(items[i]) == Work(items) + WorkOf(item)
  {
    if i > 0 {
      assert items[i := item][1..] == items[1..][i - 1 := item];
      WorkUpdate(items[1..], i - 1, item);
    }
  }

  lemma {:induction false} WorkLast(items: seq<Item>)
    requires items != []
    ensures Work(items) == Work(items[..|items| - 1]) + WorkOf(items[|items| - 1])
  {
    if |items| > 1 {
      assert items[1..][..|items| - 2] == items[..|items| - 1][1..];
      WorkLast(items[1..]);
    }
  }

  // Exchanging two entries.
  function Swapped(items: seq<Item>, i: nat, j: nat): (r: seq<Item>)
    requires i < |items| && j < |items|
    ensures |r| == |items|
  {
    items[i := items[j]][j := items[i]]
  }

  lemma WorkSwapped(items: seq<Item>, i: nat, j: nat)
    requires i < |items| && j < |items|
    ensures Work(Swapped(items, i, j)) == Work(items)
  {
    WorkUpdate(items, i, items[j]);
    WorkUpdate(items[i := items[j]], j, items[i]);
  }

  // Two heaps with the same live entries, in any order.
  ghost predicate SameItems(a: seq<Item>, b: seq<Item>) {
    && |a| == |b| && Work(a) == Work(b)
    && (forall item :: item in a <==> item in b)
  }

  lemma SwapSame(items: seq<Item>, i: nat, j: nat)
    requires i < |items| && j < |items|
    ensures SameItems(items, Swapped(items, i, j))
  {
    WorkSwapped(items, i, j);
    var r := Swapped(items, i, j);
    forall item ensures item in items <==> item in r {
      if item in items {
        var k :| 0 <= k < |items| && items[k] == item;
        assert r[if k == i then j else if k == j then i else k] == item;
      }
      if item in r {
        var k :| 0 <= k < |r| && r[k] == item;
        assert items[if k == i then j else if k == j then i else k] == item;
      }
    }
  }

  // Bubbling the entry at i down: the entry that rises, and the hole that moves.
  lemma SiftStep(heap: seq<Item>, i: nat, c: nat)
    requires 0 < c < |heap| && Parent(c) == i && HeapBut(heap, i) && InOrder(heap, c, i)
    requires forall k: nat :: 0 < k < |heap| && Parent(k) == i ==> InOrder(heap, c, k)
    ensures HeapBut(Swapped(heap, i, c), c) && SameItems(heap, Swapped(heap, i, c))
  {
    SwapSame(heap, i, c);
    var r := Swapped(heap, i, c);
    forall k: nat | 0 < k < |heap| && Parent(k) != c ensures InOrder(r, Parent(k), k) {
      if Parent(k) == i {
        assert InOrder(heap, c, k);
      } else if k == i {
        assert InOrder(heap, Parent(i), c);
      } else {
        assert InOrder(heap, Parent(k), k);
      }
    }
    forall k: nat | 0 < k < |heap| && Parent(k) == c ensures InOrder(r, Parent(c), k) {
      assert InOrder(heap, Parent(k), k);
    }
  }

  // With no child smaller than the entry at the hole, the heap is whole again.
  lemma Settled(heap: seq<Item>, i: nat)
    requires i < |heap| && HeapBut(heap, i)
    requires forall k: nat :: 0 < k < |heap| && Parent(k) == i ==> InOrder(heap, i, k)
    ensures Heap(heap)
  {
    forall k: nat | 0 < k < |heap| ensures InOrder(heap, Parent(k), k) {
    }
  }

  // heapAdjust on the live entries: only the first may be out of order. The loop
  // moves entries up into the hole at i; the first entry is put there at the end.
  method HeapAdjust(before: seq<Item>) returns (heap: seq<Item>)
    requires before != [] && HeapBut(before, 0)
    ensures |heap| == |before| && Heap(heap) && SameItems(before, heap)
  {
    hide Work, IsPosting, HeapBut, SameItems, Heap;
    heap := before;
    var size := |heap|;
    var top := heap[0];
    var doc := AsInt(top.doc);
    var i := 0;
    ghost var h := heap;
    SameAsItself(before);
    while true
      invariant i < size == |heap| && h == heap[i := top]
      invariant HeapBut(h, i) && SameItems(before, h)
      decreases size - i
    {
      var lchild := 2 * i + 1;
      if lchild >= size {
        break;
      }
      var left := heap[lchild];
      var ldoc := AsInt(left.doc);
      var rchild := lchild + 1;
      if rchild < size {
        var right := heap[rchild];
        var rdoc := AsInt(right.doc);
        if rdoc <= ldoc {
          if doc <= rdoc {
            break;
          }
          SiftStep(h, i, rchild);
          SameTwice(before, h, Swapped(h, i, rchild));
          h := Swapped(h, i, rchild);
          heap := heap[i := right];
          i := rchild;
          continue;
        }
      }
      if doc <= ldoc {
        break;
      }
      SiftStep(h, i, lchild);
      SameTwice(before, h, Swapped(h, i, lchild));
      h := Swapped(h, i, lchild);
      heap := heap[i := left];
      i := lchild;
    }
    Settled(h, i);
    heap := heap[i := top];
  }

  lemma SameAsItself(items: seq<Item>)
    ensures SameItems(items, items)
  {
  }

  lemma SameTwice(a: seq<Item>, b: seq<Item>, c: seq<Item>)
    requires SameItems(a, b) && SameItems(b, c)
    ensures SameItems(a, c)
  {
  }

  // ----- The union -----

  function UnionOf(lists: seq<Docs>): set<nat> {
    set i, k | 0 <= i < |lists| && 0 <= k < |lists[i]| :: lists[i][k]
  }

  ghost predicate Good(items: seq<Item>, docs: set<nat>) {
    forall item :: item in items ==> item.Valid() && forall k :: 0 <= k < |item.docs| ==> item.docs[k] in docs
  }

  ghost predicate Held(items: seq<Item>, d: nat) {
    exists item :: item in items && item.Has(d)
  }

  // Every doc of the union from `from` on is still to come out of some entry.
  ghost predicate Covers(items: seq<Item>, docs: set<nat>, from: nat) {
    forall d :: d in docs && from <= d ==> Held(items, d)
  }

  lemma SameKeeps(a: seq<Item>, b: seq<Item>, docs: set<nat>, from: nat)
    requires SameItems(a, b) && Good(a, docs) && Covers(a, docs, from)
    ensures Good(b, docs) && Covers(b, docs, from)
  {
    forall d | d in docs && from <= d ensures Held(b, d) {
      assert Held(a, d);
    }
  }

  // Moving the iterator at the root on: only docs before `from` are passed.
  lemma RootMoved(items: seq<Item>, docs: set<nat>, from: nat, q: nat)
    requires items != [] && Good(items, docs) && Covers(items, docs, from) && items[0].doc < from
    requires items[0].pos <= q < |items[0].docs| && forall k :: items[0].pos <= k < q ==> items[0].docs[k] < from
    ensures var item := MoveTo(items[0], q).item;
      && Good(items[0 := item], docs) && Covers(items[0 := item], docs, from) && item.doc <= MAX_DOC
      && Work(items[0 := item]) < Work(items)
  {
    var item := MoveTo(items[0], q).item;
    var r := items[0 := item];
    assert items[0] in items;
    forall d | d in docs && from <= d ensures Held(r, d) {
      assert Held(items, d);
      var holder :| holder in items && holder.Has(d);
      MoveHolder(items, item, q, holder, d, from);
    }
    assert r[1..] == items[1..];
  }

  lemma MoveHolder(items: seq<Item>, item: Item, q: nat, holder: Item, d: nat, from: nat)
    requires items != [] && items[0].Valid() && items[0].pos <= q < |items[0].docs| && item == MoveTo(items[0], q).item
    requires forall k :: items[0].pos <= k < q ==> items[0].docs[k] < from
    requires items[0].doc < from <= d && holder in items && holder.Has(d)
    ensures Held(items[0 := item], d)
  {
    var r := items[0 := item];
    assert r[0] == item;
    if holder == items[0] {
      var k :| 0 <= k < |holder.docs| && holder.pos <= k + 1 && holder.docs[k] == d;
      assert k >= q;
      assert item.Has(d);
    } else {
      var j :| 0 <= j < |items| && items[j] == holder;
      assert r[j] == holder;
    }
  }

  // The live entries without the first: the last one takes its place.
  function WithoutRoot(items: seq<Item>): (rest: seq<Item>)
    requires items != []
    ensures |rest| == |items| - 1
  {
    var n := |items| - 1;
    if n == 0 then [] else items[0 := items[n]][..n]
  }

  lemma WithoutRootHas(items: seq<Item>, item: Item)
    requires items != []
    ensures item in WithoutRoot(items) ==> item in items
    ensures item in items && item != items[0] ==> item in WithoutRoot(items)
  {
    var n, rest := |items| - 1, WithoutRoot(items);
    if item in rest {
      var j :| 0 <= j < |rest| && rest[j] == item;
      assert item == items[if j == 0 then n else j];
    }
    if item in items && item != items[0] {
      var j :| 0 <= j < |items| && items[j] == item;
      assert rest[if j == n then 0 else j] == item;
    }
  }

  // Dropping an iterator that has nothing from `from` on.
  lemma RootDropped(items: seq<Item>, docs: set<nat>, from: nat)
    requires items != [] && Good(items, docs) && Covers(items, docs, from) && items[0].doc < from
    requires forall k :: items[0].pos <= k < |items[0].docs| ==> items[0].docs[k] < from
    ensures Good(WithoutRoot(items), docs) && Covers(WithoutRoot(items), docs, from)
    ensures Work(WithoutRoot(items)) < Work(items)
  {
    assert items[0] in items;
    forall item ensures item in WithoutRoot(items) ==> item in items {
      WithoutRootHas(items, item);
    }
    hide WithoutRoot;
    forall d | d in docs && from <= d ensures Held(WithoutRoot(items), d) {
      assert Held(items, d);
      var holder :| holder in items && holder.Has(d);
      RootHasNot(items[0], d, from);
      WithoutRootHas(items, holder);
    }
    WithoutRootWork(items);
  }

  lemma RootHasNot(item: Item, d: nat, from: nat)
    requires item.Valid() && item.doc < from <= d
    requires forall k :: item.pos <= k < |item.docs| ==> item.docs[k] < from
    ensures !item.Has(d)
  {
  }

  lemma WithoutRootWork(items: seq<Item>)
    requires items != [] && items[0].Valid()
    ensures Work(WithoutRoot(items)) < Work(items)
  {
    var n := |items| - 1;
    if n > 0 {
      WorkSwapped(items, 0, n);
      WorkLast(Swapped(items, 0, n));
      assert Swapped(items, 0, n)[..n] == WithoutRoot(items);
    }
  }

  lemma RootAnswers(items: seq<Item>, docs: set<nat>, from: nat)
    requires items != [] && Good(items, docs) && Covers(items, docs, from) && Heap(items)
    requires 0 < from <= items[0].doc
    ensures items[0].doc <= MAX_DOC && IsLeastFrom(docs, from, items[0].doc)
  {
    assert items[0] in items;
    forall d | d in docs && from <= d ensures items[0].doc <= d {
      assert Held(items, d);
      var holder :| holder in items && holder.Has(d);
      var j :| 0 <= j < |items| && items[j] == holder;
      RootIsLeast(items, j);
    }
  }

  lemma HeapButRoot(items: seq<Item>, item: Item)
    requires items != [] && Heap(items)
    ensures HeapBut(items[0 := item], 0)
  {
    forall k: nat | 0 < k < |items| && Parent(k) != 0 ensures InOrder(items[0 := item], Parent(k), k) {
      assert InOrder(items, Parent(k), k);
    }
  }

  lemma HeapPrefix(items: seq<Item>, n: nat, item: Item)
    requires 0 < n <= |items| && Heap(items)
    ensures HeapBut(items[0 := item][..n], 0)
  {
    forall k: nat | 0 < k < n && Parent(k) != 0 ensures InOrder(items[0 := item][..n], Parent(k), k) {
      assert InOrder(items, Parent(k), k);
    }
  }

  function StartOf(docs: Docs): Item {
    Item(docs, 0, 0)
  }

  lemma StartCovers(lists: seq<Docs>)
    requires forall i :: 0 <= i < |lists| ==> IsPosting(lists[i])
    ensures var items := seq(|lists|, i requires 0 <= i < |lists| => StartOf(lists[i]));
      && Good(items, UnionOf(lists)) && Covers(items, UnionOf(lists), 1) && Heap(items)
    ensures forall d :: d in UnionOf(lists) ==> 0 < d <= MAX_DOC
  {
    var items := seq(|lists|, i requires 0 <= i < |lists| => StartOf(lists[i]));
    forall d | d in UnionOf(lists) ensures Held(items, d) && 0 < d <= MAX_DOC {
      var i, k :| 0 <= i < |lists| && 0 <= k < |lists[i]| && lists[i][k] == d;
      assert items[i] in items && items[i].Has(d);
    }
  }

  class LazyOrSetIterator {
    var curDoc: nat
    // The live iterators; the source keeps the finished ones behind them.
    var heap: seq<Item>
    ghost const docs: set<nat>

    ghost predicate Valid()
      reads this
    {
      && Good(heap, docs) && Heap(heap) && (forall d :: d in docs ==> 0 < d <= MAX_DOC)
      && if curDoc == NO_MORE_DOCS then true
         else curDoc <= MAX_DOC && heap != [] && heap[0].doc == curDoc && Covers(heap, docs, curDoc + 1)
    }

    constructor (lists: seq<Docs>)
      requires forall i :: 0 <= i < |lists| ==> IsPosting(lists[i])
      ensures Valid() && docs == UnionOf(lists)
      ensures curDoc == if lists == [] then NO_MORE_DOCS else 0
    {
      curDoc := if |lists| == 0 then NO_MORE_DOCS else 0;
      heap := seq(|lists|, i requires 0 <= i < |lists| => StartOf(lists[i]));
      docs := UnionOf(lists);
      StartCovers(lists);
    }

    method HeapRemoveRoot()
      requires heap != [] && Heap(heap)
      modifies `heap
      ensures Heap(heap)
      ensures SameItems(WithoutRoot(old(heap)), heap)
    {
      var size := |heap| - 1;
      if size > 0 {
        HeapPrefix(heap, size, heap[size]);
        heap := HeapAdjust(heap[0 := heap[size]][..size]);
      } else {
        heap := [];
      }
    }

    // One turn of the loop of nextDoc and Advance: the iterator at the root has been
    // moved to position q of its list.
    method Replace(from: nat, q: nat)
      requires heap != [] && Good(heap, docs) && Heap(heap) && Covers(heap, docs, from) && heap[0].doc < from
      requires heap[0].pos <= q <= |heap[0].docs| && forall k :: heap[0].pos <= k < q ==> heap[0].docs[k] < from
      modifies `heap
      ensures Good(heap, docs) && Heap(heap) && Covers(heap, docs, from) && Work(heap) < Work(old(heap))
    {
      hide Good, Heap, Covers, Work;
      match MoveTo(heap[0], q) {
        case Moved(item) =>
          RootMoved(heap, docs, from, q);
          HeapButRoot(heap, item);
          ghost var moved := heap[0 := item];
          heap := HeapAdjust(heap[0 := item]);
          SameKeeps(moved, heap, docs, from);
        case Exhausted =>
          RootDropped(heap, docs, from);
          ghost var rest := WithoutRoot(heap);
          HeapRemoveRoot();
          SameKeeps(rest, heap, docs, from);
      }
    }

    method NextDoc() returns (r: nat)
      requires Valid()
      modifies `heap, `curDoc
      ensures Valid() && r == curDoc && IsLeastFrom(docs, old(curDoc) + 1, r)
    {
      if curDoc == NO_MORE_DOCS {
        return NO_MORE_DOCS;
      }
      while true
        invariant heap != [] && Good(heap, docs) && Heap(heap) && Covers(heap, docs, curDoc + 1)
        invariant heap[0].doc <= curDoc == old(curDoc)
        decreases Work(heap)
      {
        assert heap[0] in heap;
        Replace(curDoc + 1, heap[0].pos);
        if |heap| == 0 {
          curDoc := NO_MORE_DOCS;
          return NO_MORE_DOCS;
        }
        var topDoc := heap[0].doc;
        if topDoc > curDoc {
          RootAnswers(heap, docs, curDoc + 1);
          curDoc := topDoc;
          return topDoc;
        }
      }
    }

    method Advance(to: nat) returns (r: nat)
      requires Valid() && to <= NO_MORE_DOCS
      modifies `heap, `curDoc
      ensures Valid() && r == curDoc && IsLeastFrom(docs, if to <= old(curDoc) then old(curDoc) + 1 else to, r)
    {
      if curDoc == NO_MORE_DOCS {
        return NO_MORE_DOCS;
      }
      var target := to;
      if target <= curDoc {
        target := curDoc + 1;
      }
      while true
        invariant heap != [] && Good(heap, docs) && Heap(heap) && Covers(heap, docs, target) && heap[0].doc < target
        invariant curDoc == old(curDoc)
        decreases Work(heap)
      {
        assert heap[0] in heap;
        Replace(target, FirstFrom(heap[0].docs, heap[0].pos, target));
        if |heap| == 0 {
          curDoc := NO_MORE_DOCS;
          return NO_MORE_DOCS;
        }
        var topDoc := heap[0].doc;
        if topDoc >= target {
          RootAnswers(heap, docs, target);
          curDoc := topDoc;
          return topDoc;
        }
      }
    }
  }
}
