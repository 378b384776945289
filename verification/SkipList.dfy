// SkipList: one inserter that links its node level by level, and readers that
// search without locks (leveldb/db/skiplist.h). Nodes are numbered; node 0 is
// the head. A key stands for an encoded memtable entry, ordered by its rank.
module SkipLists {
  import opened Wrappers
  import opened InternalKeys

  const K_MAX_HEIGHT := 12

  // Unset is the content of a link slot of a new node before it is written.
  datatype Link = Unset | Null | To(node: nat)

  datatype Node = Node(key: int, next: seq<Link>)

  datatype List = List(nodes: seq<Node>, maxHeight: nat)

  // The node being inserted and how many of its levels are linked; node 0 for none.
  datatype Pending = Pending(node: nat, level: nat)

  const NONE := Pending(0, 0)

  function NewList(): List {
    List([Node(0, seq(K_MAX_HEIGHT, i => Null))], 1)
  }

  predicate HasLink(l: List, n: nat, i: nat) {
    n < |l.nodes| && i < |l.nodes[n].next|
  }

  function Next(l: List, n: nat, i: nat): Link
    requires HasLink(l, n, i)
  {
    l.nodes[n].next[i]
  }

  function SetNext(l: List, n: nat, i: nat, link: Link): List
    requires HasLink(l, n, i)
  {
    l.(nodes := l.nodes[n := l.nodes[n].(next := l.nodes[n].next[i := link])])
  }

  // ----- What is linked where -----

  // n is linked into the level-i list.
  predicate On(l: List, p: Pending, i: nat, n: nat) {
    0 < n && HasLink(l, n, i) && (n == p.node ==> i < p.level)
  }

  predicate HeadOrOn(l: List, p: Pending, i: nat, n: nat) {
    (n == 0 && HasLink(l, 0, i)) || On(l, p, i, n)
  }

  // The head sorts before every key; None is beyond every key.
  predicate Before(l: List, n: nat, bound: Option<int>)
    requires n < |l.nodes|
  {
    n == 0 || bound.None? || l.nodes[n].key < bound.value
  }

  // link leads from n to its successor among the nodes of level i.
  ghost predicate IsNext(l: List, p: Pending, i: nat, n: nat, link: Link)
    requires n < |l.nodes|
  {
    match link
    case Unset => false
    case Null => forall q: nat :: On(l, p, i, q) ==> !Before(l, n, Some(l.nodes[q].key))
    case To(m) =>
      && On(l, p, i, m) && Before(l, n, Some(l.nodes[m].key))
      && forall q: nat :: On(l, p, i, q) && Before(l, n, Some(l.nodes[q].key)) ==> l.nodes[m].key <= l.nodes[q].key
  }

  ghost predicate Shape(l: List, p: Pending) {
    && 0 < |l.nodes| && |l.nodes[0].next| == K_MAX_HEIGHT && 1 <= l.maxHeight <= K_MAX_HEIGHT
    && (forall n :: 0 < n < |l.nodes| ==> 1 <= |l.nodes[n].next| <= l.maxHeight)
    && (forall m, n :: 0 < m < n < |l.nodes| ==> l.nodes[m].key != l.nodes[n].key)
    && (p.node != 0 ==> p.node == |l.nodes| - 1 && p.level <= |l.nodes[p.node].next|)
  }

  // Every list of the tower runs through exactly the nodes linked at its level,
  // in key order, and no reachable link is unset.
  ghost predicate Inv(l: List, p: Pending) {
    && Shape(l, p)
    && forall i, n :: HeadOrOn(l, p, i, n) ==> IsNext(l, p, i, n, Next(l, n, i))
  }

  // The keys a reader can reach: those of the level-0 list.
  function Keys(l: List, p: Pending): set<int> {
    set n | 0 <= n < |l.nodes| && On(l, p, 0, n) :: l.nodes[n].key
  }

  lemma NewListInv()
    ensures Inv(NewList(), NONE) && Keys(NewList(), NONE) == {}
  {
  }

  // Upper levels hold only nodes of the lower ones.
  lemma OnBelow(l: List, p: Pending, i: nat, j: nat, n: nat)
    requires j <= i && HeadOrOn(l, p, i, n)
    ensures HeadOrOn(l, p, j, n)
  {
  }

  // ----- Searching -----

  // A search stands at x on a level: x is linked there and lies before the bound.
  predicate At(l: List, p: Pending, bound: Option<int>, x: nat, level: nat) {
    level < K_MAX_HEIGHT && HeadOrOn(l, p, level, x) && Before(l, x, bound)
  }

  // KeyIsAfterNode, and the same test of FindLessThan and FindLast.
  predicate GoesOn(l: List, bound: Option<int>, next: Link)
    requires next.To? ==> next.node < |l.nodes|
  {
    next.To? && (bound.None? || l.nodes[next.node].key < bound.value)
  }

  // n is the last node of level i before the bound.
  ghost predicate IsPrev(l: List, p: Pending, bound: Option<int>, i: nat, n: nat) {
    && i < K_MAX_HEIGHT && HeadOrOn(l, p, i, n) && Before(l, n, bound)
    && forall q: nat :: On(l, p, i, q) && Before(l, q, bound) ==> !Before(l, n, Some(l.nodes[q].key))
  }

  lemma StopsAtPrev(l: List, p: Pending, bound: Option<int>, x: nat, level: nat)
    requires Inv(l, p) && At(l, p, bound, x, level)
    ensures Next(l, x, level).To? ==> Next(l, x, level).node < |l.nodes|
    ensures Next(l, x, level) != Unset
    ensures !GoesOn(l, bound, Next(l, x, level)) ==> IsPrev(l, p, bound, level, x)
    ensures GoesOn(l, bound, Next(l, x, level)) ==>
      && At(l, p, bound, Next(l, x, level).node, level) && Next(l, x, level).node != 0
      && Before(l, x, Some(l.nodes[Next(l, x, level).node].key))
  {
    assert IsNext(l, p, level, x, Next(l, x, level));
  }

  ghost predicate IsLeastFrom(keys: set<int>, target: int, r: Option<int>) {
    match r
    case None => forall k :: k in keys ==> k < target
    case Some(k) => k in keys && target <= k && forall j :: j in keys && target <= j ==> k <= j
  }

  ghost predicate IsGreatestBefore(keys: set<int>, bound: Option<int>, r: Option<int>) {
    match r
    case None => forall k :: k in keys ==> bound.Some? && bound.value <= k
    case Some(k) =>
      && k in keys && (bound.None? || k < bound.value)
      && forall j :: j in keys && (bound.None? || j < bound.value) ==> j <= k
  }

  function KeyAt(l: List, link: Link): Option<int>
    requires link.To? ==> link.node < |l.nodes|
  {
    if link.To? then Some(l.nodes[link.node].key) else None
  }

  // The iterators turn the head into "not valid".
  function KeyOf(l: List, n: nat): Option<int>
    requires n < |l.nodes|
  {
    if n == 0 then None else Some(l.nodes[n].key)
  }

  lemma KeyInKeys(l: List, p: Pending, n: nat)
    requires On(l, p, 0, n)
    ensures l.nodes[n].key in Keys(l, p)
  {
  }

  // A search that stops on level 0 has its answer in the list of that moment.
  lemma StopsAtAnswer(l: List, p: Pending, bound: Option<int>, x: nat)
    requires Inv(l, p) && At(l, p, bound, x, 0) && !GoesOn(l, bound, Next(l, x, 0))
    ensures IsGreatestBefore(Keys(l, p), bound, KeyOf(l, x))
    ensures bound.Some? ==> IsLeastFrom(Keys(l, p), bound.value, KeyAt(l, Next(l, x, 0)))
  {
    StopsAtPrev(l, p, bound, x, 0);
    var next := Next(l, x, 0);
    assert IsNext(l, p, 0, x, next);
    if x != 0 {
      KeyInKeys(l, p, x);
    }
    if next.To? {
      KeyInKeys(l, p, next.node);
    }
  }

  // ----- Inserting -----

  function Allocate(l: List, key: int, height: nat): List {
    l.(nodes := l.nodes + [Node(key, seq(height, i => Unset))])
  }

  lemma RaiseKeeps(l: List, height: nat)
    requires Inv(l, NONE) && l.maxHeight <= height <= K_MAX_HEIGHT
    ensures Inv(l.(maxHeight := height), NONE) && Keys(l.(maxHeight := height), NONE) == Keys(l, NONE)
    ensures forall i, n :: On(l.(maxHeight := height), NONE, i, n) <==> On(l, NONE, i, n)
  {
    var m := l.(maxHeight := height);
    forall i, n | HeadOrOn(m, NONE, i, n) ensures IsNext(m, NONE, i, n, Next(m, n, i)) {
      assert HeadOrOn(l, NONE, i, n);
      assert IsNext(l, NONE, i, n, Next(l, n, i));
      assert forall q: nat :: On(m, NONE, i, q) ==> On(l, NONE, i, q);
    }
  }

  lemma AllocateKeeps(l: List, key: int, height: nat)
    requires Inv(l, NONE) && 1 <= height <= l.maxHeight && key !in Keys(l, NONE)
    ensures Inv(Allocate(l, key, height), Pending(|l.nodes|, 0))
    ensures Keys(Allocate(l, key, height), Pending(|l.nodes|, 0)) == Keys(l, NONE)
    ensures forall i, n :: On(Allocate(l, key, height), Pending(|l.nodes|, 0), i, n) <==> On(l, NONE, i, n)
  {
    var m, p := Allocate(l, key, height), Pending(|l.nodes|, 0);
    assert forall n :: 0 <= n < |l.nodes| ==> m.nodes[n] == l.nodes[n];
    assert forall i, n :: On(m, p, i, n) <==> On(l, NONE, i, n);
    forall n | 0 < n < |l.nodes| ensures l.nodes[n].key != key {
      assert On(l, NONE, 0, n);
    }
    forall i, n | HeadOrOn(m, p, i, n) ensures IsNext(m, p, i, n, Next(m, n, i)) {
      assert HeadOrOn(l, NONE, i, n);
      assert IsNext(l, NONE, i, n, Next(l, n, i));
    }
    assert Keys(m, p) == Keys(l, NONE);
  }

  // Writing a slot of the new node that no list runs through changes nothing.
  lemma CopyKeeps(l: List, p: Pending, link: Link)
    requires Inv(l, p) && p.node != 0 && p.level < |l.nodes[p.node].next|
    ensures Inv(SetNext(l, p.node, p.level, link), p)
    ensures Keys(SetNext(l, p.node, p.level, link), p) == Keys(l, p)
    ensures forall i, n :: On(SetNext(l, p.node, p.level, link), p, i, n) <==> On(l, p, i, n)
  {
    var m := SetNext(l, p.node, p.level, link);
    assert forall n :: 0 <= n < |l.nodes| ==> m.nodes[n].key == l.nodes[n].key && |m.nodes[n].next| == |l.nodes[n].next|;
    assert forall i, n :: On(m, p, i, n) <==> On(l, p, i, n);
    forall i, n | HeadOrOn(m, p, i, n) ensures IsNext(m, p, i, n, Next(m, n, i)) {
      assert HeadOrOn(l, p, i, n);
      assert IsNext(l, p, i, n, Next(l, n, i));
      assert Next(m, n, i) == Next(l, n, i);
    }
    assert Keys(m, p) == Keys(l, p);
  }

  // The one store that makes the new node reachable on a level.
  lemma PublishKeeps(l: List, p: Pending, prev: nat)
    requires Inv(l, p) && p.node != 0 && p.level < |l.nodes[p.node].next|
    requires IsPrev(l, p, Some(l.nodes[p.node].key), p.level, prev)
    requires Next(l, p.node, p.level) == Next(l, prev, p.level)
    ensures Inv(SetNext(l, prev, p.level, To(p.node)), Pending(p.node, p.level + 1))
    ensures forall i, n :: On(SetNext(l, prev, p.level, To(p.node)), Pending(p.node, p.level + 1), i, n) <==>
                             On(l, p, i, n) || (i == p.level && n == p.node)
    ensures Keys(SetNext(l, prev, p.level, To(p.node)), Pending(p.node, p.level + 1)) ==
            Keys(l, p) + if p.level == 0 then {l.nodes[p.node].key} else {}
  {
    var m, q := SetNext(l, prev, p.level, To(p.node)), Pending(p.node, p.level + 1);
    assert forall n :: 0 <= n < |l.nodes| ==> m.nodes[n].key == l.nodes[n].key && |m.nodes[n].next| == |l.nodes[n].next|;
    assert forall i, n :: On(m, q, i, n) <==> On(l, p, i, n) || (i == p.level && n == p.node);
    forall i, n | HeadOrOn(m, q, i, n) ensures IsNext(m, q, i, n, Next(m, n, i)) {
      PublishedNext(l, p, prev, i, n);
    }
    PublishedKeys(l, p, prev);
  }

  lemma PublishedNext(l: List, p: Pending, prev: nat, i: nat, n: nat)
    requires Inv(l, p) && p.node != 0 && p.level < |l.nodes[p.node].next|
    requires IsPrev(l, p, Some(l.nodes[p.node].key), p.level, prev)
    requires Next(l, p.node, p.level) == Next(l, prev, p.level)
    requires HeadOrOn(SetNext(l, prev, p.level, To(p.node)), Pending(p.node, p.level + 1), i, n)
    ensures IsNext(SetNext(l, prev, p.level, To(p.node)), Pending(p.node, p.level + 1), i, n,
                   Next(SetNext(l, prev, p.level, To(p.node)), n, i))
  {
    hide IsNext, Shape;
    var m, q := SetNext(l, prev, p.level, To(p.node)), Pending(p.node, p.level + 1);
    assert forall n :: 0 <= n < |l.nodes| ==> |m.nodes[n].next| == |l.nodes[n].next|;
    assert On(m, q, i, n) ==> On(l, p, i, n) || (i == p.level && n == p.node);
    if i != p.level {
      ApartNext(l, p, prev, i, n);
    } else if n == p.node {
      NewNext(l, p, prev);
    } else if n == prev {
      PrevNext(l, p, prev);
    } else {
      OtherNext(l, p, prev, n);
    }
  }

  lemma ApartNext(l: List, p: Pending, prev: nat, i: nat, n: nat)
    requires Inv(l, p) && p.node != 0 && p.level < |l.nodes[p.node].next| && HasLink(l, prev, p.level)
    requires HeadOrOn(l, p, i, n) && i != p.level
    ensures IsNext(SetNext(l, prev, p.level, To(p.node)), Pending(p.node, p.level + 1), i, n,
                   Next(SetNext(l, prev, p.level, To(p.node)), n, i))
  {
    var m, q := SetNext(l, prev, p.level, To(p.node)), Pending(p.node, p.level + 1);
    assert forall n :: 0 <= n < |l.nodes| ==> m.nodes[n].key == l.nodes[n].key && |m.nodes[n].next| == |l.nodes[n].next|;
    assert forall k :: On(m, q, i, k) <==> On(l, p, i, k);
    assert Next(m, n, i) == Next(l, n, i);
    assert IsNext(l, p, i, n, Next(l, n, i));
  }

  lemma PrevNext(l: List, p: Pending, prev: nat)
    requires Inv(l, p) && p.node != 0 && p.level < |l.nodes[p.node].next|
    requires IsPrev(l, p, Some(l.nodes[p.node].key), p.level, prev)
    ensures IsNext(SetNext(l, prev, p.level, To(p.node)), Pending(p.node, p.level + 1), p.level, prev, To(p.node))
  {
    var m, q, i := SetNext(l, prev, p.level, To(p.node)), Pending(p.node, p.level + 1), p.level;
    assert forall n :: 0 <= n < |l.nodes| ==> m.nodes[n].key == l.nodes[n].key && |m.nodes[n].next| == |l.nodes[n].next|;
    assert forall k :: On(m, q, i, k) <==> On(l, p, i, k) || k == p.node;
  }

  // The new node takes over the successor of prev.
  lemma NewNext(l: List, p: Pending, prev: nat)
    requires Inv(l, p) && p.node != 0 && p.level < |l.nodes[p.node].next|
    requires IsPrev(l, p, Some(l.nodes[p.node].key), p.level, prev)
    requires Next(l, p.node, p.level) == Next(l, prev, p.level)
    ensures IsNext(SetNext(l, prev, p.level, To(p.node)), Pending(p.node, p.level + 1), p.level, p.node, Next(l, prev, p.level))
  {
    var m, q, i := SetNext(l, prev, p.level, To(p.node)), Pending(p.node, p.level + 1), p.level;
    assert forall n :: 0 <= n < |l.nodes| ==> m.nodes[n].key == l.nodes[n].key && |m.nodes[n].next| == |l.nodes[n].next|;
    assert forall k :: On(m, q, i, k) <==> On(l, p, i, k) || k == p.node;
    assert IsNext(l, p, i, prev, Next(l, prev, i));
  }

  // The successor of any other node of the level stays: the new key lies beyond it.
  lemma OtherNext(l: List, p: Pending, prev: nat, n: nat)
    requires Inv(l, p) && p.node != 0 && p.level < |l.nodes[p.node].next|
    requires IsPrev(l, p, Some(l.nodes[p.node].key), p.level, prev)
    requires HeadOrOn(l, p, p.level, n) && n != prev && n != p.node
    ensures IsNext(SetNext(l, prev, p.level, To(p.node)), Pending(p.node, p.level + 1), p.level, n,
                   Next(SetNext(l, prev, p.level, To(p.node)), n, p.level))
  {
    var m, q, i := SetNext(l, prev, p.level, To(p.node)), Pending(p.node, p.level + 1), p.level;
    assert forall n :: 0 <= n < |l.nodes| ==> m.nodes[n].key == l.nodes[n].key && |m.nodes[n].next| == |l.nodes[n].next|;
    assert forall k :: On(m, q, i, k) <==> On(l, p, i, k) || k == p.node;
    assert Next(m, n, i) == Next(l, n, i);
    assert IsNext(l, p, i, n, Next(l, n, i));
    if Before(l, n, Some(l.nodes[p.node].key)) {
      // prev itself comes after n and before the new node.
      assert prev != 0 && On(l, p, i, prev) && Before(l, n, Some(l.nodes[prev].key));
    }
  }

  lemma PublishedKeys(l: List, p: Pending, prev: nat)
    requires Shape(l, p) && p.node != 0 && p.level < |l.nodes[p.node].next| && HasLink(l, prev, p.level)
    ensures Keys(SetNext(l, prev, p.level, To(p.node)), Pending(p.node, p.level + 1)) ==
            Keys(l, p) + if p.level == 0 then {l.nodes[p.node].key} else {}
  {
    var m, q := SetNext(l, prev, p.level, To(p.node)), Pending(p.node, p.level + 1);
    assert forall n :: 0 <= n < |l.nodes| ==> m.nodes[n].key == l.nodes[n].key && |m.nodes[n].next| == |l.nodes[n].next|;
    forall k ensures k in Keys(m, q) <==> k in Keys(l, p) || (p.level == 0 && k == l.nodes[p.node].key) {
      if k in Keys(l, p) {
        var n :| 0 <= n < |l.nodes| && On(l, p, 0, n) && l.nodes[n].key == k;
        KeyInKeys(m, q, n);
      }
      if p.level == 0 {
        KeyInKeys(m, q, p.node);
      }
      if k in Keys(m, q) {
        var n :| 0 <= n < |m.nodes| && On(m, q, 0, n) && m.nodes[n].key == k;
        if n != p.node || p.level != 0 {
          KeyInKeys(l, p, n);
        }
      }
    }
  }

  // With all its levels linked the node is like any other.
  lemma FinishKeeps(l: List, p: Pending)
    requires Inv(l, p) && p.node != 0 && p.level == |l.nodes[p.node].next|
    ensures Inv(l, NONE) && Keys(l, NONE) == Keys(l, p)
    ensures forall i, n :: On(l, NONE, i, n) <==> On(l, p, i, n)
  {
    assert forall i, n :: On(l, NONE, i, n) <==> On(l, p, i, n);
    forall i, n | HeadOrOn(l, NONE, i, n) ensures IsNext(l, NONE, i, n, Next(l, n, i)) {
      assert HeadOrOn(l, p, i, n);
      assert IsNext(l, p, i, n, Next(l, n, i));
    }
  }

  // ----- The list between inserts: searches and Insert run alone -----

  // Nodes of the level-0 list beyond x, which a search has yet to pass.
  ghost function Remaining(l: List, x: nat): set<nat>
    requires x < |l.nodes|
  {
    set n | 0 < n < |l.nodes| && Before(l, x, Some(l.nodes[n].key))
  }

  lemma PassingShrinks(l: List, x: nat, y: nat)
    requires 0 < y < |l.nodes| && x < |l.nodes| && Before(l, x, Some(l.nodes[y].key))
    ensures Remaining(l, y) < Remaining(l, x)
  {
    assert y in Remaining(l, x) && y !in Remaining(l, y);
  }

  class SkipList {
    var list: List

    ghost predicate Valid()
      reads this
    {
      Inv(list, NONE)
    }

    ghost function Contents(): set<int>
      reads this
    {
      Keys(list, NONE)
    }

    constructor ()
      ensures Valid() && Contents() == {}
    {
      list := NewList();
    }

    // The node at or after the key, and the last node before it on every level in use.
    method FindGreaterOrEqual(key: int) returns (next: Link, prev: seq<nat>)
      requires Valid()
      ensures next.To? ==> next.node < |list.nodes|
      ensures IsLeastFrom(Contents(), key, KeyAt(list, next))
      ensures |prev| == K_MAX_HEIGHT && forall i :: 0 <= i < list.maxHeight ==> IsPrev(list, NONE, Some(key), i, prev[i])
    {
      hide Inv, IsPrev, IsLeastFrom, IsNext, Keys, IsGreatestBefore;
      assert Shape(list, NONE) by { HasShape(list, NONE); }
      var x, level: nat := 0, list.maxHeight - 1;
      prev := seq(K_MAX_HEIGHT, i => 0);
      while true
        invariant level < list.maxHeight <= K_MAX_HEIGHT && At(list, NONE, Some(key), x, level) && |prev| == K_MAX_HEIGHT
        invariant forall i :: level < i < list.maxHeight ==> IsPrev(list, NONE, Some(key), i, prev[i])
        decreases level, Remaining(list, x)
      {
        StopsAtPrev(list, NONE, Some(key), x, level);
        next := Next(list, x, level);
        if GoesOn(list, Some(key), next) {
          PassingShrinks(list, x, next.node);
          x := next.node;
        } else {
          prev := prev[level := x];
          if level == 0 {
            StopsAtAnswer(list, NONE, Some(key), x);
            return;
          }
          OnBelow(list, NONE, level, level - 1, x);
          level := level - 1;
        }
      }
    }

    // The last node before the bound; FindLast is the search without one.
    method FindLessThan(bound: Option<int>) returns (x: nat)
      requires Valid()
      ensures HeadOrOn(list, NONE, 0, x) && IsGreatestBefore(Contents(), bound, KeyOf(list, x))
    {
      hide Inv, IsPrev, IsLeastFrom, IsNext, Keys, IsGreatestBefore;
      assert Shape(list, NONE) by { HasShape(list, NONE); }
      var level: nat := list.maxHeight - 1;
      x := 0;
      while true
        invariant level < K_MAX_HEIGHT && At(list, NONE, bound, x, level)
        decreases level, Remaining(list, x)
      {
        StopsAtPrev(list, NONE, bound, x, level);
        var next := Next(list, x, level);
        if !GoesOn(list, bound, next) {
          if level == 0 {
            StopsAtAnswer(list, NONE, bound, x);
            return;
          }
          OnBelow(list, NONE, level, level - 1, x);
          level := level - 1;
        } else {
          PassingShrinks(list, x, next.node);
          x := next.node;
        }
      }
    }

    method Contains(key: int) returns (found: bool)
      requires Valid()
      ensures found <==> key in Contents()
    {
      var x, prev := FindGreaterOrEqual(key);
      found := x.To? && list.nodes[x.node].key == key;
    }

    // height is what RandomHeight draws.
    method Insert(key: int, height: nat)
      requires Valid() && key !in Contents() && 1 <= height <= K_MAX_HEIGHT
      modifies this
      ensures Valid() && Contents() == old(Contents()) + {key}
    {
      hide Inv, IsPrev, IsLeastFrom, IsNext, Keys, IsGreatestBefore;
      var x, prev := FindGreaterOrEqual(key);
      HasShape(list, NONE);
      if height > list.maxHeight {
        var i := list.maxHeight;
        while i < height
          invariant list == old(list) && list.maxHeight <= i <= height && |prev| == K_MAX_HEIGHT
          invariant forall j :: 0 <= j < i ==> IsPrev(list, NONE, Some(key), j, prev[j])
        {
          prev := prev[i := 0];
          HeadIsPrev(list, NONE, Some(key), i);
          i := i + 1;
        }
        RaiseKeeps(list, height);
        PrevsStay(list, list.(maxHeight := height), NONE, NONE, key, prev, 0, height);
        list := list.(maxHeight := height);
      }
      ghost var p := Pending(|list.nodes|, 0);
      AllocateKeeps(list, key, height);
      PrevsStay(list, Allocate(list, key, height), NONE, p, key, prev, 0, height);
      x, list := To(|list.nodes|), Allocate(list, key, height);
      var i := 0;
      while i < height
        invariant i <= height && p == Pending(x.node, i) && x.node != 0 && Inv(list, p) && |prev| == K_MAX_HEIGHT
        invariant x.node < |list.nodes| && list.nodes[x.node].key == key && |list.nodes[x.node].next| == height
        invariant forall j :: i <= j < height ==> IsPrev(list, p, Some(key), j, prev[j])
        invariant Keys(list, p) == old(Contents()) + if i == 0 then {} else {key}
      {
        HasShape(list, p);
        PrevIsLinked(list, p, Some(key), i, prev[i]);
        CopyKeeps(list, p, Next(list, prev[i], i));
        PrevsStay(list, SetNext(list, x.node, i, Next(list, prev[i], i)), p, p, key, prev, i, height);
        list := SetNext(list, x.node, i, Next(list, prev[i], i));
        assert Next(list, x.node, i) == Next(list, prev[i], i);
        PublishKeeps(list, p, prev[i]);
        ghost var q := Pending(x.node, i + 1);
        PrevsStay(list, SetNext(list, prev[i], i, x), p, q, key, prev, i + 1, height);
        list := SetNext(list, prev[i], i, x);
        p := q;
        i := i + 1;
      }
      FinishKeeps(list, p);
    }
  }

  lemma HasShape(l: List, p: Pending)
    requires Inv(l, p)
    ensures Shape(l, p)
  {
  }

  lemma PrevIsLinked(l: List, p: Pending, bound: Option<int>, i: nat, n: nat)
    requires Inv(l, p) && IsPrev(l, p, bound, i, n)
    ensures HasLink(l, n, i) && (p.node != 0 && p.level <= i ==> n != p.node)
  {
  }

  // Above the levels in use the head is the last node before any key.
  lemma HeadIsPrev(l: List, p: Pending, bound: Option<int>, i: nat)
    requires Shape(l, p) && l.maxHeight <= i < K_MAX_HEIGHT
    ensures IsPrev(l, p, bound, i, 0)
  {
  }

  // The nodes found before the key stay right for every level whose list stays.
  lemma {:induction false} PrevsStay(l: List, m: List, p: Pending, q: Pending, key: int, prev: seq<nat>, from: nat, to: nat)
    requires |l.nodes| <= |m.nodes| && to <= |prev|
    requires HasLink(l, 0, 0) && HasLink(m, 0, 0) && |m.nodes[0].next| == |l.nodes[0].next|
    requires forall n :: 0 <= n < |l.nodes| ==> m.nodes[n].key == l.nodes[n].key
    requires forall i, n :: from <= i < to ==> (On(m, q, i, n) <==> On(l, p, i, n))
    requires forall i :: from <= i < to ==> IsPrev(l, p, Some(key), i, prev[i])
    ensures forall i :: from <= i < to ==> IsPrev(m, q, Some(key), i, prev[i])
  {
  }
}
