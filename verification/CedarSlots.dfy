// The slots of the double array, the rings of each block's empty slots and the
// three lists of blocks (src/cedarpp.h). The class keeps the fields of da that say
// where a node can go; Cedar.dfy builds the trie in its slots.
module CedarSlots {

  import opened Sequences
  import opened Rings
  import opened CedarXors

  // A slot with a negative check is empty: its base and check are the negated
  // numbers of the empty slots before and behind it in its block's ring.
  datatype Node = Node(base: int, check: int)

  // The label of the next sibling and of the first child, 0 for none.
  datatype Ninfo = Ninfo(sibling: nat, child: nat)

  datatype Block = Block(prev: nat, next: nat, num: nat, trial: nat, ehead: nat)

  // Full: no empty slot. Closed: one, or given up on after too many trials.
  datatype Kind = Full | Closed | Open

  datatype Heads = Heads(full: nat, closed: nat, open: nat) {
    function Get(k: Kind): nat {
      match k case Full => full case Closed => closed case Open => open
    }
    function Put(k: Kind, h: nat): Heads {
      match k case Full => this.(full := h) case Closed => this.(closed := h) case Open => this.(open := h)
    }
  }

  datatype Lists = Lists(full: seq<nat>, closed: seq<nat>, open: seq<nat>) {
    function Get(k: Kind): seq<nat> {
      match k case Full => full case Closed => closed case Open => open
    }
    function Put(k: Kind, s: seq<nat>): Lists {
      match k case Full => this.(full := s) case Closed => this.(closed := s) case Open => this.(open := s)
    }
  }

  function Between(prev: int, next: int): Node {
    Node(-prev, -next)
  }

  const EMPTY := Node(-1, -1)

  // The array without the links of its empty slots.
  function Cleared(nodes: seq<Node>): (r: seq<Node>)
    ensures |r| == |nodes|
    ensures forall t: nat :: t < |nodes| ==> r[t] == if t != 0 && nodes[t].check < 0 then EMPTY else nodes[t]
  {
    seq(|nodes|, t requires 0 <= t < |nodes| => if t != 0 && nodes[t].check < 0 then EMPTY else nodes[t])
  }

  function SlotLinks(nodes: seq<Node>): (l: seq<Link>)
    ensures |l| == |nodes| && forall t: nat :: t < |nodes| ==> l[t] == Link(-nodes[t].base, -nodes[t].check)
  {
    seq(|nodes|, t requires 0 <= t < |nodes| => Link(-nodes[t].base, -nodes[t].check))
  }

  function BlockLinks(blocks: seq<Block>): (l: seq<Link>)
    ensures |l| == |blocks| && forall b: nat :: b < |blocks| ==> l[b] == Link(blocks[b].prev, blocks[b].next)
  {
    seq(|blocks|, b requires 0 <= b < |blocks| => Link(blocks[b].prev, blocks[b].next))
  }

  // ----- The rings of empty slots -----

  function BlockOf(e: nat): nat {
    e / BLOCK
  }

  ghost predicate RingOk(nodes: seq<Node>, r: seq<nat>, b: nat) {
    IsRing(SlotLinks(nodes), r) && forall i :: 0 <= i < |r| ==> r[i] != 0 && BlockOf(r[i]) == b
  }

  // Each block's ring is exactly its empty slots.
  ghost predicate RingsOk(nodes: seq<Node>, rings: seq<seq<nat>>) {
    && |nodes| == BLOCK * |rings| && rings != []
    && (forall b: nat :: b < |rings| ==> RingOk(nodes, rings[b], b))
    && (forall e: nat :: 0 < e < |nodes| ==> (nodes[e].check < 0 <==> e in rings[BlockOf(e)]))
  }

  // The root's slot counts as empty in block 0. An emptied ring has no head.
  ghost predicate CountOk(b: Block, ring: seq<nat>, first: bool) {
    && b.num == |ring| + (if first then 1 else 0)
    && (ring != [] ==> b.ehead == ring[0])
  }

  ghost predicate CountsOk(blocks: seq<Block>, rings: seq<seq<nat>>) {
    |blocks| == |rings| && forall b: nat :: b < |rings| ==> CountOk(blocks[b], rings[b], b == 0)
  }

  lemma InRange(e: nat, n: nat)
    requires e < BLOCK * n
    ensures BlockOf(e) < n
  {
  }

  // The place of an empty slot in its ring, and its neighbours.
  lemma EmptyAt(nodes: seq<Node>, rings: seq<seq<nat>>, e: nat) returns (k: nat)
    requires RingsOk(nodes, rings) && 0 < e < |nodes| && nodes[e].check < 0
    ensures BlockOf(e) < |rings| && k < |rings[BlockOf(e)]| && rings[BlockOf(e)][k] == e
    ensures var r, n := rings[BlockOf(e)], nodes[e];
      && 0 < -n.base < |nodes| && 0 < -n.check < |nodes|
      && -n.base in r && -n.check in r && -n.check == r[After(k, |r|)]
  {
    InRange(e, |rings|);
    assert RingOk(nodes, rings[BlockOf(e)], BlockOf(e));
    k :| 0 <= k < |rings[BlockOf(e)]| && rings[BlockOf(e)][k] == e;
    LinksOf(SlotLinks(nodes), rings[BlockOf(e)], k);
  }

  function UnlinkedNodes(nodes: seq<Node>, e: nat): (r: seq<Node>)
    requires e < |nodes| && 0 < -nodes[e].base < |nodes| && 0 < -nodes[e].check < |nodes|
    ensures |r| == |nodes|
  {
    var n := nodes[e];
    var m := nodes[-n.base := nodes[-n.base].(check := n.check)];
    m[-n.check := m[-n.check].(base := n.base)]
  }

  // An empty slot is taken out of its ring and used.
  lemma TakenRing(nodes: seq<Node>, rings: seq<seq<nat>>, e: nat, k: nat, node: Node)
    requires RingsOk(nodes, rings) && 0 < e < |nodes| && nodes[e].check < 0 && node.check >= 0
    requires BlockOf(e) < |rings| && k < |rings[BlockOf(e)]| && rings[BlockOf(e)][k] == e
    requires 0 < -nodes[e].base < |nodes| && 0 < -nodes[e].check < |nodes|
    ensures RingOk(UnlinkedNodes(nodes, e)[e := node], RemoveAt(rings[BlockOf(e)], k), BlockOf(e))
  {
    hide BlockOf, RemoveAt;
    var b, l := BlockOf(e), SlotLinks(nodes);
    var r := rings[b];
    assert RingOk(nodes, r, b);
    LinksOf(l, r, k);
    RemovedMembers(r, k);
    hide LinkedAt, NoRepeats;
    RingUnlinked(l, r, k);
    UnlinkedLinks(nodes, e);
    hide UnlinkedNodes, Unlinked;
    forall i | 0 <= i < |r| - 1 ensures RemoveAt(r, k)[i] != 0 && RemoveAt(r, k)[i] != e && BlockOf(RemoveAt(r, k)[i]) == b {
      assert RemoveAt(r, k)[i] in RemoveAt(r, k);
    }
    hide IsRing;
    RingStays(Unlinked(l, e), SlotLinks(UnlinkedNodes(nodes, e)[e := node]), RemoveAt(r, k));
  }

  lemma UnlinkedLinks(nodes: seq<Node>, e: nat)
    requires e < |nodes| && 0 < -nodes[e].base < |nodes| && 0 < -nodes[e].check < |nodes|
    ensures SlotLinks(UnlinkedNodes(nodes, e)) == Unlinked(SlotLinks(nodes), e)
  {
  }

  // The slots of one block change, the rings of the others do not.
  lemma OtherRing(nodes: seq<Node>, m: seq<Node>, r: seq<nat>, b: nat, c: nat)
    requires RingOk(nodes, r, b) && b != c && |m| == |nodes| && forall t: nat :: t < |m| && BlockOf(t) != c ==> m[t] == nodes[t]
    ensures RingOk(m, r, b)
  {
    RingStays(SlotLinks(nodes), SlotLinks(m), r);
  }

  lemma OneRing(nodes: seq<Node>, m: seq<Node>, rings: seq<seq<nat>>, c: nat, r: seq<nat>)
    requires RingsOk(nodes, rings) && c < |rings| && |m| == |nodes| && RingOk(m, r, c)
    requires forall t: nat :: t < |m| && BlockOf(t) != c ==> m[t] == nodes[t]
    requires forall t: nat :: 0 < t < |m| && BlockOf(t) == c ==> (m[t].check < 0 <==> t in r)
    ensures RingsOk(m, rings[c := r])
  {
    forall b: nat | b < |rings| ensures RingOk(m, if b == c then r else rings[b], b) {
      if b != c {
        assert RingOk(nodes, rings[b], b);
        OtherRing(nodes, m, rings[b], b, c);
      }
    }
    hide RingOk;
    forall e: nat | 0 < e < |m| ensures BlockOf(e) < |rings| && (m[e].check < 0 <==> e in rings[c := r][BlockOf(e)]) {
      InRange(e, |rings|);
    }
  }

  // The members of a ring are empty slots of its block.
  lemma RingMembers(nodes: seq<Node>, rings: seq<seq<nat>>, b: nat)
    requires RingsOk(nodes, rings) && b < |rings|
    ensures RingOk(nodes, rings[b], b)
    ensures forall t: nat :: t in rings[b] ==> 0 < t < |nodes| && BlockOf(t) == b && nodes[t].check < 0
  {
    hide BlockOf;
    assert RingOk(nodes, rings[b], b);
    forall t: nat | t in rings[b] ensures 0 < t < |nodes| && BlockOf(t) == b {
      var i :| 0 <= i < |rings[b]| && rings[b][i] == t;
      assert LinkedAt(SlotLinks(nodes), rings[b], i);
    }
  }

  lemma UnlinkedSlots(nodes: seq<Node>, e: nat, node: Node)
    requires 0 < e < |nodes| && 0 < -nodes[e].base < |nodes| && 0 < -nodes[e].check < |nodes| && node.check >= 0
    requires nodes[-nodes[e].base].check < 0 && nodes[-nodes[e].check].check < 0
    ensures var m := UnlinkedNodes(nodes, e)[e := node];
      && |m| == |nodes| && Cleared(m) == Cleared(nodes)[e := node] && m[e].check >= 0
      && (forall t: nat :: t < |m| && t != e && t != -nodes[e].base && t != -nodes[e].check ==> m[t] == nodes[t])
      && (forall t: nat :: t < |m| && t != e ==> (m[t].check < 0 <==> nodes[t].check < 0))
    ensures -nodes[e].base == e == -nodes[e].check ==> UnlinkedNodes(nodes, e) == nodes
  {
  }

  lemma Taken(nodes: seq<Node>, rings: seq<seq<nat>>, e: nat, k: nat, node: Node)
    requires RingsOk(nodes, rings) && 0 < e < |nodes| && nodes[e].check < 0 && node.check >= 0
    requires BlockOf(e) < |rings| && k < |rings[BlockOf(e)]| && rings[BlockOf(e)][k] == e
    requires 0 < -nodes[e].base < |nodes| && 0 < -nodes[e].check < |nodes|
    requires -nodes[e].base in rings[BlockOf(e)] && -nodes[e].check in rings[BlockOf(e)]
    ensures var m := UnlinkedNodes(nodes, e)[e := node];
      && RingsOk(m, rings[BlockOf(e) := RemoveAt(rings[BlockOf(e)], k)])
      && Cleared(m) == Cleared(nodes)[e := node]
      && (|rings[BlockOf(e)]| == 1 ==> UnlinkedNodes(nodes, e) == nodes)
  {
    hide BlockOf, IsRing, RemoveAt, UnlinkedNodes;
    var b, m := BlockOf(e), UnlinkedNodes(nodes, e)[e := node];
    TakenRing(nodes, rings, e, k, node);
    RingMembers(nodes, rings, b);
    hide RingOk;
    UnlinkedSlots(nodes, e, node);
    RingDistinct(nodes, rings, b);
    RemovedMembers(rings[b], k);
    OneRing(nodes, m, rings, b, RemoveAt(rings[b], k));
  }

  lemma RingDistinct(nodes: seq<Node>, rings: seq<seq<nat>>, b: nat)
    requires RingsOk(nodes, rings) && b < |rings|
    ensures NoRepeats(rings[b])
  {
    assert RingOk(nodes, rings[b], b);
  }

  // The slots after e has been put into the ring behind its head.
  function LinkedNodes(nodes: seq<Node>, e: nat, prev: nat, next: nat): seq<Node>
    requires e < |nodes| && prev < |nodes| && next < |nodes|
  {
    var m := nodes[e := Between(prev, next)];
    var o := m[prev := m[prev].(check := 0 - e)];
    o[next := o[next].(base := 0 - e)]
  }

  // The ring with e behind the head.
  function Behind(r: seq<nat>, e: nat): seq<nat> {
    if r == [] then [e] else [r[0], e] + r[1..]
  }

  lemma BehindMembers(r: seq<nat>, e: nat)
    ensures |Behind(r, e)| == |r| + 1 && forall t: nat :: t in Behind(r, e) <==> t in r || t == e
  {
    forall t: nat ensures t in Behind(r, e) <==> t in r || t == e {
      if t in r {
        var i :| 0 <= i < |r| && r[i] == t;
        assert Behind(r, e)[if i == 0 then 0 else i + 1] == t;
      }
      if r == [] {
        assert Behind(r, e)[0] == e;
      } else {
        assert Behind(r, e)[1] == e;
      }
    }
  }

  lemma LinkedLinks(nodes: seq<Node>, e: nat, prev: nat, next: nat)
    requires e < |nodes| && prev < |nodes| && next < |nodes|
    ensures SlotLinks(LinkedNodes(nodes, e, prev, next)) == Spliced(SlotLinks(nodes), e, prev, next)
  {
  }

  lemma BehindInBlock(r: seq<nat>, b: nat, e: nat)
    requires e != 0 && BlockOf(e) == b && forall i :: 0 <= i < |r| ==> r[i] != 0 && BlockOf(r[i]) == b
    ensures forall i :: 0 <= i < |Behind(r, e)| ==> Behind(r, e)[i] != 0 && BlockOf(Behind(r, e)[i]) == b
  {
    hide BlockOf;
  }

  lemma RingLinked(l: seq<Link>, r: seq<nat>, e: nat)
    requires IsRing(l, r) && r != [] && e !in r && e < |l|
    ensures r[0] < |l| && 0 <= l[r[0]].next < |l| && l[r[0]].next in r && IsRing(Spliced(l, e, r[0], l[r[0]].next), Behind(r, e))
  {
    LinksOf(l, r, 0);
    hide IsRing;
    RingFollowed(l, r, e);
  }

  lemma GivenRing(nodes: seq<Node>, r: seq<nat>, b: nat, e: nat)
    requires RingOk(nodes, r, b) && 0 < e < |nodes| && BlockOf(e) == b && e !in r && r != []
    ensures r[0] < |nodes| && 0 < -nodes[r[0]].check < |nodes| && -nodes[r[0]].check in r
    ensures RingOk(LinkedNodes(nodes, e, r[0], -nodes[r[0]].check), Behind(r, e), b)
  {
    hide IsRing, LinkedNodes, Spliced, Behind, BlockOf;
    var l := SlotLinks(nodes);
    RingLinked(l, r, e);
    LinkedLinks(nodes, e, r[0], l[r[0]].next);
    BehindInBlock(r, b, e);
  }

  lemma LoneRing(nodes: seq<Node>, b: nat, e: nat)
    requires 0 < e < |nodes| && BlockOf(e) == b
    ensures RingOk(nodes[e := Between(e, e)], [e], b)
  {
    assert LinkedAt(SlotLinks(nodes[e := Between(e, e)]), [e], 0);
  }

  // What linking e in does to the slots.
  lemma LinkedSlots(nodes: seq<Node>, e: nat, prev: nat, next: nat)
    requires 0 < e < |nodes| && 0 < prev < |nodes| && 0 < next < |nodes| && prev != e && next != e
    requires nodes[prev].check < 0 && nodes[next].check < 0
    ensures var m := LinkedNodes(nodes, e, prev, next);
      && |m| == |nodes| && Cleared(m) == Cleared(nodes)[e := EMPTY] && m[e].check < 0
      && (forall t: nat :: t < |m| && t != e && t != prev && t != next ==> m[t] == nodes[t])
      && (forall t: nat :: t < |m| && t != e ==> (m[t].check < 0 <==> nodes[t].check < 0))
  {
  }

  // A used slot is put back where the ring is empty, or else behind its head.
  lemma GivenFirst(nodes: seq<Node>, rings: seq<seq<nat>>, e: nat)
    requires RingsOk(nodes, rings) && 0 < e < |nodes| && nodes[e].check >= 0 && BlockOf(e) < |rings| && rings[BlockOf(e)] == []
    ensures var m := nodes[e := Between(e, e)];
      RingsOk(m, rings[BlockOf(e) := Behind(rings[BlockOf(e)], e)]) && Cleared(m) == Cleared(nodes)[e := EMPTY]
  {
    LoneRing(nodes, BlockOf(e), e);
    hide RingOk;
    OneRing(nodes, nodes[e := Between(e, e)], rings, BlockOf(e), [e]);
  }

  lemma GivenMore(nodes: seq<Node>, rings: seq<seq<nat>>, e: nat)
    requires RingsOk(nodes, rings) && 0 < e < |nodes| && nodes[e].check >= 0 && BlockOf(e) < |rings| && rings[BlockOf(e)] != []
    ensures var r := rings[BlockOf(e)];
      && 0 < r[0] < |nodes| && 0 < -nodes[r[0]].check < |nodes|
      && var m := LinkedNodes(nodes, e, r[0], -nodes[r[0]].check);
         RingsOk(m, rings[BlockOf(e) := Behind(r, e)]) && Cleared(m) == Cleared(nodes)[e := EMPTY]
  {
    hide BlockOf, RingOk, IsRing, LinkedNodes, Behind;
    var b, r := BlockOf(e), rings[BlockOf(e)];
    RingMembers(nodes, rings, b);
    assert r[0] in r;
    GivenRing(nodes, r, b, e);
    var next: nat := -nodes[r[0]].check;
    LinkedSlots(nodes, e, r[0], next);
    BehindMembers(r, e);
    OneRing(nodes, LinkedNodes(nodes, e, r[0], next), rings, b, Behind(r, e));
  }

  // A used slot changes.
  lemma Written(nodes: seq<Node>, rings: seq<seq<nat>>, t: nat, node: Node)
    requires RingsOk(nodes, rings) && 0 < t < |nodes| && nodes[t].check >= 0 && node.check >= 0
    ensures RingsOk(nodes[t := node], rings) && Cleared(nodes[t := node]) == Cleared(nodes)[t := node]
  {
    InRange(t, |rings|);
    var b := BlockOf(t);
    assert RingOk(nodes, rings[b], b);
    assert forall i :: 0 <= i < |rings[b]| ==> rings[b][i] in rings[b];
    RingStays(SlotLinks(nodes), SlotLinks(nodes[t := node]), rings[b]);
    assert RingOk(nodes[t := node], rings[b], b);
    hide RingOk;
    OneRing(nodes, nodes[t := node], rings, b, rings[b]);
    assert rings[b := rings[b]] == rings;
  }

  // ----- A new block -----

  function FreshNode(n: nat, i: nat): Node {
    Node(-(if i == 0 then n + BLOCK - 1 else n + i - 1), -(if i == BLOCK - 1 then n else n + i + 1))
  }

  function FreshNodes(n: nat): (r: seq<Node>)
    ensures |r| == BLOCK && forall i: nat :: i < BLOCK ==> r[i] == FreshNode(n, i)
  {
    seq(BLOCK, i requires 0 <= i < BLOCK => FreshNode(n, i))
  }

  function FreshRing(n: nat): (r: seq<nat>)
    ensures |r| == BLOCK && forall i: nat :: i < BLOCK ==> r[i] == n + i
  {
    seq(BLOCK, i requires 0 <= i < BLOCK => n + i)
  }

  lemma FreshRingOk(nodes: seq<Node>, b: nat)
    requires |nodes| == BLOCK * b && b > 0
    ensures RingOk(nodes + FreshNodes(|nodes|), FreshRing(|nodes|), b)
  {
    var m, r := nodes + FreshNodes(|nodes|), FreshRing(|nodes|);
    forall i | 0 <= i < |r| ensures LinkedAt(SlotLinks(m), r, i) {
      assert m[r[i]] == FreshNode(|nodes|, i);
    }
  }

  lemma GrownRings(nodes: seq<Node>, rings: seq<seq<nat>>)
    requires RingsOk(nodes, rings)
    ensures var m := nodes + FreshNodes(|nodes|);
      RingsOk(m, rings + [FreshRing(|nodes|)]) && Cleared(m) == Cleared(nodes) + seq(BLOCK, i => EMPTY)
  {
    var n, m, more := |nodes|, nodes + FreshNodes(|nodes|), rings + [FreshRing(|nodes|)];
    FreshRingOk(nodes, |rings|);
    forall b: nat | b < |more| ensures RingOk(m, more[b], b) {
      if b < |rings| {
        assert RingOk(nodes, rings[b], b);
        assert forall i :: 0 <= i < |rings[b]| ==> LinkedAt(SlotLinks(nodes), rings[b], i);
        RingStays(SlotLinks(nodes), SlotLinks(m), rings[b]);
      }
    }
    hide RingOk;
    forall e: nat | 0 < e < |m| ensures BlockOf(e) < |more| && (m[e].check < 0 <==> e in more[BlockOf(e)]) {
      InRange(e, |more|);
      if e < n {
        InRange(e, |rings|);
      } else {
        assert BlockOf(e) == |rings| && m[e] == FreshNode(n, e - n) && FreshRing(n)[e - n] == e;
      }
    }
  }

  // The first block: slot 0 is the root's.
  function FirstNode(i: nat): Node {
    if i == 0 then Node(0, -1)
    else Node(if i == 1 then -(BLOCK - 1) else -(i - 1), if i == BLOCK - 1 then -1 else -(i + 1))
  }

  function FirstRing(): (r: seq<nat>)
    ensures |r| == BLOCK - 1 && forall i: nat :: i < BLOCK - 1 ==> r[i] == i + 1
  {
    seq(BLOCK - 1, i requires 0 <= i < BLOCK - 1 => i + 1)
  }

  lemma FirstBlock(nodes: seq<Node>)
    requires |nodes| == BLOCK && forall i: nat :: i < BLOCK ==> nodes[i] == FirstNode(i)
    ensures RingsOk(nodes, [FirstRing()]) && Cleared(nodes) == [Node(0, -1)] + seq(BLOCK - 1, i => EMPTY)
  {
    var r := FirstRing();
    forall i | 0 <= i < |r| ensures LinkedAt(SlotLinks(nodes), r, i) {
    }
    assert RingOk(nodes, r, 0);
    hide RingOk;
    forall e: nat | 0 < e < BLOCK ensures e in r {
      assert r[e - 1] == e;
    }
  }

  // ----- The lists of blocks -----

  function KindOf(b: nat, num: nat, trial: nat, maxTrial: nat): Kind {
    if b == 0 || num == 0 then Full else if num == 1 || trial == maxTrial then Closed else Open
  }

  ghost predicate HeadOk(h: nat, s: seq<nat>) {
    h == if s == [] then 0 else s[0]
  }

  ghost predicate Apart(ls: Lists) {
    forall j, k, b :: b in ls.Get(j) && b in ls.Get(k) ==> j == k
  }

  // The three lists are circular, have no block in common, and block 0 is in the
  // first: so a head 0 of another one says that it is empty.
  ghost predicate ListsOk(l: seq<Link>, hs: Heads, ls: Lists) {
    && l != [] && Apart(ls) && 0 in ls.full
    && (forall k :: IsRing(l, ls.Get(k)) && HeadOk(hs.Get(k), ls.Get(k)))
  }

  ghost predicate PlacedAt(blocks: seq<Block>, ls: Lists, maxTrial: nat, b: nat)
    requires b < |blocks|
  {
    blocks[b].trial <= maxTrial && b in ls.Get(KindOf(b, blocks[b].num, blocks[b].trial, maxTrial))
  }

  // Every block but this one is in the list its counts demand.
  ghost predicate Placed(blocks: seq<Block>, ls: Lists, maxTrial: nat, but: int) {
    forall b: nat :: b < |blocks| && b != but ==> PlacedAt(blocks, ls, maxTrial, b)
  }

  ghost predicate SameCounts(a: seq<Block>, b: seq<Block>) {
    |a| == |b| && forall i: nat :: i < |a| ==> a[i].num == b[i].num && a[i].trial == b[i].trial && a[i].ehead == b[i].ehead
  }

  lemma {:induction false} GetPut(ls: Lists, k: Kind, s: seq<nat>, j: Kind)
    ensures ls.Put(k, s).Get(j) == if j == k then s else ls.Get(j)
  {
  }

  lemma HeadsGetPut(hs: Heads, k: Kind, h: nat, j: Kind)
    ensures hs.Put(k, h).Get(j) == if j == k then h else hs.Get(j)
  {
  }

  // A list keeps its ring when the links of other blocks change.
  lemma OtherLists(l: seq<Link>, m: seq<Link>, hs: Heads, ls: Lists, k: Kind, h: nat, s: seq<nat>, b: nat)
    requires ListsOk(l, hs, ls) && |m| == |l| && IsRing(m, s) && HeadOk(h, s) && (b in ls.Get(k) || forall j :: b !in ls.Get(j))
    requires forall x: nat :: x < |m| && x != b && x !in ls.Get(k) ==> m[x] == l[x]
    requires (forall x: nat :: x in s ==> x in ls.Get(k) || x == b) && (0 in ls.Get(k) ==> 0 in s)
    ensures ListsOk(m, hs.Put(k, h), ls.Put(k, s))
  {
    hide IsRing, HeadOk;
    forall j ensures IsRing(m, ls.Put(k, s).Get(j)) && HeadOk(hs.Put(k, h).Get(j), ls.Put(k, s).Get(j)) {
      HeadsGetPut(hs, k, h, j);
      GetPut(ls, k, s, j);
      if j != k {
        assert forall i :: 0 <= i < |ls.Get(j)| ==> ls.Get(j)[i] in ls.Get(j);
        RingStays(l, m, ls.Get(j));
      }
    }
    assert 0 in ls.Get(Full);
    GetPut(ls, k, s, Full);
    forall i, j, x: nat | x in ls.Put(k, s).Get(i) && x in ls.Put(k, s).Get(j) ensures i == j {
      GetPut(ls, k, s, i);
      GetPut(ls, k, s, j);
    }
  }

  // A block leaves its list.
  lemma PoppedLists(l: seq<Link>, hs: Heads, ls: Lists, k: Kind, i: nat)
    requires ListsOk(l, hs, ls) && i < |ls.Get(k)| && ls.Get(k)[i] != 0
    ensures var r := ls.Get(k);
      && r[i] < |l| && 0 <= l[r[i]].prev < |l| && 0 <= l[r[i]].next < |l|
      && (l[r[i]].next == r[i] <==> |r| == 1) && (hs.Get(k) == r[i] <==> i == 0)
      && if |r| == 1 then ListsOk(l, hs.Put(k, 0), ls.Put(k, RemoveAt(r, i)))
         else ListsOk(Unlinked(l, r[i]), hs.Put(k, if i == 0 then l[r[i]].next else hs.Get(k)), ls.Put(k, RemoveAt(r, i)))
  {
    var r := ls.Get(k);
    assert IsRing(l, r) && HeadOk(hs.Get(k), r);
    LinksOf(l, r, i);
    SamePlace(r, i, After(i, |r|));
    SamePlace(r, i, 0);
    RemovedMembers(r, i);
    RingUnlinked(l, r, i);
    assert l[r[i]].prev in r && l[r[i]].next in r && r[i] in r;
    hide IsRing, ListsOk, NoRepeats;
    if |r| == 1 {
      assert IsRing(l, []) by { EmptyRing(l); }
      assert RemoveAt(r, i) == [];
      OtherLists(l, l, hs, ls, k, 0, [], r[i]);
    } else {
      OtherLists(l, Unlinked(l, r[i]), hs, ls, k, if i == 0 then l[r[i]].next else hs.Get(k), RemoveAt(r, i), r[i]);
    }
  }

  lemma EmptyRing(l: seq<Link>)
    ensures IsRing(l, [])
  {
  }

  lemma LoneBlock(l: seq<Link>, b: nat)
    requires b < |l| && l[b] == Link(b, b)
    ensures IsRing(l, [b])
  {
    assert LinkedAt(l, [b], 0);
  }

  // A block that is in no list becomes the first of one.
  lemma PushedLists(l: seq<Link>, hs: Heads, ls: Lists, k: Kind, b: nat)
    requires ListsOk(l, hs, ls) && b < |l| && forall j :: b !in ls.Get(j)
    ensures var r := ls.Get(k);
      if r == [] then ListsOk(l[b := Link(b, b)], hs.Put(k, b), ls.Put(k, [b] + r))
      else r[0] == hs.Get(k) < |l| && 0 <= l[r[0]].prev < |l| && ListsOk(Spliced(l, b, l[r[0]].prev, r[0]), hs.Put(k, b), ls.Put(k, [b] + r))
  {
    var r := ls.Get(k);
    assert IsRing(l, r) && HeadOk(hs.Get(k), r);
    if r == [] {
      LoneBlock(l[b := Link(b, b)], b);
      assert [b] + r == [b];
      hide IsRing, ListsOk;
      OtherLists(l, l[b := Link(b, b)], hs, ls, k, b, [b] + r, b);
    } else {
      LinksOf(l, r, 0);
      RingPushed(l, r, b);
      assert l[r[0]].prev in r && r[0] in r;
      hide IsRing, ListsOk;
      OtherLists(l, Spliced(l, b, l[r[0]].prev, r[0]), hs, ls, k, b, [b] + r, b);
    }
  }

  lemma SameCountsSelf(a: seq<Block>)
    ensures SameCounts(a, a)
  {
  }

  lemma UnlinkedBlocks(a: seq<Block>, b: seq<Block>, bi: nat)
    requires bi < |a| && a[bi].prev < |a| && a[bi].next < |a|
    requires var m := a[a[bi].prev := a[a[bi].prev].(next := a[bi].next)];
      b == m[a[bi].next := m[a[bi].next].(prev := a[bi].prev)]
    ensures BlockLinks(b) == Unlinked(BlockLinks(a), bi) && SameCounts(a, b)
  {
  }

  lemma EmptyPushed(blocks: seq<Block>, bi: nat)
    requires bi < |blocks|
    ensures var b := blocks[bi := blocks[bi].(prev := bi, next := bi)];
      BlockLinks(b) == BlockLinks(blocks)[bi := Link(bi, bi)] && SameCounts(blocks, b)
  {
  }

  lemma SplicedBlocks(a: seq<Block>, b: seq<Block>, bi: nat, tail: nat, head: nat)
    requires bi < |a| && tail < |a| && head < |a|
    requires var m := a[bi := a[bi].(prev := tail, next := head)];
      var o := m[tail := m[tail].(next := bi)];
      b == o[head := o[head].(prev := bi)]
    ensures BlockLinks(b) == Spliced(BlockLinks(a), bi, tail, head) && SameCounts(a, b)
  {
  }

  // A head 0 of a list other than the first says that it is empty.
  lemma ListFacts(l: seq<Link>, hs: Heads, ls: Lists, k: Kind)
    requires ListsOk(l, hs, ls)
    ensures Apart(ls) && NoRepeats(ls.Get(k)) && (forall b :: b in ls.Get(k) ==> b < |l|)
    ensures k != Full ==> 0 !in ls.Get(k) && (hs.Get(k) == 0 <==> ls.Get(k) == [])
    ensures ls.Get(k) != [] ==> hs.Get(k) == ls.Get(k)[0]
    ensures ls.full != []
  {
    assert IsRing(l, ls.Get(k)) && HeadOk(hs.Get(k), ls.Get(k));
    assert 0 in ls.Get(Full);
    forall b | b in ls.Get(k) ensures b < |l| {
      var i :| 0 <= i < |ls.Get(k)| && ls.Get(k)[i] == b;
      assert LinkedAt(l, ls.Get(k), i);
    }
  }

  function Without(ls: Lists, k: Kind, i: nat): Lists
    requires i < |ls.Get(k)|
  {
    ls.Put(k, RemoveAt(ls.Get(k), i))
  }

  function With(ls: Lists, k: Kind, b: nat): Lists {
    ls.Put(k, [b] + ls.Get(k))
  }

  lemma WithoutMembers(ls: Lists, k: Kind, i: nat)
    requires Apart(ls) && i < |ls.Get(k)| && NoRepeats(ls.Get(k))
    ensures forall j, b: nat :: b in Without(ls, k, i).Get(j) <==> b in ls.Get(j) && b != ls.Get(k)[i]
  {
    RemovedMembers(ls.Get(k), i);
    forall j, b: nat ensures b in Without(ls, k, i).Get(j) <==> b in ls.Get(j) && b != ls.Get(k)[i] {
      GetPut(ls, k, RemoveAt(ls.Get(k), i), j);
    }
  }

  lemma WithMembers(ls: Lists, k: Kind, x: nat)
    ensures forall j, b: nat :: b in With(ls, k, x).Get(j) <==> b in ls.Get(j) || (b == x && j == k)
  {
    forall j, b: nat ensures b in With(ls, k, x).Get(j) <==> b in ls.Get(j) || (b == x && j == k) {
      GetPut(ls, k, [x] + ls.Get(k), j);
    }
  }

  lemma PlacedStill(a: seq<Block>, b: seq<Block>, lsa: Lists, lsb: Lists, maxTrial: nat, bi: nat)
    requires Placed(a, lsa, maxTrial, bi) && |a| == |b|
    requires forall i: nat :: i < |a| && i != bi ==> a[i].num == b[i].num && a[i].trial == b[i].trial
    requires forall j, x: nat :: x != bi && x in lsa.Get(j) ==> x in lsb.Get(j)
    ensures Placed(b, lsb, maxTrial, bi)
  {
    forall x: nat | x < |b| && x != bi ensures PlacedAt(b, lsb, maxTrial, x) {
      assert PlacedAt(a, lsa, maxTrial, x);
    }
  }

  lemma CountsAgain(a: seq<Block>, b: seq<Block>, rings: seq<seq<nat>>, bi: nat, r: seq<nat>)
    requires CountsOk(a, rings) && |a| == |b| && bi < |b| && CountOk(b[bi], r, bi == 0)
    requires forall i: nat :: i < |a| && i != bi ==> a[i].num == b[i].num && a[i].ehead == b[i].ehead
    ensures CountsOk(b, rings[bi := r])
  {
    forall x: nat | x < |b| ensures CountOk(b[x], if x == bi then r else rings[x], x == 0) {
      assert CountOk(a[x], rings[x], x == 0);
    }
  }

  lemma TakenCount(b: Block, r: seq<nat>, k: nat, first: bool, next: nat)
    requires CountOk(b, r, first) && NoRepeats(r) && k < |r| && next == r[After(k, |r|)]
    ensures b.num > 0 && (b.num == 1 ==> |r| == 1 && !first)
    ensures forall c: Block :: c.num == b.num - 1 && c.ehead == (if c.num != 0 && r[k] == b.ehead then next else b.ehead) ==>
      CountOk(c, RemoveAt(r, k), first)
  {
    SamePlace(r, k, 0);
  }

  // One ring has lost e.
  ghost predicate TakenFrom(a: seq<seq<nat>>, b: seq<seq<nat>>, e: nat) {
    && BlockOf(e) < |a|
    && exists k: nat :: k < |a[BlockOf(e)]| && a[BlockOf(e)][k] == e && b == a[BlockOf(e) := RemoveAt(a[BlockOf(e)], k)]
  }

  lemma PlacedHere(blocks: seq<Block>, ls: Lists, maxTrial: nat, bi: nat)
    requires bi < |blocks| && blocks[bi].trial <= maxTrial && bi in ls.Get(KindOf(bi, blocks[bi].num, blocks[bi].trial, maxTrial))
    requires Placed(blocks, ls, maxTrial, bi)
    ensures Placed(blocks, ls, maxTrial, -1)
  {
    assert PlacedAt(blocks, ls, maxTrial, bi);
  }

  lemma BlockInRange(nodes: seq<Node>, rings: seq<seq<nat>>, e: nat)
    requires RingsOk(nodes, rings) && e < |nodes|
    ensures BlockOf(e) < |rings| && (BlockOf(e) == 0 ==> e < BLOCK)
  {
    InRange(e, |rings|);
  }

  lemma GivenCount(b: Block, r: seq<nat>, bi: nat, e: nat)
    requires CountOk(b, r, bi == 0) && (bi == 0 ==> r != [])
    ensures b.num == 0 <==> r == []
    ensures r != [] ==> b.ehead == r[0]
    ensures forall c: Block :: c.num == b.num + 1 && c.ehead == (if c.num == 1 then e else b.ehead) ==> CountOk(c, Behind(r, e), bi == 0)
  {
  }

  lemma SizeIs(nodes: seq<Node>, rings: seq<seq<nat>>, blocks: seq<Block>)
    requires RingsOk(nodes, rings) && CountsOk(blocks, rings)
    ensures |nodes| == BLOCK * |blocks| && |blocks| > 0
  {
  }

  lemma MoreBlocks(blocks: seq<Block>, hs: Heads, ls: Lists, maxTrial: nat, size: nat, rings: seq<seq<nat>>)
    requires ListsOk(BlockLinks(blocks), hs, ls) && Placed(blocks, ls, maxTrial, -1) && CountsOk(blocks, rings) && blocks != []
    ensures var more := blocks + [Block(0, 0, BLOCK, 0, size)];
      && ListsOk(BlockLinks(more), hs, ls) && Placed(more, ls, maxTrial, |blocks|) && CountsOk(more, rings + [FreshRing(size)])
    ensures forall j :: |blocks| !in ls.Get(j)
  {
    var more := blocks + [Block(0, 0, BLOCK, 0, size)];
    forall k ensures IsRing(BlockLinks(more), ls.Get(k)) && HeadOk(hs.Get(k), ls.Get(k)) && |blocks| !in ls.Get(k) {
      ListFacts(BlockLinks(blocks), hs, ls, k);
      assert forall i :: 0 <= i < |ls.Get(k)| ==> ls.Get(k)[i] in ls.Get(k);
      RingStays(BlockLinks(blocks), BlockLinks(more), ls.Get(k));
    }
    assert 0 in ls.full && Apart(ls);
    hide ListsOk, IsRing;
    forall b: nat | b < |blocks| ensures PlacedAt(more, ls, maxTrial, b) {
      assert PlacedAt(blocks, ls, maxTrial, b);
    }
    forall b: nat | b < |more| ensures CountOk(more[b], (rings + [FreshRing(size)])[b], b == 0) {
      if b < |blocks| {
        assert CountOk(blocks[b], rings[b], b == 0);
      }
    }
  }

  // The open list from some block on: where that block's links lead.
  lemma OpenFacts(l: seq<Link>, hs: Heads, ls: Lists, kept: seq<nat>, rest: seq<nat>)
    requires ListsOk(l, hs, ls) && ls.open == kept + rest
    ensures NoRepeats(ls.open) && (hs.open == 0 <==> ls.open == [])
    ensures ls.open != [] ==> hs.open == ls.open[0] < |l| && l[ls.open[0]].prev == ls.open[|ls.open| - 1]
    ensures |rest| > 1 ==> rest[0] < |l| && l[rest[0]].next == rest[1]
  {
    ListFacts(l, hs, ls, Open);
    assert IsRing(l, ls.Get(Open));
    if ls.open != [] {
      LinksOf(l, ls.open, 0);
    }
    if |rest| > 1 {
      LinksOf(l, ls.open, |kept|);
    }
  }

  // The first block of the rest leaves the open list.
  lemma OpenMoved(ls: Lists, kept: seq<nat>, rest: seq<nat>)
    requires ls.open == kept + rest && rest != []
    ensures With(Without(ls, Open, |kept|), Closed, rest[0]).open == kept + rest[1..]
  {
    assert RemoveAt(kept + rest, |kept|) == kept + rest[1..];
  }

  lemma CountsKept(a: seq<Block>, b: seq<Block>, rings: seq<seq<nat>>)
    requires CountsOk(a, rings) && |a| == |b| && forall i: nat :: i < |a| ==> a[i].num == b[i].num && a[i].ehead == b[i].ehead
    ensures CountsOk(b, rings)
  {
    forall x: nat | x < |b| ensures CountOk(b[x], rings[x], x == 0) {
      assert CountOk(a[x], rings[x], x == 0);
    }
  }

  // The block behind the last one is free as a whole.
  lemma NewBlockFits(a: seq<Node>, b: seq<Node>, e: nat, labels: seq<nat>)
    requires Cleared(b) == Cleared(a) + seq(BLOCK, i => EMPTY) && BLOCK <= e == |a| && |a| % BLOCK == 0 && labels != []
    ensures Fits(b, Xor(e, labels[0]), labels)
  {
    PlacesFor(e, labels, |b|);
    var base := Xor(e, labels[0]);
    XorFacts(e, labels[0]);
    forall i | 0 <= i < |labels| ensures b[Xor(base, labels[i])].check < 0 {
      XorFacts(base, labels[i]);
      assert Xor(base, labels[i]) >= |a| by { hide Xor; assert Xor(base, labels[i]) / BLOCK == e / BLOCK; }
      GrownFree(a, b, Xor(base, labels[i]));
    }
  }

  lemma OnePlace(nodes: seq<Node>, e: nat, c: nat)
    requires BLOCK <= e < |nodes| && |nodes| % BLOCK == 0 && nodes[e].check < 0
    ensures Fits(Cleared(nodes), Xor(e, c), [c]) && Xor(Xor(e, c), c) == e
  {
    PlacesFor(e, [c], |nodes|);
  }

  // The last block of a grown array is empty.
  lemma GrownFree(a: seq<Node>, b: seq<Node>, e: nat)
    requires Cleared(b) == Cleared(a) + seq(BLOCK, i => EMPTY) && |a| <= e < |b|
    ensures e > 0 ==> b[e].check < 0
  {
    assert Cleared(b)[e] == EMPTY;
  }

  // When the child by the first label goes to slot e, all go to e's block.
  lemma PlacesFor(e: nat, labels: seq<nat>, size: nat)
    requires BLOCK <= e < size && size % BLOCK == 0 && labels != []
    ensures var base := Xor(e, labels[0]);
      && BLOCK <= base < size && Xor(base, labels[0]) == e
      && forall i :: 0 <= i < |labels| ==> BLOCK <= Xor(base, labels[i]) < size
  {
    XorFacts(e, labels[0]);
    InBlock(e, labels[0], size);
    hide Xor;
    forall i | 0 <= i < |labels| ensures BLOCK <= Xor(Xor(e, labels[0]), labels[i]) < size {
      InBlock(Xor(e, labels[0]), labels[i], size);
    }
  }

  // The links of the lists and the numbers of the blocks are the same.
  ghost predicate SameLinks(a: seq<Block>, b: seq<Block>) {
    |a| == |b| && forall i: nat :: i < |a| ==>
      a[i].prev == b[i].prev && a[i].next == b[i].next && a[i].num == b[i].num && a[i].trial == b[i].trial
  }

  lemma NextInRing(nodes: seq<Node>, rings: seq<seq<nat>>, b: nat, j: nat)
    requires RingsOk(nodes, rings) && b < |rings| && j < |rings[b]|
    ensures rings[b][j] < |nodes| && -nodes[rings[b][j]].check == rings[b][After(j, |rings[b]|)]
  {
    assert RingOk(nodes, rings[b], b);
    LinksOf(SlotLinks(nodes), rings[b], j);
  }

  // A ring is entered somewhere else.
  lemma TurnRing(nodes: seq<Node>, rings: seq<seq<nat>>, b: nat, j: nat)
    requires RingsOk(nodes, rings) && b < |rings| && j < |rings[b]|
    ensures RingsOk(nodes, rings[b := Rotated(rings[b], j)])
  {
    var r := rings[b];
    assert RingOk(nodes, r, b);
    RotatedMembers(r, j);
    RingRotated(SlotLinks(nodes), r, j);
    assert RingOk(nodes, Rotated(r, j), b);
    hide IsRing, RingOk, Rotated;
    OneRing(nodes, nodes, rings, b, Rotated(r, j));
  }

  lemma TurnCounts(blocks: seq<Block>, rings: seq<seq<nat>>, b: nat, j: nat)
    requires CountsOk(blocks, rings) && 0 < b < |rings| && j < |rings[b]|
    ensures CountsOk(blocks[b := blocks[b].(ehead := rings[b][j])], rings[b := Rotated(rings[b], j)])
  {
    RotatedMembers(rings[b], j);
    assert CountOk(blocks[b], rings[b], b == 0);
    CountsAgain(blocks, blocks[b := blocks[b].(ehead := rings[b][j])], rings, b, Rotated(rings[b], j));
  }

  lemma TurnPlaced(blocks: seq<Block>, ls: Lists, maxTrial: nat, b: nat, e: nat)
    requires Placed(blocks, ls, maxTrial, -1) && b < |blocks|
    ensures Placed(blocks[b := blocks[b].(ehead := e)], ls, maxTrial, -1)
  {
    var more := blocks[b := blocks[b].(ehead := e)];
    forall x: nat | x < |more| ensures PlacedAt(more, ls, maxTrial, x) {
      assert PlacedAt(blocks, ls, maxTrial, x);
    }
  }

  // All children with these labels fit at the base.
  predicate Fits(nodes: seq<Node>, base: nat, labels: seq<nat>) {
    && BLOCK <= base < |nodes|
    && forall i :: 0 <= i < |labels| ==> 0 < Xor(base, labels[i]) < |nodes| && nodes[Xor(base, labels[i])].check < 0
  }

  // The first slot of the ring from which all labels have empty places.
  ghost predicate IsFirstPlace(nodes: seq<Node>, ring: seq<nat>, labels: seq<nat>, e: nat)
    requires labels != []
  {
    exists j :: 0 <= j < |ring| && ring[j] == e && Fits(nodes, Xor(e, labels[0]), labels)
      && forall i :: 0 <= i < j ==> !Fits(nodes, Xor(ring[i], labels[0]), labels)
  }

  // A block has fewer empty slots than there are labels, or none that does.
  ghost predicate HasNoPlace(nodes: seq<Node>, ring: seq<nat>, labels: seq<nat>)
    requires labels != []
  {
    |ring| < |labels| || forall j :: 0 <= j < |ring| ==> !Fits(nodes, Xor(ring[j], labels[0]), labels)
  }

  ghost predicate NoneHasPlace(nodes: seq<Node>, rings: seq<seq<nat>>, open: seq<nat>, labels: seq<nat>)
    requires labels != []
  {
    forall i :: 0 <= i < |open| ==> open[i] < |rings| && HasNoPlace(nodes, rings[open[i]], labels)
  }

  // The place is in the first block of the list that has one, and the first there.
  ghost predicate IsFoundIn(nodes: seq<Node>, rings: seq<seq<nat>>, open: seq<nat>, labels: seq<nat>, e: nat)
    requires labels != []
  {
    exists k :: 0 <= k < |open| && open[k] < |rings| && |rings[open[k]]| >= |labels| && IsFirstPlace(nodes, rings[open[k]], labels, e)
      && NoneHasPlace(nodes, rings, open[..k], labels)
  }

  function EmptySlots(nodes: seq<Node>, b: nat): set<nat> {
    set e: nat | e < |nodes| && BlockOf(e) == b && nodes[e].check < 0
  }

  function Members(r: seq<nat>): set<nat> {
    set e | e in r
  }

  lemma {:induction false} DistinctCount(r: seq<nat>)
    requires NoRepeats(r)
    ensures |Members(r)| == |r|
  {
    if r != [] {
      var n := |r| - 1;
      DistinctCount(r[..n]);
      assert Members(r) == Members(r[..n]) + {r[n]} by {
        assert r == r[..n] + [r[n]];
      }
      assert r[n] !in r[..n];
    }
  }

  lemma RingIsSet(nodes: seq<Node>, rings: seq<seq<nat>>, b: nat)
    requires RingsOk(nodes, rings) && 0 < b < |rings|
    ensures EmptySlots(nodes, b) == Members(rings[b])
  {
    RingMembers(nodes, rings, b);
    hide RingOk;
    forall e: nat ensures e in EmptySlots(nodes, b) <==> e in Members(rings[b]) {
      if e in EmptySlots(nodes, b) {
        assert e != 0;
      }
    }
  }

  // Slots and info are as before, with nothing or one free block behind.
  ghost predicate Grows(a: seq<Node>, ai: seq<Ninfo>, b: seq<Node>, bi: seq<Ninfo>, grown: bool) {
    if grown then Cleared(b) == Cleared(a) + seq(BLOCK, i => EMPTY) && bi == ai + seq(BLOCK, i => Ninfo(0, 0))
    else Cleared(b) == Cleared(a) && bi == ai
  }

  class Slots {
    var nodes: seq<Node>
    var ninfo: seq<Ninfo>
    var blocks: seq<Block>
    var bheadF: nat
    var bheadC: nat
    var bheadO: nat
    const maxTrial: nat
    // The ring of each block from its head on, and the lists from their heads on.
    ghost var rings: seq<seq<nat>>
    ghost var lists: Lists

    ghost predicate ListsValid()
      reads this
    {
      ListsOk(BlockLinks(blocks), Heads(bheadF, bheadC, bheadO), lists)
    }

    // Each block's ring is exactly its empty slots and its num counts them; the
    // lists partition the blocks by what they have left.
    ghost predicate Valid()
      reads this
    {
      && maxTrial > 0 && |ninfo| == |nodes|
      && RingsOk(nodes, rings) && CountsOk(blocks, rings)
      && ListsValid() && Placed(blocks, lists, maxTrial, -1)
    }

    // _initialize
    constructor (maxTrial: nat)
      requires maxTrial > 0
      ensures Valid() && this.maxTrial == maxTrial
      ensures Cleared(nodes) == [Node(0, -1)] + seq(BLOCK - 1, i => EMPTY) && ninfo == seq(BLOCK, i => Ninfo(0, 0))
    {
      this.maxTrial := maxTrial;
      nodes := [Node(0, -1)];
      ninfo := seq(BLOCK, i => Ninfo(0, 0));
      blocks := [Block(0, 0, BLOCK, 0, 1)];
      bheadF, bheadC, bheadO := 0, 0, 0;
      rings := [FirstRing()];
      lists := Lists([0], [], []);
      new;
      var i := 1;
      while i < BLOCK
        invariant 1 <= i <= BLOCK && |nodes| == i && forall t: nat :: t < i ==> nodes[t] == FirstNode(t)
        invariant maxTrial == this.maxTrial && ninfo == seq(BLOCK, i => Ninfo(0, 0)) && blocks == [Block(0, 0, BLOCK, 0, 1)]
        invariant bheadF == bheadC == bheadO == 0 && rings == [FirstRing()] && lists == Lists([0], [], [])
      {
        nodes := nodes + [Node(if i == 1 then -255 else -(i - 1), if i == 255 then -1 else -(i + 1))];
        i := i + 1;
      }
      FirstBlock(nodes);
      LoneBlock(BlockLinks(blocks), 0);
      EmptyRing(BlockLinks(blocks));
      assert PlacedAt(blocks, lists, maxTrial, 0);
    }

    method SetHead(k: Kind, h: nat)
      modifies `bheadF, `bheadC, `bheadO
      ensures Heads(bheadF, bheadC, bheadO) == old(Heads(bheadF, bheadC, bheadO)).Put(k, h)
    {
      match k {
        case Full => bheadF := h;
        case Closed => bheadC := h;
        case Open => bheadO := h;
      }
    }

    function Head(k: Kind): nat
      reads this
    {
      Heads(bheadF, bheadC, bheadO).Get(k)
    }

    // _pop_block; i is the block's place in the list.
    method PopBlock(bi: nat, k: Kind, last: bool, ghost i: nat)
      requires ListsValid() && i < |lists.Get(k)| && lists.Get(k)[i] == bi != 0 && last == (|lists.Get(k)| == 1)
      modifies `blocks, `bheadF, `bheadC, `bheadO, `lists
      ensures ListsValid() && lists == Without(old(lists), k, i) && SameCounts(old(blocks), blocks)
    {
      PoppedLists(BlockLinks(blocks), Heads(bheadF, bheadC, bheadO), lists, k, i);
      hide ListsOk, RemoveAt, Unlinked, SameCounts;
      SameCountsSelf(blocks);
      lists := Without(lists, k, i);
      if last {
        SetHead(k, 0);
      } else {
        var b := blocks[bi];
        blocks := blocks[b.prev := blocks[b.prev].(next := b.next)];
        blocks := blocks[b.next := blocks[b.next].(prev := b.prev)];
        if bi == Head(k) {
          SetHead(k, b.next);
        }
        UnlinkedBlocks(old(blocks), blocks, bi);
      }
    }

    // _push_block
    method PushBlock(bi: nat, k: Kind, empty: bool)
      requires ListsValid() && bi < |blocks| && (forall j :: bi !in lists.Get(j)) && empty == (lists.Get(k) == [])
      modifies `blocks, `bheadF, `bheadC, `bheadO, `lists
      ensures ListsValid() && lists == With(old(lists), k, bi) && SameCounts(old(blocks), blocks)
    {
      PushedLists(BlockLinks(blocks), Heads(bheadF, bheadC, bheadO), lists, k, bi);
      hide ListsOk, Spliced, SameCounts;
      EmptyPushed(blocks, bi);
      lists := With(lists, k, bi);
      if empty {
        blocks := blocks[bi := blocks[bi].(prev := bi, next := bi)];
        SetHead(k, bi);
      } else {
        var head := Head(k);
        var tail := blocks[head].prev;
        blocks := blocks[bi := blocks[bi].(prev := tail, next := head)];
        blocks := blocks[tail := blocks[tail].(next := bi)];
        blocks := blocks[head := blocks[head].(prev := bi)];
        SetHead(k, bi);
        SplicedBlocks(old(blocks), blocks, bi, tail, head);
      }
    }

    // _transfer_block: for a filled-up block, or one with empty slots, from its list
    // to another.
    method TransferBlock(bi: nat, kin: Kind, kout: Kind, ghost i: nat)
      requires ListsValid() && i < |lists.Get(kin)| && lists.Get(kin)[i] == bi != 0 && kin != kout
      requires bi < |blocks| && (kout == Full <==> blocks[bi].num == 0) && Placed(blocks, lists, maxTrial, bi)
      modifies `blocks, `bheadF, `bheadC, `bheadO, `lists
      ensures ListsValid() && lists == With(Without(old(lists), kin, i), kout, bi) && SameCounts(old(blocks), blocks)
      ensures Placed(blocks, lists, maxTrial, bi) && bi in lists.Get(kout)
    {
      PoppedLists(BlockLinks(blocks), Heads(bheadF, bheadC, bheadO), lists, kin, i);
      ListFacts(BlockLinks(blocks), Heads(bheadF, bheadC, bheadO), lists, kin);
      WithoutMembers(lists, kin, i);
      hide ListsOk, Without, With;
      PopBlock(bi, kin, bi == blocks[bi].next, i);
      ListFacts(BlockLinks(blocks), Heads(bheadF, bheadC, bheadO), lists, kout);
      WithMembers(lists, kout, bi);
      PushBlock(bi, kout, Head(kout) == 0 && blocks[bi].num != 0);
      PlacedStill(old(blocks), blocks, old(lists), lists, maxTrial, bi);
    }

    // A block's counts change, its links do not.
    method SetBlock(bi: nat, b: Block)
      requires ListsValid() && bi < |blocks| && b.prev == blocks[bi].prev && b.next == blocks[bi].next
      requires Placed(blocks, lists, maxTrial, -1) || Placed(blocks, lists, maxTrial, bi)
      modifies `blocks
      ensures ListsValid() && blocks == old(blocks)[bi := b] && Placed(blocks, lists, maxTrial, bi)
    {
      blocks := blocks[bi := b];
      assert BlockLinks(blocks) == BlockLinks(old(blocks));
      PlacedStill(old(blocks), blocks, lists, lists, maxTrial, bi);
    }

    // What a block's counts say.
    lemma BlockFacts(bi: nat) returns (k: Kind, i: nat)
      requires Valid() && bi < |rings|
      ensures |blocks| == |rings| && CountOk(blocks[bi], rings[bi], bi == 0) && blocks[bi].trial <= maxTrial
      ensures k == KindOf(bi, blocks[bi].num, blocks[bi].trial, maxTrial) && i < |lists.Get(k)| && lists.Get(k)[i] == bi
    {
      assert PlacedAt(blocks, lists, maxTrial, bi);
      k := KindOf(bi, blocks[bi].num, blocks[bi].trial, maxTrial);
      i :| 0 <= i < |lists.Get(k)| && lists.Get(k)[i] == bi;
    }

    // The slot's neighbours in its ring are linked to each other.
    method Release(e: nat, bi: nat)
      requires e < |nodes| && 0 < -nodes[e].base < |nodes| && 0 < -nodes[e].check < |nodes|
      requires ListsValid() && bi < |blocks| && Placed(blocks, lists, maxTrial, bi)
      modifies `nodes, `blocks
      ensures nodes == UnlinkedNodes(old(nodes), e)
      ensures ListsValid() && Placed(blocks, lists, maxTrial, bi)
      ensures var b: Block := old(blocks)[bi];
        blocks == old(blocks)[bi := b.(ehead := if e == b.ehead then -old(nodes)[e].check else b.ehead)]
    {
      hide ListsOk, Placed;
      var n := nodes[e];
      nodes := nodes[-n.base := nodes[-n.base].(check := n.check)];
      nodes := nodes[-n.check := nodes[-n.check].(base := n.base)];
      if e == blocks[bi].ehead {
        SetBlock(bi, blocks[bi].(ehead := -n.check));
      }
    }

    // _pop_enode from the slot on: it leaves its ring and is used. A block that has
    // one empty slot left is closed, one without any is full; block 0 stays.
    method Take(e: nat, node: Node)
      requires Valid() && 0 < e < |nodes| && nodes[e].check < 0 && node.check >= 0
      modifies `nodes, `blocks, `bheadF, `bheadC, `bheadO, `rings, `lists
      ensures Valid() && Cleared(nodes) == Cleared(old(nodes))[e := node]
      ensures TakenFrom(old(rings), rings, e)
    {
      hide RingsOk, ListsOk, CountOk, CountsOk, PlacedAt, Placed, BlockOf, RemoveAt, With, Without, Cleared, UnlinkedNodes;
      ghost var k := EmptyAt(nodes, rings, e);
      Taken(nodes, rings, e, k, node);
      var bi := BlockOf(e);
      RingDistinct(nodes, rings, bi);
      ghost var was, i := BlockFacts(bi);
      TakenCount(blocks[bi], rings[bi], k, bi == 0, -nodes[e].check);
      SetBlock(bi, blocks[bi].(num := blocks[bi].num - 1));
      if blocks[bi].num == 0 {
        if bi != 0 {
          TransferBlock(bi, Closed, Full, i);
        }
      } else {
        Release(e, bi);
        if bi != 0 && blocks[bi].num == 1 && blocks[bi].trial != maxTrial {
          TransferBlock(bi, Open, Closed, i);
        }
      }
      nodes := nodes[e := node];
      CountsAgain(old(blocks), blocks, rings, bi, RemoveAt(rings[bi], k));
      PlacedHere(blocks, lists, maxTrial, bi);
      rings := rings[bi := RemoveAt(rings[bi], k)];
    }

    // _push_enode: the slot is empty again, behind the head of its block's ring. A
    // full block is closed then, a closed one open.
    method PushEnode(e: nat)
      requires Valid() && 0 < e < |nodes| && nodes[e].check >= 0 && (e < BLOCK ==> rings[0] != [])
      modifies this
      ensures Valid() && Cleared(nodes) == Cleared(old(nodes))[e := EMPTY] && ninfo == old(ninfo)[e := Ninfo(0, 0)]
      ensures BlockOf(e) < |old(rings)| && rings == old(rings)[BlockOf(e) := Behind(old(rings)[BlockOf(e)], e)]
    {
      hide RingsOk, ListsOk, CountOk, CountsOk, PlacedAt, Placed, BlockOf, Behind, Cleared, LinkedNodes;
      BlockInRange(nodes, rings, e);
      var bi := BlockOf(e);
      ghost var k, i := BlockFacts(bi);
      GivenCount(blocks[bi], rings[bi], bi, e);
      SetBlock(bi, blocks[bi].(num := blocks[bi].num + 1));
      if blocks[bi].num == 1 {
        GivenFirst(nodes, rings, e);
        FullToClosed(e, bi, i);
      } else {
        GivenMore(nodes, rings, e);
        LinkIn(e, blocks[bi].ehead);
        ClosedToOpen(bi, k, i);
      }
      ninfo := ninfo[e := Ninfo(0, 0)];
      CountsAgain(old(blocks), blocks, rings, bi, Behind(rings[bi], e));
      rings := rings[bi := Behind(rings[bi], e)];
    }

    method FullToClosed(e: nat, bi: nat, ghost i: nat)
      requires e < |nodes| && bi < |blocks| && ListsValid() && Placed(blocks, lists, maxTrial, bi)
      requires bi != 0 && blocks[bi].num == 1 && blocks[bi].trial <= maxTrial && i < |lists.full| && lists.full[i] == bi
      modifies `nodes, `blocks, `bheadF, `bheadC, `bheadO, `lists
      ensures ListsValid() && Placed(blocks, lists, maxTrial, -1) && nodes == old(nodes)[e := Between(e, e)]
      ensures |blocks| == |old(blocks)| && blocks[bi].num == 1 && blocks[bi].ehead == e
      ensures forall b: nat :: b < |blocks| && b != bi ==> blocks[b].num == old(blocks)[b].num && blocks[b].ehead == old(blocks)[b].ehead
    {
      hide ListsOk, Placed, With, Without;
      SetBlock(bi, blocks[bi].(ehead := e));
      nodes := nodes[e := Between(e, e)];
      if bi != 0 {
        TransferBlock(bi, Full, Closed, i);
      }
      PlacedHere(blocks, lists, maxTrial, bi);
    }

    method ClosedToOpen(bi: nat, ghost k: Kind, ghost i: nat)
      requires maxTrial > 0 && bi < |blocks| && ListsValid() && Placed(blocks, lists, maxTrial, bi)
      requires blocks[bi].num >= 2 && blocks[bi].trial <= maxTrial && i < |lists.Get(k)| && lists.Get(k)[i] == bi
      requires k == KindOf(bi, blocks[bi].num - 1, blocks[bi].trial, maxTrial)
      modifies `blocks, `bheadF, `bheadC, `bheadO, `lists
      ensures ListsValid() && Placed(blocks, lists, maxTrial, -1) && |blocks| == |old(blocks)|
      ensures forall b: nat :: b < |blocks| ==> blocks[b].num == old(blocks)[b].num && blocks[b].ehead == old(blocks)[b].ehead
    {
      hide ListsOk, Placed, With, Without;
      if blocks[bi].num == 2 || blocks[bi].trial == maxTrial {
        if bi != 0 {
          TransferBlock(bi, Closed, Open, i);
        }
      }
      SetBlock(bi, blocks[bi].(trial := 0));
      PlacedHere(blocks, lists, maxTrial, bi);
    }

    // The slot comes behind the head.
    method LinkIn(e: nat, prev: nat)
      requires e < |nodes| && prev < |nodes| && 0 <= -nodes[prev].check < |nodes|
      modifies `nodes
      ensures nodes == LinkedNodes(old(nodes), e, prev, -old(nodes)[prev].check)
    {
      var next: nat := -nodes[prev].check;
      nodes := nodes[e := Between(prev, next)];
      nodes := nodes[prev := nodes[prev].(check := 0 - e)];
      nodes := nodes[next := nodes[next].(base := 0 - e)];
    }

    // A used slot is written.
    method Write(t: nat, node: Node)
      requires Valid() && 0 < t < |nodes| && nodes[t].check >= 0 && node.check >= 0
      modifies `nodes
      ensures Valid() && nodes == old(nodes)[t := node] && Cleared(nodes) == Cleared(old(nodes))[t := node]
    {
      hide RingsOk, ListsOk, CountsOk, Placed, Cleared;
      Written(nodes, rings, t, node);
      nodes := nodes[t := node];
    }

    method WriteInfo(t: nat, info: Ninfo)
      requires Valid() && t < |ninfo|
      modifies `ninfo
      ensures Valid() && ninfo == old(ninfo)[t := info]
    {
      ninfo := ninfo[t := info];
    }

    // The slots of a new block, each linked to the next.
    method AppendRing()
      modifies `nodes
      ensures nodes == old(nodes) + FreshNodes(|old(nodes)|)
    {
      var size := |nodes|;
      nodes := nodes + [Node(-(size + 255), -(size + 1))];
      var i := size + 1;
      while i < size + 255
        invariant size < i <= size + 255 && nodes == old(nodes) + FreshNodes(size)[..i - size]
      {
        assert FreshNodes(size)[..i + 1 - size] == FreshNodes(size)[..i - size] + [FreshNode(size, i - size)];
        nodes := nodes + [Node(-(i - 1), -(i + 1))];
        i := i + 1;
      }
      assert FreshNodes(size) == FreshNodes(size)[..255] + [FreshNode(size, 255)];
      nodes := nodes + [Node(-(size + 254), -size)];
    }

    // _add_block: a block of empty slots, in the open list.
    method AddBlock() returns (bi: nat)
      requires Valid()
      modifies this
      ensures Valid() && bi > 0 && |old(nodes)| == BLOCK * bi && |nodes| == BLOCK * (bi + 1)
      ensures Grows(old(nodes), old(ninfo), nodes, ninfo, true)
    {
      hide RingsOk, ListsOk, CountsOk, Placed, Cleared, FreshNodes, With;
      var size := |nodes|;
      bi := |blocks|;
      SizeIs(nodes, rings, blocks);
      GrownRings(nodes, rings);
      MoreBlocks(blocks, Heads(bheadF, bheadC, bheadO), lists, maxTrial, size, rings);
      blocks := blocks + [Block(0, 0, BLOCK, 0, size)];
      AppendRing();
      ninfo := ninfo + seq(BLOCK, i => Ninfo(0, 0));
      rings := rings + [FreshRing(size)];
      ghost var was, before := blocks, lists;
      ListFacts(BlockLinks(blocks), Heads(bheadF, bheadC, bheadO), lists, Open);
      PushBlock(bi, Open, bheadO == 0);
      WithMembers(before, Open, bi);
      CountsKept(was, blocks, rings);
      PlacedStill(was, blocks, before, lists, maxTrial, bi);
      PlacedHere(blocks, lists, maxTrial, bi);
    }

    // A closed or open block has empty slots, and the first of them is its head.
    lemma FreeHead(bi: nat, k: Kind)
      requires Valid() && bi in lists.Get(k) && k != Full
      ensures 0 < bi < |blocks| == |rings| && rings[bi] != [] && blocks[bi].ehead == rings[bi][0]
      ensures blocks[bi].num == |rings[bi]| && blocks[bi].trial <= maxTrial && k == KindOf(bi, blocks[bi].num, blocks[bi].trial, maxTrial)
      ensures NoRepeats(rings[bi]) && forall e: nat :: e in rings[bi] ==> BLOCK <= e < |nodes| && nodes[e].check < 0
    {
      hide RingsOk, ListsOk;
      ListFacts(BlockLinks(blocks), Heads(bheadF, bheadC, bheadO), lists, k);
      assert PlacedAt(blocks, lists, maxTrial, bi) && CountOk(blocks[bi], rings[bi], bi == 0);
      hide Placed, CountsOk;
      RingDistinct(nodes, rings, bi);
      RingMembers(nodes, rings, bi);
    }

    // _find_place: a place for one child.
    method FindPlace() returns (e: nat, ghost grown: bool)
      requires Valid()
      modifies this
      ensures Valid() && Grows(old(nodes), old(ninfo), nodes, ninfo, grown)
      ensures BLOCK <= e < |nodes| && nodes[e].check < 0 && |nodes| % BLOCK == 0
      ensures old(bheadC) != 0 && old(bheadC) < |old(blocks)| ==> !grown && e == old(blocks)[old(bheadC)].ehead
      ensures old(bheadC) == 0 && old(bheadO) != 0 && old(bheadO) < |old(blocks)| ==> !grown && e == old(blocks)[old(bheadO)].ehead
      ensures old(bheadC) == 0 && old(bheadO) == 0 ==> grown && e == |old(nodes)|
    {
      hide RingsOk, ListsOk, CountsOk, Placed, Cleared;
      SizeIs(nodes, rings, blocks);
      ListFacts(BlockLinks(blocks), Heads(bheadF, bheadC, bheadO), lists, Closed);
      ListFacts(BlockLinks(blocks), Heads(bheadF, bheadC, bheadO), lists, Open);
      grown := false;
      if bheadC != 0 {
        FreeHead(bheadC, Closed);
        assert rings[bheadC][0] in rings[bheadC];
        return blocks[bheadC].ehead, false;
      }
      if bheadO != 0 {
        FreeHead(bheadO, Open);
        assert rings[bheadO][0] in rings[bheadO];
        return blocks[bheadO].ehead, false;
      }
      var bi := AddBlock();
      grown := true;
      e := bi * BLOCK;
      GrownFree(old(nodes), nodes, e);
    }

    // Whether all children fit when the first one goes to this empty slot.
    method NoConflict(e: nat, labels: seq<nat>) returns (free: bool)
      requires BLOCK <= e < |nodes| && |nodes| % BLOCK == 0 && |labels| > 1 && nodes[e].check < 0
      ensures free <==> Fits(nodes, Xor(e, labels[0]), labels)
    {
      hide Xor;
      PlacesFor(e, labels, |nodes|);
      var base, p := Xor(e, labels[0]), 1;
      while nodes[Xor(base, labels[p])].check < 0
        invariant 0 < p < |labels| && forall i :: 0 <= i < p ==> nodes[Xor(base, labels[i])].check < 0
        decreases |labels| - p
      {
        if p == |labels| - 1 {
          return true;
        }
        p := p + 1;
      }
      free := false;
    }

    // The walk around one block's ring.
    method SearchBlock(bi: nat, labels: seq<nat>) returns (found: bool, e: nat)
      requires Valid() && bi in lists.open && |labels| > 1
      modifies `blocks, `rings
      ensures Valid() && SameLinks(old(blocks), blocks)
      ensures found ==> Fits(nodes, Xor(e, labels[0]), labels) && BLOCK <= e < |nodes|
      ensures bi < |old(rings)|
      ensures if found then IsFirstPlace(nodes, old(rings)[bi], labels, e)
              else rings == old(rings) && forall j :: 0 <= j < |rings[bi]| ==> !Fits(nodes, Xor(rings[bi][j], labels[0]), labels)
    {
      hide RingsOk, ListsOk, CountsOk, Placed, Cleared, Xor, Fits;
      SizeIs(nodes, rings, blocks);
      FreeHead(bi, Open);
      ghost var r, j := rings[bi], 0;
      e := blocks[bi].ehead;
      while true
        invariant rings == old(rings) && blocks == old(blocks)
        invariant j < |r| && e == r[j]
        invariant forall i :: 0 <= i < j ==> !Fits(nodes, Xor(r[i], labels[0]), labels)
        decreases |r| - j
      {
        assert e in r;
        found := NoConflict(e, labels);
        if found {
          TurnRing(nodes, rings, bi, j);
          TurnCounts(blocks, rings, bi, j);
          TurnPlaced(blocks, lists, maxTrial, bi, e);
          blocks := blocks[bi := blocks[bi].(ehead := e)];
          rings := rings[bi := Rotated(r, j)];
          assert BlockLinks(blocks) == BlockLinks(old(blocks));
          return;
        }
        NextInRing(nodes, rings, bi, j);
        SamePlace(r, After(j, |r|), 0);
        e := -nodes[e].check;
        if e == blocks[bi].ehead {
          return;
        }
        j := j + 1;
      }
    }

    // The block has been tried in vain once more; after too many trials it is closed.
    method CountTrial(bi: nat, ghost i: nat)
      requires Valid() && i < |lists.open| && lists.open[i] == bi
      modifies `blocks, `bheadF, `bheadC, `bheadO, `lists
      ensures Valid() && (lists == old(lists) || lists == With(Without(old(lists), Open, i), Closed, bi))
      ensures |blocks| == |old(blocks)| && forall b: nat :: b < |blocks| ==>
        blocks[b].trial == old(blocks)[b].trial + if b == bi then 1 else 0
    {
      hide RingsOk, ListsOk, CountsOk, Placed, Cleared, With, Without;
      FreeHead(bi, Open);
      SetBlock(bi, blocks[bi].(trial := blocks[bi].trial + 1));
      if blocks[bi].trial == maxTrial {
        TransferBlock(bi, Open, Closed, i);
      }
      CountsKept(old(blocks), blocks, rings);
      PlacedHere(blocks, lists, maxTrial, bi);
    }

    // One turn of _find_place: a block of the open list and, when nothing is found
    // in it, the block behind it. The rest of the list stays as it is.
    method TryBlock(bi: nat, labels: seq<nat>, ghost kept: seq<nat>, ghost rest: seq<nat>)
      returns (found: bool, e: nat, next: nat, ghost kept': seq<nat>)
      requires Valid() && |labels| > 1 && rest != [] && lists.open == kept + rest && bi == rest[0]
      modifies `blocks, `bheadF, `bheadC, `bheadO, `rings, `lists
      ensures Valid()
      ensures found ==> BLOCK <= e < |nodes| && Fits(nodes, Xor(e, labels[0]), labels)
      ensures !found ==> lists.open == kept' + rest[1..] && (|rest| > 1 ==> next == rest[1])
      ensures bi < |old(rings)|
      ensures if found then |old(rings)[bi]| >= |labels| && IsFirstPlace(nodes, old(rings)[bi], labels, e)
              else rings == old(rings) && HasNoPlace(nodes, rings[bi], labels)
    {
      hide RingsOk, ListsOk, CountsOk, Placed, Cleared, Xor, Fits, With, Without;
      OpenFacts(BlockLinks(blocks), Heads(bheadF, bheadC, bheadO), lists, kept, rest);
      assert lists.open[|kept|] == bi;
      FreeHead(bi, Open);
      kept' := kept;
      found, e := false, bi;
      if blocks[bi].num >= |labels| {
        found, e := SearchBlock(bi, labels);
        if found {
          next := bi;
          return;
        }
      }
      next := blocks[bi].next;
      OpenMoved(lists, kept, rest);
      ghost var was := lists;
      CountTrial(bi, |kept|);
      if lists == was {
        kept' := kept + [bi];
        assert kept + rest == kept' + rest[1..];
      }
    }

    lemma OpenHead()
      requires Valid()
      ensures bheadO != 0 <==> lists.open != []
      ensures bheadO != 0 ==> bheadO == lists.open[0] && bheadO < |blocks| && blocks[bheadO].prev == lists.open[|lists.open| - 1]
      ensures NoRepeats(lists.open) && [] + lists.open == lists.open
    {
      hide RingsOk, ListsOk, CountsOk, Placed;
      OpenFacts(BlockLinks(blocks), Heads(bheadF, bheadC, bheadO), lists, [], lists.open);
    }

    lemma TailOf(open: seq<nat>, k: nat)
      requires k < |open| && NoRepeats(open[k..])
      ensures open[k..][0] == open[k] && open[k..][1..] == open[k + 1..]
      ensures NoRepeats(open[k + 1..]) && (open[k] == open[|open| - 1] <==> k + 1 == |open|)
      ensures if k + 1 < |open| then |open[k..]| > 1 && open[k..][1] == open[k + 1] else open[..k + 1] == open
    {
      SamePlace(open[k..], 0, |open[k..]| - 1);
    }

    lemma NoneTried(nodes: seq<Node>, rings: seq<seq<nat>>, open: seq<nat>, labels: seq<nat>)
      requires labels != []
      ensures NoneHasPlace(nodes, rings, open[..0], labels)
    {
    }

    lemma FoundHere(nodes: seq<Node>, rings: seq<seq<nat>>, open: seq<nat>, k: nat, labels: seq<nat>, e: nat)
      requires labels != [] && k < |open| && NoneHasPlace(nodes, rings, open[..k], labels) && open[k] < |rings|
      requires |rings[open[k]]| >= |labels| && IsFirstPlace(nodes, rings[open[k]], labels, e)
      ensures IsFoundIn(nodes, rings, open, labels, e)
    {
    }

    lemma OneMoreTried(nodes: seq<Node>, rings: seq<seq<nat>>, open: seq<nat>, k: nat, labels: seq<nat>)
      requires labels != [] && k < |open| && NoneHasPlace(nodes, rings, open[..k], labels)
      requires open[k] < |rings| && HasNoPlace(nodes, rings[open[k]], labels)
      ensures NoneHasPlace(nodes, rings, open[..k + 1], labels)
    {
      hide HasNoPlace;
      assert forall i :: 0 <= i < k ==> open[..k + 1][i] == open[..k][i];
    }

    // The walk through the open list, from its head to its tail.
    method SearchOpen(labels: seq<nat>) returns (found: bool, e: nat)
      requires Valid() && |labels| > 1 && bheadO != 0
      modifies `blocks, `bheadF, `bheadC, `bheadO, `rings, `lists
      ensures Valid() && (found ==> BLOCK <= e < |nodes| && Fits(nodes, Xor(e, labels[0]), labels))
      ensures if found then IsFoundIn(nodes, old(rings), old(lists.open), labels, e)
              else rings == old(rings) && NoneHasPlace(nodes, rings, old(lists.open), labels)
    {
      hide Xor, Fits, Valid, NoneHasPlace, IsFoundIn, HasNoPlace, IsFirstPlace, NoRepeats;
      NoneTried(nodes, rings, lists.open, labels);
      OpenHead();
      var bi := bheadO;
      var bz := blocks[bheadO].prev;
      ghost var kept, rest := [], lists.open;
      ghost var open, k := lists.open, 0;
      while true
        invariant Valid() && rings == old(rings)
        invariant k < |open| && rest == open[k..] && NoRepeats(rest) && lists.open == kept + rest
        invariant bi == open[k] && bz == open[|open| - 1]
        invariant NoneHasPlace(nodes, rings, open[..k], labels)
        decreases |open| - k
      {
        TailOf(open, k);
        var next;
        found, e, next, kept := TryBlock(bi, labels, kept, rest);
        if found {
          FoundHere(nodes, old(rings), open, k, labels, e);
          return;
        }
        OneMoreTried(nodes, rings, open, k, labels);
        if bi == bz {
          return;
        }
        bi := next;
        rest := rest[1..];
        k := k + 1;
      }
    }

    // _find_place for several children: an open block's place, or else a new block.
    method FindPlaces(labels: seq<nat>) returns (e: nat, ghost grown: bool)
      requires Valid() && |labels| > 1
      modifies this
      ensures Valid() && Grows(old(nodes), old(ninfo), nodes, ninfo, grown)
      ensures BLOCK <= e < |nodes| && |nodes| % BLOCK == 0 && Fits(nodes, Xor(e, labels[0]), labels)
      ensures grown ==> e == |old(nodes)|
      ensures if grown then NoneHasPlace(old(nodes), old(rings), old(lists.open), labels)
              else IsFoundIn(nodes, old(rings), old(lists.open), labels, e)
    {
      hide RingsOk, ListsOk, CountsOk, Placed, Cleared, Xor, Fits, IsFoundIn;
      SizeIs(nodes, rings, blocks);
      OpenHead();
      grown := false;
      if bheadO != 0 {
        var found;
        found, e := SearchOpen(labels);
        if found {
          return;
        }
      }
      var added := AddBlock();
      grown := true;
      e := added * BLOCK;
      NewBlockFits(old(nodes), nodes, e, labels);
    }

    // _pop_enode: a slot for the child of `from` by c. Without a base the node gets
    // one from wherever there is room. mid is the array before the slot is taken.
    method PopEnode(base: int, c: nat, from: nat) returns (e: nat, ghost grown: bool, ghost mid: seq<Node>)
      requires Valid() && c < BLOCK && from < |nodes|
      requires if base < 0 then from != 0 && nodes[from].check >= 0
               else 0 < Xor(base, c) < |nodes| && nodes[Xor(base, c)].check < 0
      modifies this
      ensures Valid() && from < |mid| && 0 < e < |mid|
      ensures if grown then mid == Cleared(old(nodes)) + seq(BLOCK, i => EMPTY) && ninfo == old(ninfo) + seq(BLOCK, i => Ninfo(0, 0))
              else mid == Cleared(old(nodes)) && ninfo == old(ninfo)
      ensures base >= 0 ==> !grown && e == Xor(base, c) && Cleared(nodes) == mid[e := Node(if c != 0 then -1 else 0, from)]
      ensures base < 0 ==> Fits(mid, Xor(e, c), [c]) && Xor(Xor(e, c), c) == e
      ensures base < 0 ==> Cleared(nodes) == mid[e := Node(if c != 0 then -1 else 0, from)][from := mid[from].(base := Xor(e, c))]
    {
      hide RingsOk, ListsOk, CountsOk, Placed, Xor;
      if base < 0 {
        e, grown := FindPlace();
        OnePlace(nodes, e, c);
      } else {
        e, grown := Xor(base, c), false;
      }
      mid := Cleared(nodes);
      Take(e, Node(if c != 0 then -1 else 0, from));
      if base < 0 {
        Write(from, nodes[from].(base := Xor(e, c)));
      }
    }

    // The number of a block is how many of its slots are empty.
    lemma NumCounts(bi: nat)
      requires Valid() && 0 < bi < |blocks|
      ensures blocks[bi].num == |EmptySlots(nodes, bi)|
    {
      assert CountOk(blocks[bi], rings[bi], bi == 0);
      RingDistinct(nodes, rings, bi);
      RingMembers(nodes, rings, bi);
      RingIsSet(nodes, rings, bi);
      DistinctCount(rings[bi]);
    }

    // Every block is in exactly one list, the one that its counts say, and block 0
    // never leaves the first.
    lemma Partition(bi: nat, k: Kind)
      requires Valid() && bi < |blocks|
      ensures bi in lists.Get(k) <==> k == KindOf(bi, blocks[bi].num, blocks[bi].trial, maxTrial)
      ensures 0 in lists.full && 0 !in lists.closed && 0 !in lists.open
    {
      hide RingsOk, CountsOk, IsRing;
      assert PlacedAt(blocks, lists, maxTrial, bi);
      assert 0 in lists.Get(Full) && (0 in lists.Get(Closed) || 0 !in lists.Get(Closed)) && (0 in lists.Get(Open) || 0 !in lists.Get(Open));
    }
  }
}
