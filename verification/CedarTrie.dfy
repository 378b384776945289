// The trie in its slots: follow, resolve with its two relocations, update and find
// (src/cedarpp.h).
module CedarTries {

  import opened Sequences
  import opened Rings
  import opened CedarXors
  import opened CedarSlots
  import opened Cedars
  import opened CedarChains

  // Besides the double array's own invariant.
  ghost predicate Kept(d: Arrays, ni: seq<Ninfo>, paths: map<nat, Path>, o: Order) {
    Chains(d, ni, paths, o) && Based(d, paths)
  }

  lemma FitsCleared(nodes: seq<Node>, base: nat, labels: seq<nat>)
    ensures Fits(Cleared(nodes), base, labels) <==> Fits(nodes, base, labels)
  {
    hide Xor;
  }

  lemma GrownIs(d: Arrays, e: Arrays)
    requires e.nodes == d.nodes + seq(BLOCK, i => EMPTY) && e.kids == d.kids + seq(BLOCK, i => []) && |d.nodes| == |d.kids|
    ensures e == Grown(d) && |e.nodes| == |e.kids| == |d.nodes| + BLOCK
    ensures forall i :: 0 <= i < |d.nodes| ==> e.nodes[i] == d.nodes[i] && e.kids[i] == d.kids[i]
  {
  }

  // What is known of the slots before one child moves.
  lemma MoveReady(d: Arrays, ni: seq<Ninfo>, paths: map<nat, Path>, mv: Moving, o: Order, c: nat, old_: nat, to: nat)
    requires CanMove(d, paths, mv, c, old_, to) && Kept(d, ni, paths, o) && o.from == mv.from
    ensures Relocated(d, paths, mv, c, old_, to) && |d.nodes| == |d.kids| == |ni| && 0 < mv.from < |d.nodes|
    ensures d.nodes[to].check < 0 && d.nodes[old_].check >= 0 && ni[to] == Ninfo(0, 0) && d.nodes[mv.from].check >= 0 && c < BLOCK
    ensures old_ < |d.kids| && (d.nodes[old_].base <= 0 || c == 0 ==> d.kids[old_] == [] && ni[old_].child == 0)
    ensures d.nodes[old_].base > 0 && c != 0 ==>
      d.kids[old_] != [] && ni[old_].child == d.kids[old_][0] && Spells(ni, d.nodes[old_].base, d.kids[old_])
  {
    hide Xor, SlotOk, NodeOk, SibOk, ChildOk;
    MoveFacts(d, paths, mv, c, old_, to);
    NoKids(d, paths, mv, c, old_, to);
    EmptyChain(d, ni, paths, o, old_);
    LastOf(paths[mv.from], paths[old_], c);
    if d.nodes[old_].base > 0 && c != 0 {
      assert BasedOk(d, paths, old_);
      ChainSpells(d, ni, paths, mv, o, old_);
    }
  }

  lemma SpellsNext(ni: seq<Ninfo>, base: nat, labels: seq<nat>, i: nat)
    requires Spells(ni, base, labels) && i < |labels|
    ensures Xor(base, labels[i]) < |ni| && ni[Xor(base, labels[i])].sibling == At(labels, i + 1)
    ensures At(labels, i + 1) == 0 <==> i + 1 == |labels|
  {
    assert ChainStep(ni, base, labels, i);
    assert i + 1 < |labels| ==> ChainStep(ni, base, labels, i + 1);
  }

  lemma SpellsStays(ni: seq<Ninfo>, r: seq<Ninfo>, base: nat, labels: seq<nat>)
    requires Spells(ni, base, labels) && |r| == |ni| && forall g :: g in labels && Xor(base, g) < |ni| ==> r[Xor(base, g)] == ni[Xor(base, g)]
    ensures Spells(r, base, labels)
  {
    forall i | 0 <= i < |labels| ensures ChainStep(r, base, labels, i) {
      assert ChainStep(ni, base, labels, i) && labels[i] in labels;
    }
  }

  // Where the children of the moving child are.
  ghost predicate GrandAt(nodes: seq<Node>, base: nat, to: nat, to_: nat, g: nat) {
    var t := Xor(base, g);
    0 < t < |nodes| && t != to && t != to_ && nodes[t].check >= 0
  }

  lemma GrandKids(d: Arrays, paths: map<nat, Path>, mv: Moving, c: nat, old_: nat, to: nat)
    requires CanMove(d, paths, mv, c, old_, to) && Relocated(d, paths, mv, c, old_, to) && d.nodes[old_].base > 0
    ensures forall g :: g in d.kids[old_] ==> GrandAt(d.nodes, d.nodes[old_].base, to, old_, g)
  {
    hide Xor, SlotOk, NodeOk, Inv;
    forall g | g in d.kids[old_] ensures GrandAt(d.nodes, d.nodes[old_].base, to, old_, g) {
      GrandIn(d, paths, mv, c, old_, to, g);
    }
  }

  lemma GrandIn(d: Arrays, paths: map<nat, Path>, mv: Moving, c: nat, old_: nat, to: nat, g: nat)
    requires Inv(d, paths, mv) && Relocated(d, paths, mv, c, old_, to) && d.nodes[old_].base > 0 && g in d.kids[old_]
    ensures GrandAt(d.nodes, d.nodes[old_].base, to, old_, g)
  {
    hide Xor, SlotOk, NodeOk;
    ChildSlot(d, paths, mv, old_, g);
    var t := Xor(d.nodes[old_].base, g);
    LastOf(paths[old_], paths[t], g);
    InvShape(d, paths, mv);
  }

  // They stay where they are while the slot `to` is taken.
  lemma GrandStays(nodes: seq<Node>, more: seq<Node>, base: nat, to: nat, to_: nat, labels: seq<nat>)
    requires |more| == |nodes| && to < |nodes| && Cleared(more) == Cleared(nodes)[to := more[to]]
    requires forall g :: g in labels ==> GrandAt(nodes, base, to, to_, g)
    ensures forall g :: g in labels ==> GrandAt(more, base, to, to_, g)
  {
    hide Xor;
    forall g | g in labels ensures GrandAt(more, base, to, to_, g) {
      assert GrandAt(nodes, base, to, to_, g);
      assert Cleared(more)[Xor(base, g)] == Cleared(nodes)[Xor(base, g)];
    }
  }

  lemma GrandChain(ni: seq<Ninfo>, r: seq<Ninfo>, nodes: seq<Node>, base: nat, to: nat, to_: nat, labels: seq<nat>)
    requires Spells(ni, base, labels) && to < |ni| == |r| && r == ni[to := r[to]]
    requires forall g :: g in labels ==> GrandAt(nodes, base, to, to_, g)
    ensures Spells(r, base, labels)
  {
    hide Xor, Spells;
    forall g | g in labels && Xor(base, g) < |ni| ensures r[Xor(base, g)] == ni[Xor(base, g)] {
      assert GrandAt(nodes, base, to, to_, g);
    }
    SpellsStays(ni, r, base, labels);
  }

  lemma AddReady(d: Arrays, ni: seq<Ninfo>, paths: map<nat, Path>, mv: Moving, o: Order, f: nat, c: nat, to: nat)
    requires CanAdd(d, paths, mv, f, c, to) && Kept(d, ni, paths, o)
    ensures f in paths && f < |d.nodes| == |d.kids| == |ni| && 0 < to < |d.nodes| && to !in paths && to != f && ni[to] == Ninfo(0, 0)
    ensures d.nodes[to].check < 0 && c < BLOCK && Based(WithChild(d, f, c, to), paths[to := paths[f] + [c]])
  {
    hide Xor, SlotOk, NodeOk;
    FreshSlot(d, ni, paths, mv, o, f, c, to);
    InvShape(d, paths, mv);
    AddedBased(d, paths, f, c, to);
  }

  lemma SetChildStart(labels: seq<nat>, added: int)
    requires labels != []
    ensures [] + labels[0..] == labels && (labels[0] == 0 ==> [] + [0] + labels[1..] == labels)
    ensures added >= 0 ==> InsertLabel(labels, added) == if labels[0] == 0 then [] + [0] + [added] + labels[1..] else [] + [added] + labels[0..]
  {
    assert [0] + labels[1..] == [] + [0] + labels[1..];
  }

  lemma OwnLabels(d: Arrays, paths: map<nat, Path>, from: nat, base_: nat, base: nat, path: Path, all: seq<nat>, k: nat, c: nat)
    requires k < |InsertLabel(all, c)| && OwnInv(d, paths, from, base_, base, path, all, k, c)
    ensures var labels := InsertLabel(all, c);
      && NoRepeats(labels) && NextOf(labels, labels[k]) == At(labels, k + 1) && from != 0 && from < |d.nodes| && d.nodes[from].base == base >= BLOCK
      && (Xor(base_, labels[k]) == Xor(base_, c) <==> labels[k] == c)
      && RestOf(labels, k + 1, c) == RestOf(labels, k, c) - {labels[k]} && (labels[k] == c ==> RestOf(labels, k + 1, c) == RestOf(labels, k, c))
      && Inv(d, paths, Moving(from, base_, RestOf(labels, k, c)))
      && (labels[k] != c ==> base_ >= BLOCK)
  {
    hide Xor, Inv, InsertLabel, NextOf, RestOf;
    InsertLabelContents(all, c);
    var labels := InsertLabel(all, c);
    NextAt(labels, k);
    RestNext(labels, k, c);
    if Xor(base_, labels[k]) == Xor(base_, c) {
      XorLabels(base_, labels[k], c);
    }
    OldBase(d, paths, Moving(from, base_, RestOf(labels, k, c)));
  }

  lemma OldBase(d: Arrays, paths: map<nat, Path>, mv: Moving)
    requires Inv(d, paths, mv)
    ensures mv.rest != {} ==> mv.base >= BLOCK
  {
  }

  lemma WithChildKids(d: Arrays, f: nat, c: nat, to: nat)
    requires f < |d.nodes| == |d.kids| && to < |d.nodes|
    ensures WithChild(d, f, c, to).kids == d.kids[f := InsertLabel(d.kids[f], c)]
  {
  }

  lemma MovedKids(d: Arrays, paths: map<nat, Path>, mv: Moving, c: nat, old_: nat, to: nat)
    requires Relocated(d, paths, mv, c, old_, to)
    ensures |MovedArrays(d, mv.from, old_, to).kids| == |MovedArrays(d, mv.from, old_, to).nodes| == |d.kids|
    ensures mv.from < |d.kids| && MovedArrays(d, mv.from, old_, to).kids[mv.from] == d.kids[mv.from]
  {
  }

  // A moved child, with the slot it left given back.
  lemma MoveKept(d: Arrays, ni: seq<Ninfo>, paths: map<nat, Path>, mv: Moving, o: Order, c: nat, old_: nat, to: nat)
    requires Inv(d, paths, mv) && Relocated(d, paths, mv, c, old_, to) && Kept(d, ni, paths, o) && mv.from == o.from && mv.from != 0
    ensures old_ < |ni| && to < |ni| && old_ in paths && old_ < |d.nodes| == |d.kids| && to < |d.nodes|
    ensures Kept(MovedArrays(d, mv.from, old_, to), MovedInfo(ni, o, c, old_, to), MovedPaths(paths, old_, to), o.(rest := o.rest - {c}))
  {
    hide Inv, Relocated, MovedArrays, MovedPaths, MovedInfo, Chains, Based;
    MoveKeepsChains(d, ni, paths, mv, o, c, old_, to);
    MovedBased(d, paths, mv, c, old_, to);
  }

  lemma KeptSizes(d: Arrays, ni: seq<Ninfo>, paths: map<nat, Path>, o: Order)
    requires Kept(d, ni, paths, o)
    ensures |ni| == |d.nodes| == |d.kids|
  {
  }

  lemma UsedSlot(d: Arrays, paths: map<nat, Path>, mv: Moving, t: nat)
    requires Inv(d, paths, mv) && t in paths
    ensures t < |d.nodes| && (t != 0 ==> d.nodes[t].check >= 0)
  {
  }

  // The chain of a node that is to be relocated.
  lemma ResolveReady(d: Arrays, ni: seq<Ninfo>, paths: map<nat, Path>, f: nat, c: nat)
    requires Inv(d, paths, SETTLED) && Kept(d, ni, paths, STILL) && f in paths && f != 0 && !Terminal(paths[f])
    requires f < |d.nodes| == |d.kids| && d.nodes[f].base >= BLOCK
    ensures f < |ni| && d.kids[f] != [] && ni[f].child == d.kids[f][0] && Spells(ni, d.nodes[f].base, d.kids[f]) && d.nodes[f].check >= 0
    ensures ZeroFirst(d.kids[f]) && (c !in d.kids[f] ==> InsertLabel(d.kids[f], c) != [] && ZeroFirst(InsertLabel(d.kids[f], c)))
  {
    hide Xor, SlotOk, HasPath, SibOk, Shape;
    assert BasedOk(d, paths, f) && ChildOk(d, ni, STILL, f) && NodeOk(d, paths, f);
    ChainSpells(d, ni, paths, SETTLED, STILL, f);
    UsedSlot(d, paths, SETTLED, f);
    if c !in d.kids[f] {
      InsertNext(d.kids[f], c, c);
    }
  }

  lemma OwnBase(d: Arrays, paths: map<nat, Path>, from: nat, base: nat, base_: nat, all: seq<nat>, c: nat)
    requires Inv(d, paths, SETTLED) && from in paths && from != 0 && !Terminal(paths[from]) && c < BLOCK && from < |d.nodes| == |d.kids| && c !in d.kids[from]
    requires Fits(d.nodes, base, InsertLabel(all, c)) && d.nodes[from].base == base_ >= BLOCK && d.kids[from] == all
    ensures OwnInv(Rebased(d, from, base), paths, from, base_, base, paths[from], all, 0, c) && BLOCK <= base < |d.nodes|
    ensures View(Rebased(d, from, base), paths) == View(d, paths) && RestOf(InsertLabel(all, c), 0, c) == LabelSet(all)
    ensures c !in InsertLabel(all, c)[..0]
  {
    hide Inv, Xor, InsertLabel, OwnInv, View;
    OwnStart(d, paths, from, base, c);
    NodeFacts(d, paths, from);
    RestAll(all, c);
  }

  lemma OwnKept(d: Arrays, ni: seq<Ninfo>, paths: map<nat, Path>, from: nat, labels: seq<nat>, c: int)
    requires Kept(d, ni, paths, Order(from, RestOf(labels, |labels|, c), labels)) && from < |d.kids| && d.kids[from] == labels
    ensures Kept(d, ni, paths, STILL)
  {
    hide Chains, Based;
    assert RestOf(labels, |labels|, c) == {};
    FinishChains(d, ni, paths, Order(from, RestOf(labels, |labels|, c), labels));
  }

  lemma ReuseReady(d: Arrays, ni: seq<Ninfo>, paths: map<nat, Path>, mv: Moving, o: Order, f: nat, c: nat, slot: nat)
    requires CanAdd(d, paths, mv, f, c, slot) && Kept(d, ni, paths, o) && (f == mv.from ==> mv.rest == {}) && f != 0 && f != o.from
    ensures f in paths && f < |d.nodes| == |d.kids| == |ni| && 0 < slot < |d.nodes| && slot != f && d.nodes[f].base >= 0 && ni[slot] == Ninfo(0, 0)
    ensures slot == Xor(d.nodes[f].base, c) && Xor(d.nodes[f].base, 0) < |ni| && (ni[f].child == 0 ==> Xor(d.nodes[f].base, 0) != slot)
    ensures Chains(WithChild(d, f, c, slot), Pushed(ni, f, d.nodes[f].base, c, true), paths[slot := paths[f] + [c]], o)
    ensures Based(WithChild(d, f, c, slot), paths[slot := paths[f] + [c]])
  {
    hide Xor, Inv, Chains, Pushed, InsertLabel, Terminal;
    AddReady(d, ni, paths, mv, o, f, c, slot);
    assert BasedOk(d, paths, f);
    PushKeepsChains(d, ni, paths, mv, o, f, c, slot, true);
    FrontSlot(d, ni, paths, mv, o, f, c, slot, true);
  }

  // Writing the slot's info before it is reset comes to the same.
  lemma ReuseInfo(ni: seq<Ninfo>, clear: seq<Ninfo>, f: nat, base: nat, c: nat, slot: nat)
    requires f < |ni| && slot < |ni| && clear == ni[slot := Ninfo(0, 0)] && slot == Xor(base, c) && Xor(base, 0) < |ni| && slot != f
    requires ni[f].child == 0 ==> Xor(base, 0) != slot
    ensures var r := Pushed(ni, f, base, c, true); r[slot := r[slot].(child := 0)] == Pushed(clear, f, base, c, true)
  {
    hide Xor;
  }

  lemma ReuseIs(d: Arrays, was: seq<Node>, now: seq<Node>, kids: seq<seq<nat>>, f: nat, c: nat, slot: nat)
    requires f < |d.nodes| == |d.kids| && slot < |d.nodes| == |was| && d.nodes == was[slot := EMPTY]
    requires now == was[slot := Node(if c != 0 then -1 else 0, f)] && kids == d.kids[f := InsertLabel(d.kids[f], c)]
    ensures Arrays(now, kids) == WithChild(d, f, c, slot)
  {
    hide InsertLabel;
  }

  lemma OtherLabels(d: Arrays, paths: map<nat, Path>, job: Other, fromN: nat, k: nat)
    requires k < |job.all| && OtherInv(d, paths, job, fromN, k)
    ensures NextOf(job.all, job.all[k]) == At(job.all, k + 1) && job.from != 0 && job.from < |d.nodes| && d.nodes[job.from].base == job.base >= BLOCK
    ensures RestOf(job.all, k + 1, -1) == RestOf(job.all, k, -1) - {job.all[k]}
    ensures Inv(d, paths, Moving(job.from, job.base_, RestOf(job.all, k, -1))) && job.base_ >= BLOCK
    ensures fromN < |d.nodes| && fromN != job.from
  {
    hide Xor, Inv, NextOf, RestOf;
    NextAt(job.all, k);
    RestNext(job.all, k, -1);
    OldBase(d, paths, Moving(job.from, job.base_, RestOf(job.all, k, -1)));
  }

  lemma OtherMine(d: Arrays, paths: map<nat, Path>, job: Other, fromN: nat, k: nat)
    requires OtherMoved(d, paths, job, fromN, k) && job.all[k] == job.mine
    ensures job.mine !in job.all[..k]
  {
    hide Xor, RestOf, Inv;
  }

  // The node that gets the new child, when the slot has become free.
  lemma OtherReuse(d: Arrays, paths: map<nat, Path>, job: Other, fromN: nat, k: nat)
    requires OtherMoved(d, paths, job, fromN, k)
    ensures fromN < |d.nodes| == |d.kids| && fromN != job.from && fromN != 0 && d.nodes[fromN].base == job.baseN && 0 < job.slot < |d.nodes|
  {
    hide Xor, RestOf;
    assert NodeOk(d, paths, fromN);
  }

  lemma OtherNode(d: Arrays, paths: map<nat, Path>, fromP: nat, fromN: nat, c: nat, slot: nat)
    requires Inv(d, paths, SETTLED) && OtherCase(d, paths, fromP, fromN, c, slot)
    ensures fromN in paths && fromN != 0 && fromN < |d.nodes| && fromP < |d.nodes| == |d.kids| && !Terminal(paths[fromN])
    ensures d.nodes[fromN].base >= BLOCK && slot < |d.nodes| && c < BLOCK && slot == Xor(d.nodes[fromN].base, c)
  {
    hide Xor;
    NonRoot(d, paths, fromN);
  }

  lemma OtherBase(d: Arrays, paths: map<nat, Path>, fromP: nat, fromN: nat, c: nat, slot: nat, base: nat, labels: seq<nat>) returns (job: Other)
    requires Inv(d, paths, SETTLED) && OtherCase(d, paths, fromP, fromN, c, slot) && fromP < |d.kids| && d.kids[fromP] == labels && Fits(d.nodes, base, labels)
    ensures fromN in paths && job.pathN == paths[fromN] && job.c == c && job.slot == slot && job.from == fromP
    ensures fromP < |d.nodes| && job.base_ == d.nodes[fromP].base && job.all == labels && BLOCK <= base < |d.nodes|
    ensures OtherInv(Rebased(d, fromP, base), paths, job, fromN, 0) && View(Rebased(d, fromP, base), paths) == View(d, paths)
    ensures RestOf(labels, 0, -1) == LabelSet(labels) && job.mine !in labels[..0]
  {
    hide Inv, OtherCase, Xor, OtherInv, View;
    OtherNode(d, paths, fromP, fromN, c, slot);
    job := OtherStart(d, paths, fromP, fromN, c, slot, base);
    RestIsAll(labels);
  }

  // Before the new child's slot is taken: the array, grown perhaps, and with a base.
  lemma NewChildReady(d: Arrays, ni: seq<Ninfo>, mi: seq<Ninfo>, paths: map<nat, Path>, f: nat, c: nat, base: int, to: nat, grown: bool, mid: seq<Node>)
    returns (e: Arrays)
    requires Inv(d, paths, SETTLED) && Kept(d, ni, paths, STILL) && f in paths && !Terminal(paths[f]) && c < BLOCK
    requires f < |d.nodes| == |d.kids| && f < |mid| && to < |mid| && d.nodes[f].base == base
    requires if grown then mid == d.nodes + seq(BLOCK, i => EMPTY) && mi == ni + seq(BLOCK, i => Ninfo(0, 0)) else mid == d.nodes && mi == ni
    requires if base < 0 then f != 0 && d.kids[f] == [] && Fits(mid, Xor(to, c), [c]) && Xor(Xor(to, c), c) == to
             else !grown && to == Xor(base, c) && CanAdd(d, paths, SETTLED, f, c, to)
    ensures f < |e.nodes| == |e.kids| && CanAdd(e, paths, SETTLED, f, c, to) && View(e, paths) == View(d, paths)
    ensures Chains(e, mi, paths, STILL) && (base >= 0 || e.kids[f] == []) && (base < 0 ==> f != 0)
    ensures e.nodes == if base < 0 then mid[f := mid[f].(base := Xor(to, c))] else mid
    ensures forall g :: g in paths ==> g < |e.nodes| && (g == f || BasedOk(e, paths, g))
    ensures base >= 0 ==> f == 0 || e.kids[f] != []
    ensures e.nodes[f].base == if base < 0 then Xor(to, c) else base
  {
    hide Xor, Inv, View, Chains, CanAdd, Terminal;
    e := d;
    if grown {
      GrowKeeps(d, paths);
      GrowKeepsChains(d, ni, paths);
      e := Grown(d);
    }
    assert Based(e, paths);
    assert BasedOk(e, paths, f);
    if base < 0 {
      FreshBase(e, paths, f, Xor(to, c), c);
      RebasedChains(e, mi, paths, STILL, f, Xor(to, c));
      ghost var was := e;
      e := Rebased(e, f, Xor(to, c));
      forall g | g in paths && g != f ensures g < |e.nodes| && BasedOk(e, paths, g) {
        assert BasedOk(was, paths, g);
      }
    }
  }

  // What _push_sibling needs.
  lemma ChildReady(e: Arrays, ni: seq<Ninfo>, paths: map<nat, Path>, f: nat, c: nat, to: nat, flag: bool)
    requires CanAdd(e, paths, SETTLED, f, c, to) && Chains(e, ni, paths, STILL) && f < |e.kids| && flag == (f == 0 || e.kids[f] != [])
    requires f == 0 ==> c != 0
    ensures CanPush(e, ni, paths, SETTLED, STILL, f, c, to, flag)
    ensures f < |ni| == |e.nodes| && to < |ni| && e.nodes[f].base >= 0 && to == Xor(e.nodes[f].base, c) && (flag ==> Xor(e.nodes[f].base, 0) < |ni|)
    ensures Xor(Xor(to, c), c) == to && Xor(to, c) == e.nodes[f].base && f in paths && to !in paths && f != to
  {
    hide Chains, Xor, Inv;
    PushKeepsChains(e, ni, paths, SETTLED, STILL, f, c, to, flag);
    XorFacts(e.nodes[f].base, c);
  }

  lemma NewChildKept(e: Arrays, ni: seq<Ninfo>, paths: map<nat, Path>, f: nat, c: nat, to: nat, flag: bool)
    requires CanPush(e, ni, paths, SETTLED, STILL, f, c, to, flag) && f in paths && f < |e.nodes| == |e.kids| == |ni| && to < |e.nodes|
    requires e.nodes[f].base >= 0 && to == Xor(e.nodes[f].base, c) && (flag ==> Xor(e.nodes[f].base, 0) < |ni|) && (f == 0 ==> c != 0)
    requires forall g :: g in paths ==> g < |e.nodes| && (g == f || BasedOk(e, paths, g))
    ensures var d, more := WithChild(e, f, c, to), paths[to := paths[f] + [c]];
      && Inv(d, more, SETTLED) && Kept(d, Pushed(ni, f, e.nodes[f].base, c, flag), more, STILL)
      && View(d, more) == View(e, paths)[paths[f] + [c] := 0] && paths[f] + [c] !in View(e, paths)
  {
    hide Xor, Inv, View, Chains, Pushed, InsertLabel;
    PushKeepsChains(e, ni, paths, SETTLED, STILL, f, c, to, flag);
    AddChild(e, paths, SETTLED, f, c, to);
    AddedView(e, paths, SETTLED, f, c, to);
    CanAddOpen(e, paths, SETTLED, f, c, to);
    AddedBased(e, paths, f, c, to);
  }

  lemma CanAddOpen(d: Arrays, paths: map<nat, Path>, mv: Moving, f: nat, c: nat, to: nat)
    requires CanAdd(d, paths, mv, f, c, to)
    ensures f in paths && !Terminal(paths[f]) && to !in paths
  {
  }

  lemma NewChildIs(e: Arrays, now: seq<Node>, kids: seq<seq<nat>>, f: nat, c: nat, to: nat)
    requires f < |e.nodes| == |e.kids| && to < |e.nodes| && to != f
    requires now == e.nodes[to := Node(if c != 0 then -1 else 0, f)] && kids == e.kids[f := InsertLabel(e.kids[f], c)]
    ensures Arrays(now, kids) == WithChild(e, f, c, to)
  {
    hide InsertLabel;
  }

  class Cedar {
    const slots: Slots
    // The lists of children that the chains spell, and the bytes that lead to each
    // used slot.
    ghost var kids: seq<seq<nat>>
    ghost var paths: map<nat, Path>

    ghost function D(): Arrays
      reads this, slots
    {
      Arrays(Cleared(slots.nodes), kids)
    }

    ghost predicate Valid()
      reads this, slots
    {
      slots.Valid() && Inv(D(), paths, SETTLED) && Kept(D(), slots.ninfo, paths, STILL)
    }

    ghost function Contents(): map<Path, int>
      reads this, slots
    {
      View(D(), paths)
    }

    constructor (maxTrial: nat)
      requires maxTrial > 0
      ensures Valid() && fresh(slots) && Contents() == map[[] := 0]
    {
      slots := new Slots(maxTrial);
      kids := seq(BLOCK, i => []);
      paths := map[0 := []];
      new;
      InitialInv();
      InitialKept();
    }

    // Where the children with these labels go.
    method NewBase(labels: seq<nat>) returns (base: nat)
      requires Valid() && labels != []
      modifies `kids, slots
      ensures Valid() && Contents() == old(Contents()) && |D().nodes| == |D().kids| >= |old(D()).nodes| == |old(D()).kids|
      ensures forall i :: 0 <= i < |old(D()).nodes| ==> D().nodes[i] == old(D()).nodes[i] && D().kids[i] == old(D()).kids[i]
      ensures Fits(D().nodes, base, labels)
    {
      hide Fits, View, Inv, Chains, Based, Xor, Grown, Slots.Valid, Cleared;
      InvShape(D(), paths, SETTLED);
      hide Shape;
      var e;
      ghost var grown;
      if |labels| == 1 {
        e, grown := slots.FindPlace();
        OnePlace(slots.nodes, e, labels[0]);
        assert labels == [labels[0]];
      } else {
        e, grown := slots.FindPlaces(labels);
        FitsCleared(slots.nodes, Xor(e, labels[0]), labels);
      }
      base := Xor(e, labels[0]);
      if grown {
        GrowKeeps(old(D()), paths);
        GrowKeepsChains(old(D()), old(slots.ninfo), paths);
        kids := kids + seq(BLOCK, i => []);
        GrownIs(old(D()), D());
      } else {
        assert D() == old(D());
      }
    }

    // _push_sibling
    method PushSibling(f: nat, base: nat, c: nat, flag: bool)
      requires slots.Valid() && f < |slots.ninfo| && Xor(base, c) < |slots.ninfo| && (flag ==> Xor(base, 0) < |slots.ninfo|)
      modifies slots`ninfo
      ensures slots.Valid() && slots.ninfo == Pushed(old(slots.ninfo), f, base, c, flag)
    {
      hide Xor, Slots.Valid;
      var to := Xor(base, c);
      if flag && slots.ninfo[f].child == 0 {
        var s := Xor(base, 0);
        slots.WriteInfo(to, slots.ninfo[to].(sibling := slots.ninfo[s].sibling));
        slots.WriteInfo(s, slots.ninfo[s].(sibling := c));
      } else {
        slots.WriteInfo(to, slots.ninfo[to].(sibling := slots.ninfo[f].child));
        slots.WriteInfo(f, slots.ninfo[f].(child := c));
      }
    }

    // The children of the node in slot `to`, along their chain, name it as their
    // parent.
    method AdoptKids(to: nat, ghost labels: seq<nat>)
      requires slots.Valid() && 0 < to < |slots.nodes| && slots.nodes[to].check >= 0 && slots.nodes[to].base > 0
      requires to < |slots.ninfo| && labels != [] && slots.ninfo[to].child == labels[0] && Spells(slots.ninfo, slots.nodes[to].base, labels)
      requires forall g :: g in labels ==>
        var t := Xor(slots.nodes[to].base, g); 0 < t < |slots.nodes| && t != to && slots.nodes[t].check >= 0
      modifies slots`nodes
      ensures slots.Valid() && |slots.nodes| == |old(slots.nodes)| && slots.nodes[to] == old(slots.nodes)[to]
      ensures forall t: nat :: t < |slots.nodes| && t != to ==>
        slots.nodes[t] == if AtBase(labels, slots.nodes[to].base, t) then Node(old(slots.nodes)[t].base, to) else old(slots.nodes)[t]
    {
      hide Xor, AtBase, Slots.Valid, Cleared;
      AtBaseNone(slots.nodes[to].base);
      var c := slots.ninfo[to].child;
      ghost var i := 0;
      while true
        invariant slots.Valid() && i < |labels| && c == labels[i] && |slots.nodes| == |old(slots.nodes)| && slots.nodes[to] == old(slots.nodes)[to]
        invariant forall t: nat :: t < |slots.nodes| ==> (slots.nodes[t].check >= 0 <==> old(slots.nodes)[t].check >= 0)
        invariant forall t: nat :: t < |slots.nodes| && t != to ==>
          slots.nodes[t] == if AtBase(labels[..i], slots.nodes[to].base, t) then Node(old(slots.nodes)[t].base, to) else old(slots.nodes)[t]
        decreases |labels| - i
      {
        assert c in labels;
        AtBaseNext(labels, slots.nodes[to].base, i);
        var grandchild := Xor(slots.nodes[to].base, c);
        SpellsNext(slots.ninfo, slots.nodes[to].base, labels, i);
        slots.Write(grandchild, slots.nodes[grandchild].(check := to));
        c := slots.ninfo[grandchild].sibling;
        if c == 0 {
          assert labels[..i + 1] == labels;
          break;
        }
        i := i + 1;
      }
    }

    // The child in slot `to` takes over the children of the one in to_.
    method TakeKids(to: nat, to_: nat, c: nat, ghost labels: seq<nat>)
      requires slots.Valid() && 0 < to < |slots.nodes| && to_ < |slots.nodes| && to != to_ && slots.nodes[to].check >= 0
      requires |slots.ninfo| == |slots.nodes| && slots.nodes[to].base == slots.nodes[to_].base
      requires slots.nodes[to].base > 0 && c != 0 ==>
        && labels != [] && slots.ninfo[to_].child == labels[0] && Spells(slots.ninfo, slots.nodes[to].base, labels)
        && forall g :: g in labels ==> GrandAt(slots.nodes, slots.nodes[to].base, to, to_, g)
      modifies slots`nodes, slots`ninfo
      ensures slots.Valid() && |slots.nodes| == |old(slots.nodes)| && slots.nodes[to] == old(slots.nodes)[to]
      ensures slots.ninfo == if slots.nodes[to].base > 0 && c != 0
                             then old(slots.ninfo)[to := Ninfo(old(slots.ninfo)[to].sibling, old(slots.ninfo)[to_].child)] else old(slots.ninfo)
      ensures forall t: nat :: t < |slots.nodes| && t != to ==>
        slots.nodes[t] == if slots.nodes[to].base > 0 && c != 0 && AtBase(labels, slots.nodes[to].base, t) then Node(old(slots.nodes)[t].base, to)
                          else old(slots.nodes)[t]
    {
      hide Xor, AtBase, Slots.Valid, Spells;
      if slots.nodes[to].base > 0 && c != 0 {
        ghost var was := slots.ninfo;
        slots.WriteInfo(to, slots.ninfo[to].(child := slots.ninfo[to_].child));
        SpellsStays(was, slots.ninfo, slots.nodes[to].base, labels);
        AdoptKids(to, labels);
      }
    }

    // One child's slot is taken at the node's present base: its value or base, its
    // chain and its own children's checks go there. The slot it had is still used.
    method MoveChild(from: nat, base_: nat, c: nat, next: nat, ghost mv: Moving, ghost o: Order) returns (to: nat, to_: nat)
      requires slots.Valid() && Kept(D(), slots.ninfo, paths, o) && mv.from == o.from == from && mv.base == base_
      requires from < |D().nodes| && D().nodes[from].base >= BLOCK && next == NextOf(o.labels, c)
      requires CanMove(D(), paths, mv, c, Xor(base_, c), Xor(D().nodes[from].base, c))
      modifies this, slots
      ensures slots.Valid() && to == Xor(old(D()).nodes[from].base, c) && to_ == Xor(base_, c)
      ensures Relocated(old(D()), old(paths), mv, c, to_, to)
      ensures paths == MovedPaths(old(paths), to_, to) && kids == MovedArrays(old(D()), from, to_, to).kids
      ensures to_ < |D().nodes| && slots.nodes[to_].check >= 0 && D().nodes[to_ := EMPTY] == MovedArrays(old(D()), from, to_, to).nodes
      ensures to_ < |slots.ninfo| == |old(slots.ninfo)| == |slots.nodes| && to < |slots.ninfo|
      ensures slots.ninfo[to_ := Ninfo(0, 0)] == MovedInfo(old(slots.ninfo), o, c, to_, to)
    {
      hide Inv, Xor, NodeOk, SlotOk, View, MovedArrays, MovedPaths, Shape, AtBase, Slots.Valid, Kept, Spells, CanMove, NextOf, GrandAt;
      ghost var d, ni := D(), slots.ninfo;
      to_ := Xor(base_, c);
      MoveReady(d, slots.ninfo, paths, mv, o, c, to_, Xor(slots.nodes[from].base, c));
      to := TakeSlot(from, c, next, to_);
      if d.nodes[to_].base > 0 && c != 0 {
        GrandKids(d, paths, mv, c, to_, to);
        GrandStays(d.nodes, slots.nodes, d.nodes[to_].base, to, to_, kids[to_]);
        GrandChain(ni, slots.ninfo, d.nodes, d.nodes[to_].base, to, to_, kids[to_]);
      }
      TakeKids(to, to_, c, kids[to_]);
      GrandChildren(d, paths, mv, c, to_, to);
      paths := MovedPaths(paths, to_, to);
      kids := kids[to := kids[to_]][to_ := []];
      MovedIs(d, from, to_, to, Arrays(D().nodes[to_ := EMPTY], kids));
    }

    // The slot for a child at the present base of its parent, before it has children.
    method TakeSlot(from: nat, c: nat, next: nat, to_: nat) returns (to: nat)
      requires slots.Valid() && c < BLOCK && from < |slots.nodes| == |slots.ninfo| && slots.nodes[from].base >= 0 && to_ < |slots.nodes|
      requires 0 < Xor(slots.nodes[from].base, c) < |slots.nodes| && slots.nodes[Xor(slots.nodes[from].base, c)].check < 0
      requires slots.nodes[to_].check >= 0 && slots.ninfo[Xor(slots.nodes[from].base, c)] == Ninfo(0, 0)
      modifies slots
      ensures slots.Valid() && to == Xor(old(slots.nodes)[from].base, c) && to < |old(slots.nodes)| == |slots.nodes|
      ensures slots.nodes[to] == Node(old(slots.nodes)[to_].base, from) && slots.ninfo == old(slots.ninfo)[to := Ninfo(next, 0)]
      ensures Cleared(slots.nodes) == Cleared(old(slots.nodes))[to := slots.nodes[to]]
    {
      hide Xor, Slots.Valid;
      ghost var grown, mid;
      to, grown, mid := slots.PopEnode(slots.nodes[from].base, c, from);
      assert slots.nodes[to_] == Cleared(slots.nodes)[to_];
      slots.WriteInfo(to, slots.ninfo[to].(sibling := next));
      slots.Write(to, slots.nodes[to].(base := slots.nodes[to_].base));
    }

    // _set_child: a node's labels in order, and a new one behind the terminal's 0.
    method SetChild(base: nat, first: nat, added: int, ghost labels: seq<nat>) returns (p: seq<nat>)
      requires slots.Valid() && Spells(slots.ninfo, base, labels) && first == labels[0]
      ensures p == if added < 0 then labels else InsertLabel(labels, added)
    {
      SpellsNext(slots.ninfo, base, labels, 0);
      hide Xor, Spells, Slots.Valid, InsertLabel;
      SetChildStart(labels, added);
      p := [];
      var c := first;
      ghost var i := 0;
      if c == 0 {
        p := p + [c];
        c := slots.ninfo[Xor(base, c)].sibling;
        i := 1;
      }
      if added >= 0 {
        p := p + [added];
      }
      p := AppendChain(p, base, c, labels, i);
    }

    // The labels of a chain from c on.
    method AppendChain(head: seq<nat>, base: nat, first: nat, ghost labels: seq<nat>, ghost start: nat) returns (p: seq<nat>)
      requires Spells(slots.ninfo, base, labels) && start <= |labels| && first == At(labels, start) && (first == 0 <==> start == |labels|)
      ensures p == head + labels[start..]
    {
      hide Xor, Spells;
      p := head;
      var c := first;
      ghost var i := start;
      while c != 0
        invariant start <= i <= |labels| && c == At(labels, i) && (c == 0 <==> i == |labels|) && p == head + labels[start..i]
        decreases |labels| - i
      {
        SpellsNext(slots.ninfo, base, labels, i);
        assert labels[start..i + 1] == labels[start..i] + [c];
        p := p + [c];
        c := slots.ninfo[Xor(base, c)].sibling;
        i := i + 1;
      }
      assert labels[start..i] == labels[start..];
    }

    // _consult: both chains at once; whether the second node has more children.
    method Consult(baseN: nat, baseP: nat, firstN: nat, firstP: nat, ghost labelsN: seq<nat>, ghost labelsP: seq<nat>) returns (more: bool)
      requires Spells(slots.ninfo, baseN, labelsN) && firstN == labelsN[0]
      requires Spells(slots.ninfo, baseP, labelsP) && firstP == labelsP[0]
      ensures more <==> |labelsP| > |labelsN|
    {
      assert labelsN != [] && labelsP != [];
      hide Xor, Spells;
      var c, d := firstN, firstP;
      ghost var i := 0;
      while true
        invariant i < |labelsN| && i < |labelsP| && c == labelsN[i] && d == labelsP[i]
        decreases |labelsN| - i
      {
        SpellsNext(slots.ninfo, baseN, labelsN, i);
        SpellsNext(slots.ninfo, baseP, labelsP, i);
        c, d := slots.ninfo[Xor(baseN, c)].sibling, slots.ninfo[Xor(baseP, d)].sibling;
        if c == 0 || d == 0 {
          break;
        }
        i := i + 1;
      }
      more := d != 0;
    }

    // The slot of the new child, chained to the next label.
    method TakeNew(from: nat, c: nat, next: nat, ghost mv: Moving, ghost o: Order) returns (to: nat)
      requires slots.Valid() && Kept(D(), slots.ninfo, paths, o) && from == o.from && from != 0 && from < |D().nodes|
      requires D().nodes[from].base >= 0 && CanAdd(D(), paths, mv, from, c, Xor(D().nodes[from].base, c)) && next == NextOf(o.labels, c)
      modifies this, slots
      ensures slots.Valid() && to == Xor(old(D()).nodes[from].base, c) && from in old(paths)
      ensures from < |old(D()).nodes| == |old(D()).kids| && to < |old(D()).nodes|
      ensures D() == WithChild(old(D()), from, c, to) && paths == old(paths)[to := old(paths)[from] + [c]]
      ensures Kept(D(), slots.ninfo, paths, o)
    {
      hide Xor, Inv, Chains, Based, Slots.Valid, NextOf, InsertLabel;
      ghost var d, ni, at := D(), slots.ninfo, Xor(slots.nodes[from].base, c);
      AddReady(d, ni, paths, mv, o, from, c, at);
      OwnKeepsChains(d, ni, paths, mv, o, from, c, at);
      ghost var grown, mid;
      to, grown, mid := slots.PopEnode(slots.nodes[from].base, c, from);
      slots.WriteInfo(to, slots.ninfo[to].(sibling := next));
      kids := kids[from := InsertLabel(kids[from], c)];
      paths := paths[to := paths[from] + [c]];
    }

    // One turn of the relocation of the node that gets the new child: the new
    // child's slot, or an old child moves and its slot is given back.
    method OwnTurn(from: nat, base_: nat, base: nat, labels: seq<nat>, k: nat, c: nat, slot: nat,
                   ghost path: Path, ghost all: seq<nat>, ghost m: map<Path, int>)
      requires labels == InsertLabel(all, c) && k < |labels| && slot == Xor(base_, c) && slots.Valid()
      requires OwnInv(D(), paths, from, base_, base, path, all, k, c)
      requires Kept(D(), slots.ninfo, paths, Order(from, RestOf(labels, k, c), labels))
      requires View(D(), paths) == if c in labels[..k] then m[path + [c] := 0] else m
      requires from < |kids| && kids[from] == if c in labels[..k] then labels else all
      modifies this, slots
      ensures slots.Valid() && OwnInv(D(), paths, from, base_, base, path, all, k + 1, c)
      ensures Kept(D(), slots.ninfo, paths, Order(from, RestOf(labels, k + 1, c), labels))
      ensures View(D(), paths) == if c in labels[..k + 1] then m[path + [c] := 0] else m
      ensures from < |kids| && kids[from] == if c in labels[..k + 1] then labels else all
    {
      hide Xor, View, InsertLabel, CanMove, CanAdd, OwnInv, Inv, WithChild, MovedArrays, MovedPaths, Relocated, RestOf, Kept, Slots.Valid, NextOf, MovedInfo;
      ghost var mv, o := Moving(from, base_, RestOf(labels, k, c)), Order(from, RestOf(labels, k, c), labels);
      OwnLabels(D(), paths, from, base_, base, path, all, k, c);
      var next := if k + 1 < |labels| then labels[k + 1] else 0;
      if Xor(base_, labels[k]) == slot {
        OwnAdd(D(), paths, from, base_, base, path, all, k, c);
        var to := TakeNew(from, c, next, mv, o);
        WithChildKids(old(D()), from, c, to);
      } else {
        OwnMove(D(), paths, from, base_, base, path, all, k, c);
        ghost var d, ni, was := D(), slots.ninfo, paths;
        var to, to_ := MoveChild(from, base_, labels[k], next, mv, o);
        MoveKept(d, ni, was, mv, o, labels[k], to_, to);
        MovedKids(d, was, mv, labels[k], to_, to);
        UpperBlock(base_, labels[k]);
        slots.PushEnode(to_);
      }
    }

    // The base changes, and the first child is the new one if that comes first. All
    // children are still to be moved.
    method Rebase(from: nat, base: nat, first: nat, ghost labels: seq<nat>)
      requires Valid() && from in paths && from != 0 && from < |D().nodes| && !Terminal(paths[from]) && BLOCK <= base < |D().nodes|
      requires from < |kids| && kids[from] != [] && from < |slots.ninfo| && ZeroFirst(labels) && first == At(labels, 0)
      modifies slots
      ensures slots.Valid() && D() == Rebased(old(D()), from, base)
      ensures Kept(D(), slots.ninfo, paths, Order(from, LabelSet(kids[from]), labels))
    {
      ghost var d, ni := D(), slots.ninfo;
      hide Inv, Chains, Based, Slots.Valid;
      NodeFacts(d, paths, from);
      UsedSlot(d, paths, SETTLED, from);
      StartChains(d, ni, paths, from, base, labels);
      RebasedBased(d, paths, from, base);
      slots.WriteInfo(from, slots.ninfo[from].(child := first));
      slots.Write(from, slots.nodes[from].(base := base));
    }

    // Relocation of the node that gets the new child: all its children, and the new
    // one among them, go to a new base.
    method ResolveOwn(from: nat, c: nat) returns (to: nat)
      requires Valid() && from in paths && from < |D().nodes| == |kids| && from != 0 && !Terminal(paths[from])
      requires c < BLOCK && c !in kids[from] && D().nodes[from].base >= BLOCK
      modifies this, slots
      ensures Valid() && from in paths && paths[from] == old(paths)[from]
      ensures to in paths && paths[to] == old(paths)[from] + [c]
      ensures Contents() == old(Contents())[old(paths)[from] + [c] := 0]
    {
      hide Xor, View, Shape, InsertLabel, HasPath, OwnInv, Inv, RestOf, Fits, Kept, Slots.Valid, LabelSet, ZeroFirst, Spells;
      ghost var all, path, m := kids[from], paths[from], View(D(), paths);
      ResolveReady(D(), slots.ninfo, paths, from, c);
      var base_ := slots.nodes[from].base;
      var labels := SetChild(base_, slots.ninfo[from].child, c, all);
      var base := NewBase(labels);
      OwnBase(D(), paths, from, base, base_, all, c);
      KeptSizes(D(), slots.ninfo, paths, STILL);
      Rebase(from, base, labels[0], labels);
      var k := 0;
      while k < |labels|
        invariant slots.Valid() && k <= |labels| && OwnInv(D(), paths, from, base_, base, path, all, k, c)
        invariant Kept(D(), slots.ninfo, paths, Order(from, RestOf(labels, k, c), labels))
        invariant View(D(), paths) == if c in labels[..k] then m[path + [c] := 0] else m
        invariant from < |kids| && kids[from] == if c in labels[..k] then labels else all
      {
        OwnTurn(from, base_, base, labels, k, c, Xor(base_, c), path, all, m);
        k := k + 1;
      }
      OwnFinish(D(), paths, from, base_, base, path, all, c);
      OwnKept(D(), slots.ninfo, paths, from, labels, c);
      to := Xor(base, c);
    }

    // A child in a slot that another node's child has just left.
    method ReuseSlot(f: nat, base: nat, c: nat, slot: nat, ghost d: Arrays, ghost ni: seq<Ninfo>, ghost was: map<nat, Path>, ghost mv: Moving, ghost o: Order)
      requires slots.Valid() && 0 < slot < |slots.nodes| == |slots.ninfo| && slots.nodes[slot].check >= 0
      requires |d.nodes| == |slots.nodes| && d.nodes == Cleared(slots.nodes)[slot := EMPTY] && ni == slots.ninfo[slot := Ninfo(0, 0)]
      requires d.kids == kids && was == paths
      requires CanAdd(d, was, mv, f, c, slot) && Kept(d, ni, was, o) && (f == mv.from ==> mv.rest == {}) && f != 0 && f != o.from
      requires f < |d.nodes| && d.nodes[f].base == base
      modifies this, slots
      ensures slots.Valid() && f in was && f < |d.nodes| == |d.kids| && D() == WithChild(d, f, c, slot) && paths == was[slot := was[f] + [c]]
      ensures Kept(D(), slots.ninfo, paths, o)
    {
      hide Xor, Inv, Chains, Based, Slots.Valid, InsertLabel, Pushed, Cleared, WithChild;
      ReuseReady(d, ni, was, mv, o, f, c, slot);
      ReuseInfo(slots.ninfo, ni, f, base, c, slot);
      PushSibling(f, base, c, true);
      slots.WriteInfo(slot, slots.ninfo[slot].(child := 0));
      slots.Write(slot, Node(if c != 0 then -1 else 0, f));
      kids := kids[f := InsertLabel(kids[f], c)];
      paths := paths[slot := paths[f] + [c]];
      ReuseIs(d, Cleared(old(slots.nodes)), Cleared(slots.nodes), kids, f, c, slot);
    }

    // One turn of the other relocation: a child of fromP moves; if it is the node
    // that gets the new child, that node has moved; if it leaves the slot in dispute,
    // the new child is put there at once, and otherwise its slot is given back.
    method OtherTurn(fromP: nat, base_: nat, fromN: nat, c: nat, slot: nat, labels: seq<nat>, k: nat, ghost job: Other, ghost m: map<Path, int>)
      returns (fromN': nat)
      requires k < |labels| && labels == job.all && slots.Valid() && OtherInv(D(), paths, job, fromN, k)
      requires Kept(D(), slots.ninfo, paths, Order(fromP, RestOf(labels, k, -1), labels))
      requires job.from == fromP && job.base_ == base_ && job.c == c && job.slot == slot
      requires View(D(), paths) == if job.mine in labels[..k] then m[job.pathN + [c] := 0] else m
      requires fromP < |kids| && kids[fromP] == labels
      modifies this, slots
      ensures slots.Valid() && OtherInv(D(), paths, job, fromN', k + 1)
      ensures Kept(D(), slots.ninfo, paths, Order(fromP, RestOf(labels, k + 1, -1), labels))
      ensures View(D(), paths) == if job.mine in labels[..k + 1] then m[job.pathN + [c] := 0] else m
      ensures fromP < |kids| && kids[fromP] == labels
    {
      hide Xor, View, CanMove, OtherInv, Inv, MovedArrays, MovedPaths, Relocated, RestOf, OtherMoved;
      hide Kept, Slots.Valid, NextOf, MovedInfo, OtherShape;
      ghost var mv, o := Moving(fromP, base_, RestOf(labels, k, -1)), Order(fromP, RestOf(labels, k, -1), labels);
      ghost var d, ni, was := D(), slots.ninfo, paths;
      OtherLabels(d, was, job, fromN, k);
      OtherCanMove(d, was, job, fromN, k);
      OtherMoves(d, was, job, fromN, k);
      var next := if k + 1 < |labels| then labels[k + 1] else 0;
      var to, to_ := MoveChild(fromP, base_, labels[k], next, mv, o);
      MoveKept(d, ni, was, mv, o, labels[k], to_, to);
      MovedKids(d, was, mv, labels[k], to_, to);
      fromN' := if to_ == fromN then to else fromN;
      UpperBlock(base_, labels[k]);
      OtherLeave(fromP, fromN', c, slot, to_, labels, k, job, m, MovedArrays(d, fromP, to_, to));
    }

    // The slot that the moved child has left.
    method OtherLeave(fromP: nat, fromN: nat, c: nat, slot: nat, to_: nat, labels: seq<nat>, k: nat, ghost job: Other, ghost m: map<Path, int>, ghost e: Arrays)
      requires k < |labels| && labels == job.all && slots.Valid() && OtherMoved(e, paths, job, fromN, k)
      requires BLOCK <= to_ < |D().nodes| == |slots.ninfo| && slots.nodes[to_].check >= 0 && e == Arrays(D().nodes[to_ := EMPTY], kids)
      requires Kept(e, slots.ninfo[to_ := Ninfo(0, 0)], paths, Order(fromP, RestOf(labels, k + 1, -1), labels))
      requires job.from == fromP && job.c == c && job.slot == slot && (to_ == slot <==> labels[k] == job.mine)
      requires View(e, paths) == if job.mine in labels[..k] then m[job.pathN + [c] := 0] else m
      requires fromP < |kids| && kids[fromP] == labels
      modifies this, slots
      ensures slots.Valid() && OtherInv(D(), paths, job, fromN, k + 1)
      ensures Kept(D(), slots.ninfo, paths, Order(fromP, RestOf(labels, k + 1, -1), labels))
      ensures View(D(), paths) == if job.mine in labels[..k + 1] then m[job.pathN + [c] := 0] else m
      ensures fromP < |kids| && kids[fromP] == labels
    {
      hide Xor, View, InsertLabel, CanAdd, OtherInv, Inv, WithChild, RestOf, OtherMoved, Kept, Slots.Valid;
      TakeNext(labels, k, job.mine);
      if to_ == slot {
        OtherAdd(e, paths, job, fromN, k);
        OtherReuse(e, paths, job, fromN, k);
        OtherMine(e, paths, job, fromN, k);
        ReuseSlot(fromN, slots.nodes[fromN].base, c, slot, e, slots.ninfo[slot := Ninfo(0, 0)], paths,
                  Moving(fromP, job.base_, RestOf(labels, k + 1, -1)), Order(fromP, RestOf(labels, k + 1, -1), labels));
        WithChildKids(e, fromN, c, slot);
      } else {
        slots.PushEnode(to_);
        OtherStay(e, paths, job, fromN, k);
      }
    }

    // Relocation of the node whose child is in the way.
    method ResolveOther(fromP: nat, fromN: nat, c: nat, slot: nat) returns (fromN': nat)
      requires Valid() && fromP < |kids| == |D().nodes| && OtherCase(D(), paths, fromP, fromN, c, slot)
      modifies this, slots
      ensures Valid() && fromN in old(paths) && fromN' in paths && paths[fromN'] == old(paths)[fromN]
      ensures slot in paths && paths[slot] == old(paths)[fromN] + [c]
      ensures Contents() == old(Contents())[old(paths)[fromN] + [c] := 0]
    {
      hide Xor, View, Shape, HasPath, OtherInv, Inv, RestOf, Fits, OtherCase, Kept, Slots.Valid, Spells, ZeroFirst, LabelSet;
      ghost var m, before := View(D(), paths), D();
      ghost var mine := OtherCaseFacts(before, paths, fromP, fromN, c, slot);
      OtherNode(before, paths, fromP, fromN, c, slot);
      ResolveReady(before, slots.ninfo, paths, fromP, 0);
      var labels := SetChild(slots.nodes[fromP].base, slots.ninfo[fromP].child, -1, kids[fromP]);
      var base_ := slots.nodes[fromP].base;
      var base := NewBase(labels);
      OtherCaseStays(before, D(), paths, fromP, fromN, c, slot);
      ghost var job := OtherBase(D(), paths, fromP, fromN, c, slot, base, labels);
      KeptSizes(D(), slots.ninfo, paths, STILL);
      Rebase(fromP, base, labels[0], labels);
      var k := 0;
      fromN' := fromN;
      while k < |labels|
        invariant slots.Valid() && k <= |labels| && labels == job.all && OtherInv(D(), paths, job, fromN', k)
        invariant Kept(D(), slots.ninfo, paths, Order(fromP, RestOf(labels, k, -1), labels))
        invariant View(D(), paths) == if job.mine in labels[..k] then m[job.pathN + [c] := 0] else m
        invariant fromP < |kids| && kids[fromP] == labels
      {
        fromN' := OtherTurn(fromP, base_, fromN', c, slot, labels, k, job, m);
        k := k + 1;
      }
      OtherFinish(D(), paths, job, fromN');
      OwnKept(D(), slots.ninfo, paths, fromP, labels, -1);
    }

    // _resolve: the node with fewer children moves; on a tie the other one.
    method Resolve(fromN: nat, c: nat) returns (fromN': nat, to: nat)
      requires Valid() && fromN < |D().nodes| == |kids| && D().nodes[fromN].base >= BLOCK && Xor(D().nodes[fromN].base, c) < |D().nodes|
      requires 0 <= D().nodes[Xor(D().nodes[fromN].base, c)].check < |D().nodes|
      requires OtherCase(D(), paths, D().nodes[Xor(D().nodes[fromN].base, c)].check, fromN, c, Xor(D().nodes[fromN].base, c))
      modifies this, slots
      ensures Valid() && fromN in old(paths) && fromN' in paths && paths[fromN'] == old(paths)[fromN]
      ensures to in paths && paths[to] == old(paths)[fromN] + [c]
      ensures Contents() == old(Contents())[old(paths)[fromN] + [c] := 0]
    {
      hide Xor, Inv, View, OtherCase, Kept, Slots.Valid, Spells, ZeroFirst, InsertLabel, NoRepeats, Terminal;
      var slot := Xor(slots.nodes[fromN].base, c);
      var fromP := slots.nodes[slot].check;
      ghost var mine := OtherCaseFacts(D(), paths, fromP, fromN, c, slot);
      OtherNode(D(), paths, fromP, fromN, c, slot);
      ResolveReady(D(), slots.ninfo, paths, fromN, c);
      ResolveReady(D(), slots.ninfo, paths, fromP, 0);
      var more := Consult(slots.nodes[fromN].base, slots.nodes[fromP].base, slots.ninfo[fromN].child, slots.ninfo[fromP].child, kids[fromN], kids[fromP]);
      if more {
        to := ResolveOwn(fromN, c);
        fromN' := fromN;
      } else {
        fromN' := ResolveOther(fromP, fromN, c, slot);
        to := slot;
      }
    }

    // _follow where there is nothing yet: _pop_enode and _push_sibling. A node
    // without a base gets one.
    method NewChild(from: nat, c: nat) returns (to: nat)
      requires Valid() && from in paths && from < |D().nodes| == |kids| && !Terminal(paths[from]) && c < BLOCK && (from == 0 ==> c != 0)
      requires if D().nodes[from].base < 0 then from != 0 && kids[from] == []
               else CanAdd(D(), paths, SETTLED, from, c, Xor(D().nodes[from].base, c))
      modifies this, slots
      ensures Valid() && from in old(paths) && from in paths && paths[from] == old(paths)[from]
      ensures to in paths && paths[to] == old(paths)[from] + [c]
      ensures old(paths)[from] + [c] !in old(Contents()) && Contents() == old(Contents())[old(paths)[from] + [c] := 0]
    {
      hide Xor, Inv, View, Kept, Slots.Valid, CanAdd, Grown, Rebased, InsertLabel, WithChild, Fits, Pushed, CanPush, Terminal;
      ghost var d, ni, was := D(), slots.ninfo, paths;
      KeptSizes(d, ni, was, STILL);
      UsedSlot(d, was, SETTLED, from);
      var base := slots.nodes[from].base;
      if base >= 0 {
        AddReady(d, ni, was, SETTLED, STILL, from, c, Xor(base, c));
      }
      ghost var grown, mid;
      to, grown, mid := slots.PopEnode(base, c, from);
      ghost var e := NewChildReady(d, ni, slots.ninfo, was, from, c, base, to, grown, mid);
      ChildReady(e, slots.ninfo, was, from, c, to, base >= 0);
      ghost var mi := slots.ninfo;
      PushSibling(from, Xor(to, c), c, base >= 0);
      kids := e.kids[from := InsertLabel(e.kids[from], c)];
      paths := paths[to := paths[from] + [c]];
      NewChildKept(e, mi, was, from, c, to, base >= 0);
      NewChildIs(e, Cleared(slots.nodes), kids, from, c, to);
    }

    // _follow: the child by c, created if need be. The node may move meanwhile.
    method Follow(from: nat, c: nat) returns (from': nat, to: nat)
      requires Valid() && from in paths && !Terminal(paths[from]) && c < BLOCK && (from == 0 ==> c != 0)
      modifies this, slots
      ensures Valid() && from' in paths && paths[from'] == old(paths)[from]
      ensures to in paths && paths[to] == old(paths)[from] + [c]
      ensures Contents() == Added(old(Contents()), old(paths)[from] + [c])
    {
      hide Xor, Inv, View, Terminal, CanAdd, OtherCase, Kept, Slots.Valid;
      FollowFacts(D(), paths, from, c);
      UsedSlot(D(), paths, SETTLED, from);
      from' := from;
      var base := slots.nodes[from].base;
      if base < 0 || slots.nodes[Xor(base, c)].check < 0 {
        to := NewChild(from, c);
      } else {
        to := Xor(base, c);
        if slots.nodes[to].check != from {
          from', to := Resolve(from, c);
        }
      }
    }

    // update on the nodes of the trie: the key's bytes, then the terminal. The value
    // is added to what is there, 0 for a new key.
    method Update(key: seq<nat>, val: int) returns (value: int)
      requires Valid() && IsKey(key)
      modifies this, slots
      ensures Valid() && Contents() == Stored(old(Contents()), key, val) && value == Contents()[key + [0]]
    {
      hide Xor, Inv, View, Terminal, Kept, Slots.Valid;
      RootStored(D(), paths);
      ghost var m := Contents();
      var from, pos := 0, 0;
      assert key[..0] == [];
      while pos < |key|
        invariant pos <= |key| && Valid() && from in paths && paths[from] == key[..pos]
        invariant Contents() == WithPrefixes(m, key, pos) && from in paths && (from == 0 ==> pos == 0)
      {
        ByteIsOpen(key, pos);
        var from', to := Follow(from, key[pos]);
        assert key[..pos + 1] == key[..pos] + [key[pos]];
        RootPath(D(), paths, to);
        from := to;
        pos := pos + 1;
      }
      assert key[..pos] == key;
      ByteIsOpen(key, pos);
      var from', to := Follow(from, 0);
      value := AddValue(to, key, val);
    }

    // The value of the key whose closing 0 has this slot.
    method AddValue(to: nat, key: seq<nat>, val: int) returns (value: int)
      requires Valid() && to in paths && paths[to] == key + [0]
      modifies slots
      ensures Valid() && key + [0] in old(Contents()) && key + [0] in Contents() && value == Contents()[key + [0]]
      ensures Contents() == old(Contents())[key + [0] := old(Contents())[key + [0]] + val]
    {
      hide Xor, Inv, View, Slots.Valid, Chains, Based;
      ghost var d := D();
      SetValueKeeps(d, paths, to, key, val);
      RootPath(d, paths, to);
      UsedSlot(d, paths, SETTLED, to);
      KeptSizes(d, slots.ninfo, paths, STILL);
      RebasedChains(d, slots.ninfo, paths, STILL, to, d.nodes[to].base + val);
      LastOf(key, paths[to], 0);
      RebasedBased(d, paths, to, d.nodes[to].base + val);
      slots.Write(to, slots.nodes[to].(base := slots.nodes[to].base + val));
      assert D() == Rebased(d, to, d.nodes[to].base + val);
      value := slots.nodes[to].base;
    }

    // _find on the nodes of the trie.
    method Find(key: seq<nat>) returns (r: Lookup)
      requires Valid() && forall i :: 0 <= i < |key| ==> 0 < key[i] < BLOCK
      ensures r == LookupIn(Contents(), key)
    {
      hide Xor, Inv, View, Terminal, HasPath, Kept, Slots.Valid;
      RootStored(D(), paths);
      var from: nat, pos: nat := 0, 0;
      assert key[..0] == [];
      while slots.nodes[from].base >= 0
        invariant pos <= |key| && from in paths && from < |D().nodes| == |kids| && paths[from] == key[..pos] && (from == 0 ==> pos == 0)
        invariant from < |slots.nodes| && slots.nodes[from] == D().nodes[from]
        decreases |key| - pos
      {
        ByteIsOpen(key, pos);
        if pos == |key| {
          assert key[..pos] == key;
          EndFacts(D(), paths, from, key);
          var n := slots.nodes[slots.nodes[from].base];
          return if n.check != from then NoValue else Value(n.base);
        }
        StepFacts(D(), paths, from, key, pos);
        var to: nat := Xor(slots.nodes[from].base, key[pos]);
        if slots.nodes[to].check != from {
          return NoPath;
        }
        pos := pos + 1;
        from := to;
      }
      ByteIsOpen(key, pos);
      LeafFacts(D(), paths, from, key, pos);
      r := if pos < |key| then NoPath else NoValue;
    }
  }

  // A run of updates of an empty trie, and a search after it: every key has the sum of
  // what was added for it, a prefix of one has no value, and nothing else has a path.
  method Run(maxTrial: nat, run: seq<Insertion>, key: seq<nat>) returns (r: Lookup)
    requires maxTrial > 0 && (forall i :: 0 <= i < |run| ==> IsKey(run[i].key)) && IsKey(key)
    ensures r == LookupIn(AfterAll(run), key)
    ensures Inserted(run, key) ==> r == Value(Total(run, key))
    ensures !Inserted(run, key) ==> r == if Begun(run, key) then NoValue else NoPath
  {
    hide Stored, LookupIn, IsKey, Cedar.Valid, Cedar.Contents;
    EveryKeyIsFound(run, key);
    var trie := new Cedar(maxTrial);
    var i := 0;
    while i < |run|
      invariant i <= |run| && trie.Valid() && fresh(trie) && fresh(trie.slots) && trie.Contents() == AfterAll(run[..i])
    {
      assert run[..i + 1][..i] == run[..i];
      var value := trie.Update(run[i].key, run[i].val);
      i := i + 1;
    }
    assert run[..i] == run;
    IsKeyBytes(key);
    r := trie.Find(key);
  }

  lemma IsKeyBytes(key: seq<nat>)
    requires IsKey(key)
    ensures forall i :: 0 <= i < |key| ==> 0 < key[i] < BLOCK
  {
  }
}
