// The chains of siblings: each node knows its first child's label, each child the
// next one's (_ninfo in src/cedarpp.h). They spell the lists of children.
module CedarChains {

  import opened Sequences
  import opened Rings
  import opened CedarXors
  import opened CedarSlots
  import opened Cedars

  // The label at a place of a chain; 0 behind the end.
  function At(labels: seq<nat>, i: nat): nat {
    if i < |labels| then labels[i] else 0
  }

  // The label that follows c.
  function NextOf(labels: seq<nat>, c: nat): nat {
    if labels == [] then 0 else if labels[0] == c then At(labels, 1) else NextOf(labels[1..], c)
  }

  // Only the first label of a chain may be 0.
  predicate ZeroFirst(labels: seq<nat>) {
    forall i :: 0 < i < |labels| ==> labels[i] != 0
  }

  lemma {:induction false} NextAt(labels: seq<nat>, i: nat)
    requires NoRepeats(labels) && i < |labels|
    ensures NextOf(labels, labels[i]) == At(labels, i + 1)
  {
    if i > 0 {
      NextAt(labels[1..], i - 1);
    }
  }

  // What a new label changes.
  lemma InsertNext(labels: seq<nat>, c: nat, x: nat)
    requires NoRepeats(labels) && ZeroFirst(labels) && c !in labels
    ensures ZeroFirst(InsertLabel(labels, c))
    ensures x != c && !(x == 0 && 0 in labels) ==> NextOf(InsertLabel(labels, c), x) == NextOf(labels, x)
    ensures At(labels, 0) == 0 && labels != [] ==>
      NextOf(InsertLabel(labels, c), 0) == c && NextOf(InsertLabel(labels, c), c) == NextOf(labels, 0) && At(InsertLabel(labels, c), 0) == 0
    ensures At(labels, 0) != 0 || labels == [] ==>
      NextOf(InsertLabel(labels, c), c) == At(labels, 0) && At(InsertLabel(labels, c), 0) == c && 0 !in labels
  {
    var r := InsertLabel(labels, c);
    if labels != [] && labels[0] == 0 {
      assert r[1..] == [c] + labels[1..] && r[1..][1..] == labels[1..];
      assert At(r, 1) == c && At(r[1..], 1) == At(labels, 1);
      assert NextOf(r, x) == if x == 0 then c else NextOf(r[1..], x);
      assert NextOf(r[1..], x) == if x == c then At(labels, 1) else NextOf(labels[1..], x);
      assert 0 in labels;
    } else {
      assert r[1..] == labels && At(r, 1) == At(labels, 0);
    }
  }

  // During a relocation the children of `from` that have been moved are chained by
  // these labels; those still to be moved have no chain.
  datatype Order = Order(from: nat, rest: set<nat>, labels: seq<nat>)

  const STILL := Order(0, {}, [])

  function Labels(d: Arrays, o: Order, f: nat): seq<nat>
    requires f < |d.kids|
  {
    if f == o.from && f != 0 then o.labels else d.kids[f]
  }

  // The chain behind slot t. Slot 0 stands in front of the root's children.
  ghost predicate SibOk(d: Arrays, ni: seq<Ninfo>, paths: map<nat, Path>, o: Order, t: nat)
    requires t in paths && t < |d.nodes| == |d.kids| == |ni|
  {
    if t == 0 then ni[0].sibling == At(d.kids[0], 0)
    else
      var f, p := d.nodes[t].check, paths[t];
      && 0 <= f < |d.nodes| && p != []
      && ((f == o.from && p[|p| - 1] in o.rest) || ni[t].sibling == NextOf(Labels(d, o, f), p[|p| - 1]))
  }

  ghost predicate ChildOk(d: Arrays, ni: seq<Ninfo>, o: Order, f: nat)
    requires f < |d.nodes| == |d.kids| == |ni|
  {
    && ni[f].child == (if f == 0 then 0 else At(Labels(d, o, f), 0))
    && ZeroFirst(Labels(d, o, f)) && (f == 0 ==> 0 !in d.kids[0])
  }

  ghost predicate Sizes(d: Arrays, ni: seq<Ninfo>, paths: map<nat, Path>) {
    0 < |d.nodes| == |d.kids| == |ni| && 0 in paths && forall t :: t in paths ==> t < |d.nodes|
  }

  // The chains spell the lists of children, and empty slots have none.
  ghost predicate Chains(d: Arrays, ni: seq<Ninfo>, paths: map<nat, Path>, o: Order) {
    && Sizes(d, ni, paths) && o.from in paths
    && (forall t :: t in paths ==> SibOk(d, ni, paths, o, t))
    && (forall f :: f in paths ==> ChildOk(d, ni, o, f))
    && (forall t: nat :: t < |ni| && t !in paths ==> ni[t] == Ninfo(0, 0))
  }

  ghost predicate BasedOk(d: Arrays, paths: map<nat, Path>, f: nat)
    requires f in paths && f < |d.nodes| == |d.kids|
  {
    f != 0 && !Terminal(paths[f]) && d.nodes[f].base >= 0 ==> d.kids[f] != []
  }

  // A node with a base has children, except for the root.
  ghost predicate Based(d: Arrays, paths: map<nat, Path>) {
    |d.nodes| == |d.kids| && forall f :: f in paths ==> f < |d.nodes| && BasedOk(d, paths, f)
  }

  // ----- A new child -----

  // _push_sibling: behind the terminal, or else in front.
  function Pushed(ni: seq<Ninfo>, f: nat, base: nat, c: nat, flag: bool): (r: seq<Ninfo>)
    requires f < |ni| && Xor(base, c) < |ni| && (flag ==> Xor(base, 0) < |ni|)
    ensures |r| == |ni|
  {
    var to := Xor(base, c);
    if flag && ni[f].child == 0 then
      var s := Xor(base, 0);
      ni[to := ni[to].(sibling := ni[s].sibling)][s := ni[to := ni[to].(sibling := ni[s].sibling)][s].(sibling := c)]
    else
      ni[to := ni[to].(sibling := ni[f].child)][f := ni[to := ni[to].(sibling := ni[f].child)][f].(child := c)]
  }

  ghost predicate CanPush(d: Arrays, ni: seq<Ninfo>, paths: map<nat, Path>, mv: Moving, o: Order, f: nat, c: nat, to: nat, flag: bool) {
    && CanAdd(d, paths, mv, f, c, to) && Chains(d, ni, paths, o) && (f == mv.from ==> mv.rest == {})
    && (f == 0 || f != o.from) && flag == (f == 0 || d.kids[f] != [])
  }

  // The slot in front of the place for the new label, when it is not the first.
  lemma FrontSlot(d: Arrays, ni: seq<Ninfo>, paths: map<nat, Path>, mv: Moving, o: Order, f: nat, c: nat, to: nat, flag: bool)
    requires CanPush(d, ni, paths, mv, o, f, c, to, flag) && flag
    ensures ni[f].child == 0 <==> f == 0 || d.kids[f][0] == 0
    ensures var s := Xor(d.nodes[f].base, 0);
      s < |ni| && (ni[f].child == 0 ==> s in paths && s != to && (if f == 0 then s == 0 else s != 0 && d.nodes[s].check == f && paths[s] == paths[f] + [0]))
  {
    hide Xor, SlotOk, SibOk, HasPath, NoRepeats;
    assert NodeOk(d, paths, f) && ChildOk(d, ni, o, f);
    InvShape(d, paths, mv);
    XorZero(d.nodes[f].base, 0);
    if f != 0 && d.kids[f][0] == 0 {
      assert 0 in d.kids[f];
      ChildSlot(d, paths, mv, f, 0);
    }
  }

  predicate InFront(ni: seq<Ninfo>, f: nat, flag: bool)
    requires f < |ni|
  {
    flag && ni[f].child == 0
  }

  lemma PushedValues(ni: seq<Ninfo>, f: nat, base: nat, c: nat, flag: bool, t: nat)
    requires f < |ni| && t < |ni| && Xor(base, c) < |ni| && (flag ==> Xor(base, 0) < |ni|) && Xor(base, c) != f
    requires InFront(ni, f, flag) ==> Xor(base, 0) != Xor(base, c)
    ensures var r, to, s := Pushed(ni, f, base, c, flag), Xor(base, c), if flag then Xor(base, 0) else 0;
      && r[t].sibling == (if t == to then if InFront(ni, f, flag) then ni[s].sibling else ni[f].child
                          else if InFront(ni, f, flag) && t == s then c else ni[t].sibling)
      && r[t].child == if !InFront(ni, f, flag) && t == f then c else ni[t].child
  {
    hide Xor;
  }

  // What the slots around the new label's place tell of the list so far.
  ghost predicate PushReady(ni: seq<Ninfo>, labels: seq<nat>, f: nat, base: nat, c: nat, flag: bool) {
    && f < |ni| && 0 < Xor(base, c) < |ni| && (flag ==> Xor(base, 0) < |ni|) && Xor(base, c) != f
    && NoRepeats(labels) && c !in labels && ZeroFirst(labels) && (f == 0 ==> 0 !in labels)
    && ni[Xor(base, c)] == Ninfo(0, 0) && ni[f].child == (if f == 0 then 0 else At(labels, 0))
    && (InFront(ni, f, flag) <==> f == 0 || (labels != [] && labels[0] == 0))
    && (f == 0 ==> ni[0].sibling == At(labels, 0))
    && (InFront(ni, f, flag) ==> Xor(base, 0) != Xor(base, c))
    && (InFront(ni, f, flag) && f == 0 ==> Xor(base, 0) == 0)
    && (InFront(ni, f, flag) && f != 0 ==> Xor(base, 0) != 0 && ni[Xor(base, 0)].sibling == NextOf(labels, 0))
  }

  lemma PushedChain(ni: seq<Ninfo>, labels: seq<nat>, f: nat, base: nat, c: nat, flag: bool)
    requires PushReady(ni, labels, f, base, c, flag)
    ensures var r, to, more := Pushed(ni, f, base, c, flag), Xor(base, c), InsertLabel(labels, c);
      && r[to] == Ninfo(NextOf(more, c), 0) && r[f].child == (if f == 0 then 0 else At(more, 0))
      && r[0].sibling == (if f == 0 then At(more, 0) else ni[0].sibling)
      && (InFront(ni, f, flag) && f != 0 ==> r[Xor(base, 0)].sibling == NextOf(more, 0))
      && ZeroFirst(more) && (f == 0 && c != 0 ==> 0 !in more)
  {
    hide Xor, Pushed, NextOf, NoRepeats;
    PushedValues(ni, f, base, c, flag, Xor(base, c));
    PushedValues(ni, f, base, c, flag, f);
    PushedValues(ni, f, base, c, flag, 0);
    InsertNext(labels, c, c);
    InsertLabelContents(labels, c);
    if InFront(ni, f, flag) {
      PushedValues(ni, f, base, c, flag, Xor(base, 0));
    }
    assert labels != [] ==> labels[0] in labels;
  }

  lemma PushFacts(d: Arrays, ni: seq<Ninfo>, paths: map<nat, Path>, mv: Moving, o: Order, f: nat, c: nat, to: nat, flag: bool)
    requires CanPush(d, ni, paths, mv, o, f, c, to, flag)
    ensures f < |d.nodes| == |d.kids| == |ni| && f in paths && to < |ni| && to != f && to != 0 && to !in paths
    ensures d.nodes[f].base >= 0 && to == Xor(d.nodes[f].base, c) && PushReady(ni, d.kids[f], f, d.nodes[f].base, c, flag)
    ensures InFront(ni, f, flag) && f != 0 ==>
      var s := Xor(d.nodes[f].base, 0);
      s in paths && d.nodes[s].check == f && paths[s] == paths[f] + [0]
  {
    hide Xor, SlotOk, HasPath;
    assert NodeOk(d, paths, f) && ChildOk(d, ni, o, f) && SibOk(d, ni, paths, o, 0);
    InvShape(d, paths, mv);
    hide NoRepeats, NodeOk;
    if flag {
      FrontSlot(d, ni, paths, mv, o, f, c, to, flag);
      if f != 0 && ni[f].child == 0 {
        var s := Xor(d.nodes[f].base, 0);
        assert SibOk(d, ni, paths, o, s);
        LastOf(paths[f], paths[s], 0);
      }
    }
  }

  // The chain at the new slot, and behind slot 0. hd is the list with the new label.
  lemma NewSib(d: Arrays, r: seq<Ninfo>, paths: map<nat, Path>, o: Order, f: nat, c: nat, to: nat)
    requires f < |d.nodes| == |d.kids| == |r| && 0 < to < |r| && f in paths && to != f && (f == 0 || f != o.from)
    requires r[to].sibling == NextOf(InsertLabel(d.kids[f], c), c)
    ensures SibOk(WithChild(d, f, c, to), r, paths[to := paths[f] + [c]], o, to)
  {
    hide InsertLabel, NextOf;
    LastOf(paths[f], paths[f] + [c], c);
  }

  lemma RootSib(d: Arrays, ni: seq<Ninfo>, r: seq<Ninfo>, paths: map<nat, Path>, o: Order, f: nat, c: nat, to: nat)
    requires 0 in paths && f < |d.nodes| == |d.kids| == |ni| == |r| && to < |r| && f in paths && SibOk(d, ni, paths, o, 0)
    requires r[0].sibling == if f == 0 then At(InsertLabel(d.kids[f], c), 0) else ni[0].sibling
    ensures SibOk(WithChild(d, f, c, to), r, paths[to := paths[f] + [c]], o, 0)
  {
    hide InsertLabel, At;
  }

  // What the nodes tell of their first child.
  lemma ChildStill(d: Arrays, ni: seq<Ninfo>, r: seq<Ninfo>, o: Order, f: nat, c: nat, to: nat, g: nat)
    requires f < |d.nodes| == |d.kids| == |ni| == |r| && to < |r| && g < |r| && to != 0 && to != f && to != o.from
    requires (f == 0 || f != o.from) && d.kids[to] == [] && (g != to ==> ChildOk(d, ni, o, g))
    requires r[g].child == if g == to then 0 else if g == f && f != 0 then At(InsertLabel(d.kids[f], c), 0) else ni[g].child
    requires ZeroFirst(InsertLabel(d.kids[f], c)) && (f == 0 ==> 0 !in InsertLabel(d.kids[f], c))
    ensures ChildOk(WithChild(d, f, c, to), r, o, g)
  {
    hide InsertLabel;
  }

  lemma PushedChild(d: Arrays, ni: seq<Ninfo>, paths: map<nat, Path>, mv: Moving, o: Order, f: nat, c: nat, to: nat, flag: bool, g: nat)
    requires CanPush(d, ni, paths, mv, o, f, c, to, flag) && (g in paths || g == to) && (f == 0 ==> c != 0)
    requires f < |d.nodes| == |d.kids| == |ni| && f in paths && to < |d.nodes| && g < |d.nodes| && d.nodes[f].base >= 0
    requires PushReady(ni, d.kids[f], f, d.nodes[f].base, c, flag) && d.kids[to] == [] && (g != to ==> ChildOk(d, ni, o, g))
    ensures ChildOk(WithChild(d, f, c, to), Pushed(ni, f, d.nodes[f].base, c, flag), o, g)
  {
    PushFacts(d, ni, paths, mv, o, f, c, to, flag);
    assert o.from in paths && (f == 0 || f != o.from);
    hide CanPush, Xor, Pushed, InsertLabel, NextOf, ChildOk, ZeroFirst;
    PushedChain(ni, d.kids[f], f, d.nodes[f].base, c, flag);
    PushedValues(ni, f, d.nodes[f].base, c, flag, g);
    ChildStill(d, ni, Pushed(ni, f, d.nodes[f].base, c, flag), o, f, c, to, g);
  }

  lemma PushedFree(d: Arrays, ni: seq<Ninfo>, paths: map<nat, Path>, mv: Moving, o: Order, f: nat, c: nat, to: nat, flag: bool, t: nat)
    requires CanPush(d, ni, paths, mv, o, f, c, to, flag) && t !in paths && t != to && t < |ni|
    requires f < |d.nodes| == |d.kids| == |ni| && f in paths && to < |d.nodes| && d.nodes[f].base >= 0
    requires PushReady(ni, d.kids[f], f, d.nodes[f].base, c, flag)
    ensures Pushed(ni, f, d.nodes[f].base, c, flag)[t] == Ninfo(0, 0)
  {
    hide Xor, Pushed, Inv;
    PushFacts(d, ni, paths, mv, o, f, c, to, flag);
    PushedValues(ni, f, d.nodes[f].base, c, flag, t);
    assert Chains(d, ni, paths, o) && 0 in paths;
  }

  // _push_sibling keeps the chains: they spell the lists with the new label.
  lemma PushKeepsChains(d: Arrays, ni: seq<Ninfo>, paths: map<nat, Path>, mv: Moving, o: Order, f: nat, c: nat, to: nat, flag: bool)
    requires CanPush(d, ni, paths, mv, o, f, c, to, flag) && (f == 0 ==> c != 0)
    ensures f < |d.nodes| == |d.kids| == |ni| && f in paths && to < |d.nodes| && d.nodes[f].base >= 0
    ensures to == Xor(d.nodes[f].base, c) && (flag ==> Xor(d.nodes[f].base, 0) < |ni|)
    ensures Chains(WithChild(d, f, c, to), Pushed(ni, f, d.nodes[f].base, c, flag), paths[to := paths[f] + [c]], o)
  {
    hide CanPush, Xor, Pushed, SibOk, ChildOk, WithChild;
    PushFacts(d, ni, paths, mv, o, f, c, to, flag);
    PushChains(d, ni, paths, mv, o, f, c, to, flag);
    PushedChain(ni, d.kids[f], f, d.nodes[f].base, c, flag);
    assert PushReady(ni, d.kids[f], f, d.nodes[f].base, c, flag);
    hide PushReady;
    var e, r, more := WithChild(d, f, c, to), Pushed(ni, f, d.nodes[f].base, c, flag), paths[to := paths[f] + [c]];
    WithChildSize(d, f, c, to);
    forall t | t in more ensures SibOk(e, r, more, o, t) {
      if t == to {
        NewSib(d, r, paths, o, f, c, to);
      } else if t == 0 {
        RootSib(d, ni, r, paths, o, f, c, to);
      } else {
        PushedOld(d, ni, paths, mv, o, f, c, to, flag, t);
      }
    }
    forall g | g in more ensures ChildOk(e, r, o, g) {
      PushedChild(d, ni, paths, mv, o, f, c, to, flag, g);
    }
    forall t: nat | t < |r| && t !in more ensures r[t] == Ninfo(0, 0) {
      PushedFree(d, ni, paths, mv, o, f, c, to, flag, t);
    }
  }

  lemma WithChildSize(d: Arrays, f: nat, c: nat, to: nat)
    requires f < |d.nodes| == |d.kids| && to < |d.nodes|
    ensures |WithChild(d, f, c, to).nodes| == |WithChild(d, f, c, to).kids| == |d.nodes|
  {
  }

  lemma PushChains(d: Arrays, ni: seq<Ninfo>, paths: map<nat, Path>, mv: Moving, o: Order, f: nat, c: nat, to: nat, flag: bool)
    requires CanPush(d, ni, paths, mv, o, f, c, to, flag)
    ensures Chains(d, ni, paths, o) && (f == 0 || f != o.from) && to < |d.kids| && d.kids[to] == []
  {
  }

  // The chain at another child.
  lemma PushedOld(d: Arrays, ni: seq<Ninfo>, paths: map<nat, Path>, mv: Moving, o: Order, f: nat, c: nat, to: nat, flag: bool, t: nat)
    requires CanPush(d, ni, paths, mv, o, f, c, to, flag) && t in paths && t != 0
    requires f < |d.nodes| == |d.kids| == |ni| && f in paths && to < |d.nodes| && t < |d.nodes| && d.nodes[f].base >= 0
    requires PushReady(ni, d.kids[f], f, d.nodes[f].base, c, flag)
    ensures SibOk(WithChild(d, f, c, to), Pushed(ni, f, d.nodes[f].base, c, flag), paths[to := paths[f] + [c]], o, t)
  {
    hide Xor, Pushed, InsertLabel, NextOf, SlotOk, NodeOk, HasPath, NoRepeats, ZeroFirst, Shape;
    PushFacts(d, ni, paths, mv, o, f, c, to, flag);
    PushedChain(ni, d.kids[f], f, d.nodes[f].base, c, flag);
    SlotListed(d, paths, mv, t);
    assert SibOk(d, ni, paths, o, t);
    PushedValues(ni, f, d.nodes[f].base, c, flag, t);
    var x := paths[t][|paths[t]| - 1];
    InsertNext(d.kids[f], c, x);
    hide Inv, CanPush;
    LastOf(paths[f], paths[f] + [0], 0);
  }

  // ----- A relocation -----

  // The new child of the node that is being relocated, chained to the next label.
  lemma OwnSib(d: Arrays, ni: seq<Ninfo>, r: seq<Ninfo>, paths: map<nat, Path>, o: Order, f: nat, c: nat, to: nat, t: nat)
    requires f < |d.nodes| == |d.kids| == |ni| == |r| && 0 < to < |r| && f in paths && to !in paths && f == o.from && f != 0
    requires r == ni[to := Ninfo(NextOf(o.labels, c), 0)] && 0 in paths
    requires t != to ==> t in paths && t < |d.nodes| && SibOk(d, ni, paths, o, t)
    ensures SibOk(WithChild(d, f, c, to), r, paths[to := paths[f] + [c]], o, t)
  {
    hide InsertLabel, NextOf;
    LastOf(paths[f], paths[f] + [c], c);
  }

  lemma FreshSlot(d: Arrays, ni: seq<Ninfo>, paths: map<nat, Path>, mv: Moving, o: Order, f: nat, c: nat, to: nat)
    requires CanAdd(d, paths, mv, f, c, to) && Chains(d, ni, paths, o)
    ensures f in paths && f < |d.nodes| && to != f && to !in paths && 0 < to < |ni| == |d.nodes| == |d.kids| && d.kids[to] == [] && ni[to] == Ninfo(0, 0)
  {
    hide Xor, SlotOk, NodeOk, SibOk, ChildOk;
  }

  lemma OwnKeepsChains(d: Arrays, ni: seq<Ninfo>, paths: map<nat, Path>, mv: Moving, o: Order, f: nat, c: nat, to: nat)
    requires CanAdd(d, paths, mv, f, c, to) && Chains(d, ni, paths, o) && f == o.from && f != 0
    ensures f < |d.nodes| == |d.kids| == |ni| && to < |d.nodes| && f in paths
    ensures ni[to] == Ninfo(0, 0)
    ensures Chains(WithChild(d, f, c, to), ni[to := Ninfo(NextOf(o.labels, c), 0)], paths[to := paths[f] + [c]], o)
  {
    hide Inv, CanAdd, Xor, InsertLabel, NextOf, SibOk, ChildOk, WithChild;
    FreshSlot(d, ni, paths, mv, o, f, c, to);
    var e, r, more := WithChild(d, f, c, to), ni[to := Ninfo(NextOf(o.labels, c), 0)], paths[to := paths[f] + [c]];
    WithChildSize(d, f, c, to);
    forall t | t in more ensures SibOk(e, r, more, o, t) {
      OwnSib(d, ni, r, paths, o, f, c, to, t);
    }
    forall g | g in more ensures ChildOk(e, r, o, g) {
      OwnChild(d, ni, r, o, f, c, to, g);
    }
  }

  lemma OwnChild(d: Arrays, ni: seq<Ninfo>, r: seq<Ninfo>, o: Order, f: nat, c: nat, to: nat, g: nat)
    requires f < |d.nodes| == |d.kids| == |ni| == |r| && to < |r| && g < |r| && to != 0 && to != f && f == o.from && f != 0
    requires d.kids[to] == [] && (g != to ==> ChildOk(d, ni, o, g)) && r[g].child == if g == to then 0 else ni[g].child
    ensures ChildOk(WithChild(d, f, c, to), r, o, g)
  {
    hide InsertLabel;
  }

  function MovedInfo(ni: seq<Ninfo>, o: Order, c: nat, old_: nat, to: nat): (r: seq<Ninfo>)
    requires old_ < |ni| && to < |ni|
    ensures |r| == |ni|
  {
    ni[to := Ninfo(NextOf(o.labels, c), ni[old_].child)][old_ := Ninfo(0, 0)]
  }

  lemma MovedSib(d: Arrays, ni: seq<Ninfo>, paths: map<nat, Path>, mv: Moving, o: Order, c: nat, old_: nat, to: nat, t: nat)
    requires Relocated(d, paths, mv, c, old_, to) && |ni| == |d.nodes| && 0 in paths && mv.from == o.from && mv.from != 0
    requires t in MovedPaths(paths, old_, to) && t < |d.nodes|
    requires t != to ==>
      && SibOk(d, ni, paths, o, t)
      && (t != 0 && d.nodes[t].check == mv.from ==> paths[t] == paths[mv.from] + [paths[t][|paths[t]| - 1]] && paths[t] != paths[old_])
      && (t != 0 ==> d.nodes[t].check != to)
    ensures SibOk(MovedArrays(d, mv.from, old_, to), MovedInfo(ni, o, c, old_, to), MovedPaths(paths, old_, to), o.(rest := o.rest - {c}), t)
  {
    hide Xor, Terminal, NextOf;
    LastOf(paths[mv.from], paths[old_], c);
  }

  lemma MovedChild(d: Arrays, ni: seq<Ninfo>, paths: map<nat, Path>, mv: Moving, o: Order, c: nat, old_: nat, to: nat, g: nat)
    requires Relocated(d, paths, mv, c, old_, to) && |ni| == |d.nodes| && mv.from == o.from && mv.from != 0
    requires g in MovedPaths(paths, old_, to) && g < |d.nodes| && ChildOk(d, ni, o, if g == to then old_ else g)
    ensures ChildOk(MovedArrays(d, mv.from, old_, to), MovedInfo(ni, o, c, old_, to), o.(rest := o.rest - {c}), g)
  {
    hide Xor, Terminal, NextOf;
  }

  lemma MovedFacts(d: Arrays, paths: map<nat, Path>, mv: Moving, c: nat, old_: nat, to: nat, t: nat)
    requires Inv(d, paths, mv) && Relocated(d, paths, mv, c, old_, to) && t in paths && t != old_
    ensures t < |d.nodes| && (t != 0 && d.nodes[t].check == mv.from ==> paths[t] != [] && paths[t] == paths[mv.from] + [paths[t][|paths[t]| - 1]])
    ensures paths[t] != paths[old_] && (t != 0 ==> d.nodes[t].check != to)
  {
    hide Xor, SlotOk, NodeOk;
    if t != 0 {
      SlotListed(d, paths, mv, t);
    }
  }

  // A moved child keeps its own chain and is chained to the next label.
  lemma MoveKeepsChains(d: Arrays, ni: seq<Ninfo>, paths: map<nat, Path>, mv: Moving, o: Order, c: nat, old_: nat, to: nat)
    requires Inv(d, paths, mv) && Relocated(d, paths, mv, c, old_, to) && Chains(d, ni, paths, o) && mv.from == o.from && mv.from != 0
    ensures old_ < |ni| && to < |ni| && ni[to] == Ninfo(0, 0) && old_ in paths && old_ < |d.nodes| == |d.kids| && to < |d.nodes|
    ensures Chains(MovedArrays(d, mv.from, old_, to), MovedInfo(ni, o, c, old_, to), MovedPaths(paths, old_, to), o.(rest := o.rest - {c}))
  {
    hide Xor, SlotOk, NodeOk, Inv, SibOk, ChildOk, NextOf, Terminal, MovedNodes;
    assert old_ in paths && 0 < old_ < |ni| && 0 < to < |ni| && to !in paths && ni[to] == Ninfo(0, 0) && old_ != mv.from;
    var e, r, moved, less := MovedArrays(d, mv.from, old_, to), MovedInfo(ni, o, c, old_, to), MovedPaths(paths, old_, to), o.(rest := o.rest - {c});
    forall t | t in moved ensures SibOk(e, r, moved, less, t) {
      if t != to {
        MovedFacts(d, paths, mv, c, old_, to, t);
      }
      MovedSib(d, ni, paths, mv, o, c, old_, to, t);
    }
    forall g | g in moved ensures ChildOk(e, r, less, g) {
      MovedChild(d, ni, paths, mv, o, c, old_, to, g);
    }
  }

  // A relocation starts: all children are still to be moved.
  lemma StartChains(d: Arrays, ni: seq<Ninfo>, paths: map<nat, Path>, f: nat, b: nat, labels: seq<nat>)
    requires Inv(d, paths, SETTLED) && Chains(d, ni, paths, STILL) && f in paths && f != 0 && f < |d.nodes| && f < |ni| && ZeroFirst(labels)
    ensures Chains(Rebased(d, f, b), ni[f := ni[f].(child := At(labels, 0))], paths, Order(f, LabelSet(d.kids[f]), labels))
  {
    hide Xor, SlotOk, NodeOk, Inv, NextOf;
    var e, r, o := Rebased(d, f, b), ni[f := ni[f].(child := At(labels, 0))], Order(f, LabelSet(d.kids[f]), labels);
    forall t | t in paths ensures SibOk(e, r, paths, o, t) {
      assert SibOk(d, ni, paths, STILL, t);
      if t != 0 {
        SlotListed(d, paths, SETTLED, t);
      }
    }
    forall g | g in paths ensures ChildOk(e, r, o, g) {
      assert ChildOk(d, ni, STILL, g);
    }
  }

  lemma FinishChains(d: Arrays, ni: seq<Ninfo>, paths: map<nat, Path>, o: Order)
    requires Chains(d, ni, paths, o) && o.rest == {} && o.from < |d.kids| && d.kids[o.from] == o.labels
    ensures Chains(d, ni, paths, STILL)
  {
    forall t | t in paths ensures SibOk(d, ni, paths, STILL, t) {
      assert SibOk(d, ni, paths, o, t);
    }
    forall g | g in paths ensures ChildOk(d, ni, STILL, g) {
      assert ChildOk(d, ni, o, g);
    }
  }

  // Chains do not depend on the bases.
  lemma RebasedChains(d: Arrays, ni: seq<Ninfo>, paths: map<nat, Path>, o: Order, f: nat, b: int)
    requires Chains(d, ni, paths, o) && f < |d.nodes|
    ensures Chains(Rebased(d, f, b), ni, paths, o)
  {
    hide NextOf;
    forall t | t in paths ensures SibOk(Rebased(d, f, b), ni, paths, o, t) {
      assert SibOk(d, ni, paths, o, t);
    }
    forall g | g in paths ensures ChildOk(Rebased(d, f, b), ni, o, g) {
      assert ChildOk(d, ni, o, g);
    }
  }

  // ----- A new block -----

  lemma GrowKeepsChains(d: Arrays, ni: seq<Ninfo>, paths: map<nat, Path>)
    requires Chains(d, ni, paths, STILL) && Based(d, paths)
    ensures Chains(Grown(d), ni + seq(BLOCK, i => Ninfo(0, 0)), paths, STILL) && Based(Grown(d), paths)
  {
    hide NextOf;
    var e, r := Grown(d), ni + seq(BLOCK, i => Ninfo(0, 0));
    forall t | t in paths ensures SibOk(e, r, paths, STILL, t) {
      assert SibOk(d, ni, paths, STILL, t);
    }
    forall g | g in paths ensures ChildOk(e, r, STILL, g) && BasedOk(e, paths, g) {
      assert ChildOk(d, ni, STILL, g) && BasedOk(d, paths, g);
    }
  }

  // ----- Nodes with a base have children -----

  lemma AddedBased(d: Arrays, paths: map<nat, Path>, f: nat, c: nat, to: nat)
    requires |d.nodes| == |d.kids| && f in paths && f < |d.nodes| && to < |d.nodes| && forall g :: g in paths ==> g < |d.nodes| && (g == f || BasedOk(d, paths, g))
    requires to !in paths && !Terminal(paths[f])
    ensures Based(WithChild(d, f, c, to), paths[to := paths[f] + [c]])
  {
    var e, more := WithChild(d, f, c, to), paths[to := paths[f] + [c]];
    LastOf(paths[f], paths[f] + [c], c);
    forall g | g in more ensures BasedOk(e, more, g) {
    }
  }

  lemma MovedBased(d: Arrays, paths: map<nat, Path>, mv: Moving, c: nat, old_: nat, to: nat)
    requires Relocated(d, paths, mv, c, old_, to) && Based(d, paths)
    ensures Based(MovedArrays(d, mv.from, old_, to), MovedPaths(paths, old_, to))
  {
    hide Xor, Terminal;
    var e, moved := MovedArrays(d, mv.from, old_, to), MovedPaths(paths, old_, to);
    forall g | g in moved ensures g < |d.nodes| && BasedOk(e, moved, g) {
      assert BasedOk(d, paths, if g == to then old_ else g);
    }
  }

  lemma RebasedBased(d: Arrays, paths: map<nat, Path>, f: nat, b: int)
    requires Based(d, paths) && f in paths && f < |d.nodes| && (Terminal(paths[f]) || d.kids[f] != [])
    ensures Based(Rebased(d, f, b), paths)
  {
    forall g | g in paths ensures BasedOk(Rebased(d, f, b), paths, g) {
      assert BasedOk(d, paths, g);
    }
  }

  // ----- Walking a chain -----

  ghost predicate ChainStep(ni: seq<Ninfo>, base: nat, labels: seq<nat>, i: nat)
    requires i < |labels|
  {
    Xor(base, labels[i]) < |ni| && ni[Xor(base, labels[i])].sibling == At(labels, i + 1) && (i > 0 ==> labels[i] != 0)
  }

  // From the first label on, the siblings at this base spell the list.
  ghost predicate Spells(ni: seq<Ninfo>, base: nat, labels: seq<nat>) {
    labels != [] && NoRepeats(labels) && forall i :: 0 <= i < |labels| ==> ChainStep(ni, base, labels, i)
  }

  lemma ChainSpells(d: Arrays, ni: seq<Ninfo>, paths: map<nat, Path>, mv: Moving, o: Order, f: nat)
    requires Inv(d, paths, mv) && Chains(d, ni, paths, o) && f in paths && f != 0 && f != o.from && (f == mv.from ==> mv.rest == {})
    requires f < |d.kids| && d.kids[f] != []
    ensures f < |d.nodes| == |ni| && d.nodes[f].base >= 0 && ni[f].child == d.kids[f][0] && Spells(ni, d.nodes[f].base, d.kids[f])
  {
    hide Xor, SlotOk, HasPath, NextOf;
    var labels := d.kids[f];
    assert ChildOk(d, ni, o, f) && NodeOk(d, paths, f);
    hide NodeOk;
    assert labels[0] in labels;
    ChildSlot(d, paths, mv, f, labels[0]);
    var base: nat := d.nodes[f].base;
    forall i | 0 <= i < |labels| ensures ChainStep(ni, base, labels, i) {
      assert labels[i] in labels;
      ChildSlot(d, paths, mv, f, labels[i]);
      var t := Xor(base, labels[i]);
      assert SibOk(d, ni, paths, o, t);
      LastOf(paths[f], paths[t], labels[i]);
      NextAt(labels, i);
    }
  }

  lemma EmptyChain(d: Arrays, ni: seq<Ninfo>, paths: map<nat, Path>, o: Order, f: nat)
    requires Chains(d, ni, paths, o) && f in paths && f != 0 && f != o.from
    ensures f < |d.kids| == |ni| && (d.kids[f] == [] ==> ni[f].child == 0)
  {
    assert ChildOk(d, ni, o, f);
  }

  lemma InitialKept()
    ensures var d := Arrays([Node(0, -1)] + seq(BLOCK - 1, i => EMPTY), seq(BLOCK, i => []));
      Chains(d, seq(BLOCK, i => Ninfo(0, 0)), map[0 := []], STILL) && Based(d, map[0 := []])
  {
    var d, ni := Arrays([Node(0, -1)] + seq(BLOCK - 1, i => EMPTY), seq(BLOCK, i => [])), seq(BLOCK, i => Ninfo(0, 0));
    assert SibOk(d, ni, map[0 := []], STILL, 0) && ChildOk(d, ni, STILL, 0);
  }
}
