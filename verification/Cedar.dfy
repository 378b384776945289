// The double-array trie: slots hold nodes, and a node's children hang at
// base ^ label (src/cedarpp.h). A node knows its first child's label and its next
// sibling's; the lists of children are what these chains spell.
module Cedars {

  import opened Sequences
  import opened Rings
  import opened CedarXors
  import opened CedarSlots

  // ----- The arrays -----

  // The slots without the links of the empty ones, and each node's children in order.
  datatype Arrays = Arrays(nodes: seq<Node>, kids: seq<seq<nat>>)

  type Path = seq<nat>

  // A key is stored as its bytes and a closing 0.
  predicate Terminal(p: Path) {
    p != [] && p[|p| - 1] == 0
  }

  // During a relocation the children of `from` with labels in rest still hang at base.
  datatype Moving = Moving(from: nat, base: int, rest: set<nat>)

  const SETTLED := Moving(0, 0, {})

  function BaseFor(d: Arrays, mv: Moving, f: nat, c: nat): int
    requires f < |d.nodes|
  {
    if f == mv.from && c in mv.rest then mv.base else d.nodes[f].base
  }

  ghost predicate HasPath(paths: map<nat, Path>, p: Path) {
    exists t :: t in paths && paths[t] == p
  }

  // Slot t holds the child its path says, of the node its check says.
  ghost predicate SlotOk(d: Arrays, paths: map<nat, Path>, mv: Moving, t: nat)
    requires t in paths && t < |d.nodes|
  {
    t != 0 ==>
      var f, p := d.nodes[t].check, paths[t];
      && p != [] && 0 <= f < |d.nodes| && f in paths && !Terminal(paths[f]) && p == paths[f] + [p[|p| - 1]]
      && p[|p| - 1] < BLOCK
      && BaseFor(d, mv, f, p[|p| - 1]) >= 0 && t == Xor(BaseFor(d, mv, f, p[|p| - 1]), p[|p| - 1])
  }

  // The child list of node f names its children. Only the root has block 0.
  ghost predicate NodeOk(d: Arrays, paths: map<nat, Path>, f: nat)
    requires f in paths && f < |d.nodes| && |d.kids| == |d.nodes|
  {
    && NoRepeats(d.kids[f]) && (forall c :: c in d.kids[f] ==> c < BLOCK)
    && (forall c :: c in d.kids[f] <==> !Terminal(paths[f]) && HasPath(paths, paths[f] + [c]))
    && (!Terminal(paths[f]) ==>
          && d.nodes[f].base < |d.nodes|
          && (if f == 0 then d.nodes[f].base == 0 else d.nodes[f].base < 0 || d.nodes[f].base >= BLOCK)
          && (d.kids[f] != [] ==> d.nodes[f].base >= 0))
  }

  ghost predicate Shape(d: Arrays, paths: map<nat, Path>) {
    && |d.kids| == |d.nodes| && |d.nodes| % BLOCK == 0
    && 0 in paths && paths[0] == []
    && (forall t :: t in paths ==> t < |d.nodes|)
    && (forall t: nat :: t < |d.nodes| && t !in paths ==> d.kids[t] == [])
    && (forall t: nat :: t < |d.nodes| && t != 0 ==> (t in paths <==> d.nodes[t].check >= 0))
    && d.nodes[0].check < 0
    && (forall t, u :: t in paths && u in paths && paths[t] == paths[u] ==> t == u)
  }

  ghost predicate MovingOk(d: Arrays, paths: map<nat, Path>, mv: Moving)
    requires Shape(d, paths)
  {
    mv.rest != {} ==>
      && mv.from in paths && mv.from != 0 && !Terminal(paths[mv.from]) && BLOCK <= mv.base < |d.nodes|
      && (forall c :: c in mv.rest ==> c in d.kids[mv.from])
  }

  ghost predicate Inv(d: Arrays, paths: map<nat, Path>, mv: Moving) {
    && Shape(d, paths) && MovingOk(d, paths, mv)
    && (forall t :: t in paths ==> SlotOk(d, paths, mv, t))
    && (forall f :: f in paths ==> NodeOk(d, paths, f))
  }

  lemma LastOf(p: Path, q: Path, c: nat)
    requires p + [c] == q
    ensures q != [] && q[|q| - 1] == c && q[..|q| - 1] == p
  {
  }

  lemma SamePrefix(p: Path, q: Path, c: nat, d: nat)
    requires p + [c] == q + [d]
    ensures p == q && c == d
  {
    LastOf(p, p + [c], c);
    LastOf(q, q + [d], d);
  }

  // The child of f by label c, if listed, is where base and label say.
  lemma ChildSlot(d: Arrays, paths: map<nat, Path>, mv: Moving, f: nat, c: nat)
    requires Inv(d, paths, mv) && f in paths && c in d.kids[f]
    ensures c < BLOCK && BaseFor(d, mv, f, c) >= 0
    ensures var t := Xor(BaseFor(d, mv, f, c), c); t in paths && t != 0 && d.nodes[t].check == f && paths[t] == paths[f] + [c]
  {
    assert NodeOk(d, paths, f);
    var t :| t in paths && paths[t] == paths[f] + [c];
    assert SlotOk(d, paths, mv, t);
    SamePrefix(paths[f], paths[d.nodes[t].check], c, paths[t][|paths[t]| - 1]);
  }

  // Every used slot is listed by its parent.
  lemma SlotListed(d: Arrays, paths: map<nat, Path>, mv: Moving, t: nat)
    requires Inv(d, paths, mv) && t in paths && t != 0
    ensures var f, c := d.nodes[t].check, paths[t][|paths[t]| - 1];
      f >= 0 && f in paths && c in d.kids[f] && paths[t] == paths[f] + [c] && BaseFor(d, mv, f, c) >= 0 && t == Xor(BaseFor(d, mv, f, c), c)
  {
    assert SlotOk(d, paths, mv, t);
    assert NodeOk(d, paths, d.nodes[t].check);
  }

  // A slot whose check names f and that lies at f's base by c is the child by c.
  lemma OwnedSlot(d: Arrays, paths: map<nat, Path>, mv: Moving, f: nat, c: nat)
    requires Inv(d, paths, mv) && f in paths && c < BLOCK && d.nodes[f].base >= 0 && (f == mv.from ==> mv.rest == {})
    requires var t := Xor(d.nodes[f].base, c); t < |d.nodes| && d.nodes[t].check == f
    ensures var t := Xor(d.nodes[f].base, c); t in paths && t != 0 && paths[t] == paths[f] + [c]
  {
    var t := Xor(d.nodes[f].base, c);
    SlotListed(d, paths, mv, t);
    XorLabels(d.nodes[f].base, c, paths[t][|paths[t]| - 1]);
  }

  // ----- Changing one node's base -----

  function LabelSet(labels: seq<nat>): set<nat> {
    set c | c in labels
  }

  function Rebased(d: Arrays, f: nat, b: int): Arrays
    requires f < |d.nodes|
  {
    d.(nodes := d.nodes[f := d.nodes[f].(base := b)])
  }

  // The children of f keep the base they hang at; f's own base is new.
  lemma RebasedSlot(d: Arrays, paths: map<nat, Path>, f: nat, b: nat, mv: Moving, t: nat)
    requires f < |d.nodes| == |d.kids| && t in paths && t < |d.nodes| && SlotOk(d, paths, SETTLED, t)
    requires t != 0 && d.nodes[t].check == f ==> paths[t][|paths[t]| - 1] in d.kids[f]
    requires mv == Moving(f, d.nodes[f].base, LabelSet(d.kids[f]))
    ensures SlotOk(Rebased(d, f, b), paths, mv, t)
  {
    hide Xor, Terminal;
  }

  lemma RebasedNode(d: Arrays, paths: map<nat, Path>, f: nat, b: nat, g: nat)
    requires Shape(d, paths) && f in paths && g in paths && NodeOk(d, paths, g) && f != 0 && BLOCK <= b < |d.nodes|
    ensures NodeOk(Rebased(d, f, b), paths, g)
  {
    hide HasPath, NoRepeats;
  }

  // A relocation starts: the base is new, all children still hang at the old one. A
  // node without children has nothing to move.
  lemma StartMove(d: Arrays, paths: map<nat, Path>, f: nat, b: nat)
    requires Inv(d, paths, SETTLED) && f in paths && f != 0 && !Terminal(paths[f]) && BLOCK <= b < |d.nodes|
    ensures Inv(Rebased(d, f, b), paths, Moving(f, d.nodes[f].base, LabelSet(d.kids[f])))
  {
    hide Xor, HasPath, NoRepeats, SlotOk;
    var e, mv := Rebased(d, f, b), Moving(f, d.nodes[f].base, LabelSet(d.kids[f]));
    assert NodeOk(d, paths, f);
    assert d.kids[f] != [] ==> d.nodes[f].base >= BLOCK;
    hide NodeOk;
    forall t | t in paths ensures SlotOk(e, paths, mv, t) {
      if t != 0 {
        SlotListed(d, paths, SETTLED, t);
      }
      RebasedSlot(d, paths, f, b, mv, t);
    }
    forall g | g in paths ensures NodeOk(e, paths, g) {
      RebasedNode(d, paths, f, b, g);
    }
    if mv.rest != {} {
      var c :| c in mv.rest;
    }
  }

  lemma FinishMove(d: Arrays, paths: map<nat, Path>, mv: Moving)
    requires Inv(d, paths, mv) && mv.rest == {}
    ensures Inv(d, paths, SETTLED)
  {
    hide Xor, NodeOk, Terminal;
    forall t | t in paths ensures SlotOk(d, paths, SETTLED, t) {
      assert SlotOk(d, paths, mv, t);
    }
  }

  // ----- A new child -----

  // The newest label comes first, but behind the terminal's 0.
  function InsertLabel(labels: seq<nat>, c: nat): seq<nat> {
    if labels != [] && labels[0] == 0 then [0, c] + labels[1..] else [c] + labels
  }

  lemma InsertLabelContents(labels: seq<nat>, c: nat)
    requires NoRepeats(labels) && c !in labels
    ensures NoRepeats(InsertLabel(labels, c))
    ensures forall e :: e in InsertLabel(labels, c) <==> e == c || e in labels
  {
    var r := InsertLabel(labels, c);
    forall e ensures e in r <==> e == c || e in labels {
      if e in labels {
        var i :| 0 <= i < |labels| && labels[i] == e;
        if labels[0] == 0 {
          assert r[if i == 0 then 0 else i + 1] == e;
        } else {
          assert r[i + 1] == e;
        }
      }
      if labels != [] && labels[0] == 0 {
        assert r[1] == c;
        assert forall i :: 0 <= i < |labels| - 1 ==> labels[1..][i] in labels;
      } else {
        assert r[0] == c;
      }
    }
  }

  function WithChild(d: Arrays, f: nat, c: nat, to: nat): Arrays
    requires f < |d.nodes| == |d.kids| && to < |d.nodes|
  {
    Arrays(d.nodes[to := Node(if c == 0 then 0 else -1, f)], d.kids[f := InsertLabel(d.kids[f], c)])
  }

  ghost predicate CanAdd(d: Arrays, paths: map<nat, Path>, mv: Moving, f: nat, c: nat, to: nat) {
    && Inv(d, paths, mv) && f in paths && !Terminal(paths[f]) && c < BLOCK && c !in d.kids[f]
    && d.nodes[f].base >= 0 && to == Xor(d.nodes[f].base, c) && to !in paths && 0 < to < |d.nodes|
  }

  lemma AddedPaths(d: Arrays, paths: map<nat, Path>, mv: Moving, f: nat, c: nat, to: nat, q: Path)
    requires CanAdd(d, paths, mv, f, c, to)
    ensures HasPath(paths[to := paths[f] + [c]], q) <==> HasPath(paths, q) || q == paths[f] + [c]
    ensures !HasPath(paths, paths[f] + [c])
  {
    hide SlotOk, Xor, NoRepeats;
    var more := paths[to := paths[f] + [c]];
    assert NodeOk(d, paths, f);
    if HasPath(paths, q) {
      var t :| t in paths && paths[t] == q;
      assert more[t] == q;
    }
    assert more[to] == paths[f] + [c];
  }

  // Nothing hangs below a path that is not there.
  lemma NoOrphans(d: Arrays, paths: map<nat, Path>, mv: Moving, p: Path, c: nat)
    requires Inv(d, paths, mv) && !HasPath(paths, p)
    ensures !HasPath(paths, p + [c])
  {
    forall t | t in paths ensures paths[t] != p + [c] {
      assert SlotOk(d, paths, mv, t);
      if t != 0 && paths[t] == p + [c] {
        SamePrefix(p, paths[d.nodes[t].check], c, paths[t][|paths[t]| - 1]);
      }
    }
  }

  lemma AddedKids(d: Arrays, paths: map<nat, Path>, mv: Moving, f: nat, c: nat, to: nat, g: nat, e: nat)
    requires CanAdd(d, paths, mv, f, c, to) && (g in paths || g == to)
    ensures var more := paths[to := paths[f] + [c]];
      HasPath(more, more[g] + [e]) <==> (g in paths && HasPath(paths, paths[g] + [e])) || (g == f && e == c)
  {
    hide HasPath, NodeOk, SlotOk;
    var more := paths[to := paths[f] + [c]];
    AddedPaths(d, paths, mv, f, c, to, more[g] + [e]);
    if more[g] + [e] == paths[f] + [c] {
      SamePrefix(more[g], paths[f], e, c);
    }
    if g == to {
      NoOrphans(d, paths, mv, paths[f] + [c], e);
    }
  }

  lemma AddedNode(d: Arrays, paths: map<nat, Path>, mv: Moving, f: nat, c: nat, to: nat, g: nat)
    requires CanAdd(d, paths, mv, f, c, to) && (g in paths || g == to)
    ensures NodeOk(WithChild(d, f, c, to), paths[to := paths[f] + [c]], g)
  {
    hide HasPath, SlotOk, Xor, InsertLabel;
    forall e ensures var more := paths[to := paths[f] + [c]];
      HasPath(more, more[g] + [e]) <==> (g in paths && HasPath(paths, paths[g] + [e])) || (g == f && e == c)
    {
      AddedKids(d, paths, mv, f, c, to, g, e);
    }
    assert NodeOk(d, paths, f);
    InsertLabelContents(d.kids[f], c);
    LastOf(paths[f], paths[f] + [c], c);
    hide NoRepeats;
    if g != to {
      assert NodeOk(d, paths, g);
    }
  }

  lemma AddedSlot(d: Arrays, paths: map<nat, Path>, mv: Moving, f: nat, c: nat, to: nat, t: nat)
    requires f < |d.nodes| == |d.kids| && to < |d.nodes| && f in paths && !Terminal(paths[f]) && c < BLOCK
    requires d.nodes[f].base >= 0 && to == Xor(d.nodes[f].base, c) && to !in paths && (f == mv.from ==> c !in mv.rest)
    requires t != to ==> t in paths && t < |d.nodes| && SlotOk(d, paths, mv, t)
    ensures SlotOk(WithChild(d, f, c, to), paths[to := paths[f] + [c]], mv, t)
  {
    hide Xor, InsertLabel, Terminal;
    if t == to {
      LastOf(paths[f], paths[f] + [c], c);
    }
  }

  lemma AddChild(d: Arrays, paths: map<nat, Path>, mv: Moving, f: nat, c: nat, to: nat)
    requires CanAdd(d, paths, mv, f, c, to)
    ensures Inv(WithChild(d, f, c, to), paths[to := paths[f] + [c]], mv)
  {
    hide Xor, NoRepeats, SlotOk;
    var e, more := WithChild(d, f, c, to), paths[to := paths[f] + [c]];
    AddedPaths(d, paths, mv, f, c, to, []);
    assert NodeOk(d, paths, f);
    InsertLabelContents(d.kids[f], c);
    hide NodeOk, InsertLabel;
    forall t | t in more ensures SlotOk(e, more, mv, t) {
      AddedSlot(d, paths, mv, f, c, to, t);
    }
    forall g | g in more ensures NodeOk(e, more, g) {
      AddedNode(d, paths, mv, f, c, to, g);
    }
  }

  // ----- Moving one child -----

  // The slot of the child, its own children and the slot it leaves.
  function MovedNodes(d: Arrays, from: nat, old_: nat, to: nat): (r: seq<Node>)
    requires old_ < |d.nodes| && to < |d.nodes|
    ensures |r| == |d.nodes|
  {
    seq(|d.nodes|, t requires 0 <= t < |d.nodes| =>
      if t == to then Node(d.nodes[old_].base, from)
      else if t == old_ then EMPTY
      else if d.nodes[t].check == old_ then Node(d.nodes[t].base, to)
      else d.nodes[t])
  }

  function MovedArrays(d: Arrays, from: nat, old_: nat, to: nat): (r: Arrays)
    requires old_ < |d.nodes| == |d.kids| && to < |d.nodes|
    ensures |r.nodes| == |d.nodes| == |r.kids|
  {
    Arrays(MovedNodes(d, from, old_, to), d.kids[to := d.kids[old_]][old_ := []])
  }

  ghost function MovedPaths(paths: map<nat, Path>, old_: nat, to: nat): map<nat, Path>
    requires old_ in paths
  {
    map t | t in paths.Keys - {old_} + {to} :: if t == to || t !in paths then paths[old_] else paths[t]
  }

  ghost predicate CanMove(d: Arrays, paths: map<nat, Path>, mv: Moving, c: nat, old_: nat, to: nat) {
    && Inv(d, paths, mv) && c in mv.rest && d.nodes[mv.from].base >= BLOCK
    && old_ == Xor(mv.base, c) && to == Xor(d.nodes[mv.from].base, c) && to !in paths && 0 < to < |d.nodes|
  }

  // What one relocated child is: its parent, its label, its slots.
  ghost predicate Relocated(d: Arrays, paths: map<nat, Path>, mv: Moving, c: nat, old_: nat, to: nat) {
    && |d.kids| == |d.nodes| && mv.from in paths && mv.from < |d.nodes| && !Terminal(paths[mv.from]) && c < BLOCK
    && old_ in paths && 0 < old_ < |d.nodes| && to !in paths && 0 < to < |d.nodes|
    && old_ != to && old_ != mv.from && to != mv.from
    && d.nodes[old_].check == mv.from && paths[old_] == paths[mv.from] + [c] && d.nodes[mv.from].check != old_
    && d.nodes[mv.from].base >= 0 && to == Xor(d.nodes[mv.from].base, c)
  }

  lemma MoveFacts(d: Arrays, paths: map<nat, Path>, mv: Moving, c: nat, old_: nat, to: nat)
    requires CanMove(d, paths, mv, c, old_, to)
    ensures Relocated(d, paths, mv, c, old_, to)
    ensures forall t :: t in paths && paths[t] == paths[old_] ==> t == old_
  {
    hide Xor, NoRepeats, HasPath, NodeOk;
    ChildSlot(d, paths, mv, mv.from, c);
    assert SlotOk(d, paths, mv, mv.from);
  }

  lemma MovedHasPath(paths: map<nat, Path>, old_: nat, to: nat, q: Path)
    requires old_ in paths && to !in paths
    ensures HasPath(MovedPaths(paths, old_, to), q) <==> HasPath(paths, q)
  {
    var moved := MovedPaths(paths, old_, to);
    if HasPath(paths, q) {
      var t :| t in paths && paths[t] == q;
      assert moved[if t == old_ then to else t] == q;
    }
    if HasPath(moved, q) {
      var t :| t in moved && moved[t] == q;
      assert paths[if t == to then old_ else t] == q;
    }
  }

  lemma ArrivedSlot(d: Arrays, paths: map<nat, Path>, mv: Moving, c: nat, old_: nat, to: nat)
    requires Relocated(d, paths, mv, c, old_, to)
    ensures SlotOk(MovedArrays(d, mv.from, old_, to), MovedPaths(paths, old_, to), mv.(rest := mv.rest - {c}), to)
  {
    hide Xor, Terminal;
    LastOf(paths[mv.from], paths[old_], c);
  }

  lemma StayingSlot(d: Arrays, paths: map<nat, Path>, mv: Moving, c: nat, old_: nat, to: nat, t: nat)
    requires Relocated(d, paths, mv, c, old_, to)
    requires t in paths && t < |d.nodes| && t != old_ && paths[t] != paths[old_] && SlotOk(d, paths, mv, t)
    ensures SlotOk(MovedArrays(d, mv.from, old_, to), MovedPaths(paths, old_, to), mv.(rest := mv.rest - {c}), t)
  {
    hide Xor, Terminal;
  }

  lemma MovedNode(d: Arrays, paths: map<nat, Path>, mv: Moving, c: nat, old_: nat, to: nat, f: nat)
    requires Relocated(d, paths, mv, c, old_, to) && f in MovedPaths(paths, old_, to) && f < |d.nodes|
    requires NodeOk(d, paths, if f == to then old_ else f)
    ensures NodeOk(MovedArrays(d, mv.from, old_, to), MovedPaths(paths, old_, to), f)
  {
    hide Xor, HasPath, Terminal;
    forall q ensures HasPath(MovedPaths(paths, old_, to), q) <==> HasPath(paths, q) {
      MovedHasPath(paths, old_, to, q);
    }
  }

  lemma MovedUsed(d: Arrays, paths: map<nat, Path>, mv: Moving, c: nat, old_: nat, to: nat, t: nat)
    requires Relocated(d, paths, mv, c, old_, to) && t < |d.nodes|
    requires t != 0 ==> (t in paths <==> d.nodes[t].check >= 0)
    requires t !in paths ==> d.kids[t] == []
    ensures var e, moved := MovedArrays(d, mv.from, old_, to), MovedPaths(paths, old_, to);
      && (t != 0 ==> (t in moved <==> e.nodes[t].check >= 0)) && (t !in moved ==> e.kids[t] == [])
      && (t == 0 && d.nodes[0].check < 0 ==> e.nodes[0].check < 0)
  {
    hide Xor, Terminal;
  }

  lemma MovedShape(d: Arrays, paths: map<nat, Path>, mv: Moving, c: nat, old_: nat, to: nat)
    requires Relocated(d, paths, mv, c, old_, to) && Shape(d, paths)
    ensures Shape(MovedArrays(d, mv.from, old_, to), MovedPaths(paths, old_, to))
  {
    hide Xor, Terminal, MovedNodes, Relocated;
    RelocatedFacts(d, paths, mv, c, old_, to);
    var e, moved := MovedArrays(d, mv.from, old_, to), MovedPaths(paths, old_, to);
    MovedUsed(d, paths, mv, c, old_, to, 0);
    forall t: nat | t < |d.nodes|
      ensures t != 0 ==> (t in moved <==> e.nodes[t].check >= 0)
      ensures t !in moved ==> e.kids[t] == []
    {
      MovedUsed(d, paths, mv, c, old_, to, t);
    }
  }

  lemma RelocatedFacts(d: Arrays, paths: map<nat, Path>, mv: Moving, c: nat, old_: nat, to: nat)
    requires Relocated(d, paths, mv, c, old_, to)
    ensures old_ in paths && old_ != 0 && old_ < |d.nodes| == |d.kids| && to != 0 && to < |d.nodes| && to !in paths
  {
  }

  lemma MoveOne(d: Arrays, paths: map<nat, Path>, mv: Moving, c: nat, old_: nat, to: nat)
    requires CanMove(d, paths, mv, c, old_, to)
    ensures Relocated(d, paths, mv, c, old_, to)
    ensures Inv(MovedArrays(d, mv.from, old_, to), MovedPaths(paths, old_, to), mv.(rest := mv.rest - {c}))
  {
    hide Xor, NoRepeats, HasPath, SlotOk, NodeOk, Terminal, MovedNodes;
    MoveFacts(d, paths, mv, c, old_, to);
    MovedShape(d, paths, mv, c, old_, to);
    hide Shape;
    var e, moved, less := MovedArrays(d, mv.from, old_, to), MovedPaths(paths, old_, to), mv.(rest := mv.rest - {c});
    forall t | t in moved ensures SlotOk(e, moved, less, t) {
      if t == to {
        ArrivedSlot(d, paths, mv, c, old_, to);
      } else {
        StayingSlot(d, paths, mv, c, old_, to, t);
      }
    }
    forall f | f in moved ensures NodeOk(e, moved, f) {
      MovedNode(d, paths, mv, c, old_, to, f);
    }
  }

  // ----- What the trie holds -----

  function ValueAt(d: Arrays, paths: map<nat, Path>, t: nat): int {
    if t in paths && t < |d.nodes| && Terminal(paths[t]) then d.nodes[t].base else 0
  }

  ghost function SlotOf(paths: map<nat, Path>, p: Path): (t: nat)
    requires HasPath(paths, p)
    ensures t in paths && paths[t] == p
  {
    var t :| t in paths && paths[t] == p;
    t
  }

  // Every stored prefix; a closed key has its value, other prefixes 0.
  ghost function View(d: Arrays, paths: map<nat, Path>): map<Path, int> {
    map p | p in paths.Values :: assert HasPath(paths, p); ValueAt(d, paths, SlotOf(paths, p))
  }

  lemma ViewHas(d: Arrays, paths: map<nat, Path>, p: Path)
    requires Shape(d, paths)
    ensures p in View(d, paths) <==> HasPath(paths, p)
  {
  }

  lemma ViewAt(d: Arrays, paths: map<nat, Path>, t: nat)
    requires Shape(d, paths) && t in paths
    ensures paths[t] in View(d, paths) && t < |d.nodes| && View(d, paths)[paths[t]] == ValueAt(d, paths, t)
  {
  }

  function Added(m: map<Path, int>, p: Path): map<Path, int> {
    if p in m then m else m[p := 0]
  }

  // A map that has every path with its slot's value is the view.
  lemma IsView(d: Arrays, paths: map<nat, Path>, m: map<Path, int>)
    requires Shape(d, paths) && forall p :: p in m <==> HasPath(paths, p)
    requires forall t :: t in paths ==> t < |d.nodes| && paths[t] in m && m[paths[t]] == ValueAt(d, paths, t)
    ensures View(d, paths) == m
  {
    hide ValueAt;
    forall p | p in m ensures p in View(d, paths) && View(d, paths)[p] == m[p] {
      ViewHas(d, paths, p);
      ViewAt(d, paths, SlotOf(paths, p));
    }
    forall p | p in View(d, paths) ensures p in m {
      ViewHas(d, paths, p);
    }
  }

  lemma MovedView(d: Arrays, paths: map<nat, Path>, mv: Moving, c: nat, old_: nat, to: nat)
    requires Relocated(d, paths, mv, c, old_, to) && Shape(d, paths)
    requires Shape(MovedArrays(d, mv.from, old_, to), MovedPaths(paths, old_, to))
    ensures View(MovedArrays(d, mv.from, old_, to), MovedPaths(paths, old_, to)) == View(d, paths)
  {
    var e, moved, m := MovedArrays(d, mv.from, old_, to), MovedPaths(paths, old_, to), View(d, paths);
    hide View, Shape, Xor, HasPath;
    forall p ensures p in m <==> HasPath(moved, p) {
      ViewHas(d, paths, p);
      MovedHasPath(paths, old_, to, p);
    }
    forall t | t in moved ensures t < |e.nodes| && moved[t] in m && m[moved[t]] == ValueAt(e, moved, t) {
      ViewAt(d, paths, if t == to then old_ else t);
    }
    IsView(e, moved, m);
  }

  lemma RebasedView(d: Arrays, paths: map<nat, Path>, f: nat, b: int)
    requires Shape(d, paths) && f in paths && f < |d.nodes| && !Terminal(paths[f])
    ensures Shape(Rebased(d, f, b), paths) && View(Rebased(d, f, b), paths) == View(d, paths)
  {
    var e, m := Rebased(d, f, b), View(d, paths);
    assert Shape(e, paths);
    hide View, Shape, HasPath;
    forall p ensures p in m <==> HasPath(paths, p) {
      ViewHas(d, paths, p);
    }
    forall t | t in paths ensures t < |e.nodes| && paths[t] in m && m[paths[t]] == ValueAt(e, paths, t) {
      ViewAt(d, paths, t);
    }
    IsView(e, paths, m);
  }

  lemma AddedView(d: Arrays, paths: map<nat, Path>, mv: Moving, f: nat, c: nat, to: nat)
    requires CanAdd(d, paths, mv, f, c, to)
    ensures Shape(WithChild(d, f, c, to), paths[to := paths[f] + [c]])
    ensures View(WithChild(d, f, c, to), paths[to := paths[f] + [c]]) == View(d, paths)[paths[f] + [c] := 0]
    ensures paths[f] + [c] !in View(d, paths)
  {
    hide View, InsertLabel, SlotOk, NodeOk, Xor, HasPath;
    AddChild(d, paths, mv, f, c, to);
    var e, more := WithChild(d, f, c, to), paths[to := paths[f] + [c]];
    var m := View(d, paths)[paths[f] + [c] := 0];
    LastOf(paths[f], paths[f] + [c], c);
    forall p ensures p in m <==> HasPath(more, p) {
      ViewHas(d, paths, p);
      AddedPaths(d, paths, mv, f, c, to, p);
    }
    AddedPaths(d, paths, mv, f, c, to, paths[f] + [c]);
    ViewHas(d, paths, paths[f] + [c]);
    assert Shape(e, more) && Shape(d, paths) && to !in paths;
    forall t | t in more ensures t < |e.nodes| && more[t] in m && m[more[t]] == ValueAt(e, more, t) {
      AddedValue(d, paths, f, c, to, t);
    }
    IsView(e, more, m);
  }

  lemma AddedValue(d: Arrays, paths: map<nat, Path>, f: nat, c: nat, to: nat, t: nat)
    requires Shape(d, paths) && f in paths && f < |d.nodes| && to < |d.nodes| && to !in paths && (t == to || t in paths)
    requires paths[f] + [c] !in View(d, paths)
    ensures var m := View(d, paths)[paths[f] + [c] := 0];
      var more := paths[to := paths[f] + [c]];
      t < |d.nodes| && more[t] in m && m[more[t]] == ValueAt(WithChild(d, f, c, to), more, t)
  {
    LastOf(paths[f], paths[f] + [c], c);
    if t != to {
      ViewAt(d, paths, t);
    }
  }

  // ----- New blocks and free places -----

  function Grown(d: Arrays): Arrays {
    Arrays(d.nodes + seq(BLOCK, i => EMPTY), d.kids + seq(BLOCK, i => []))
  }

  lemma GrownSlot(d: Arrays, paths: map<nat, Path>, t: nat)
    requires t in paths && t < |d.nodes| && SlotOk(d, paths, SETTLED, t)
    ensures SlotOk(Grown(d), paths, SETTLED, t)
  {
    hide Xor, Terminal;
  }

  lemma GrownNode(d: Arrays, paths: map<nat, Path>, f: nat)
    requires f in paths && f < |d.nodes| == |d.kids| && NodeOk(d, paths, f)
    ensures NodeOk(Grown(d), paths, f)
  {
    hide Xor, Terminal, HasPath;
  }

  lemma GrownView(d: Arrays, paths: map<nat, Path>)
    requires Shape(d, paths) && Shape(Grown(d), paths)
    ensures View(Grown(d), paths) == View(d, paths)
  {
    hide View, Shape, HasPath;
    var e := Grown(d);
    forall p ensures p in View(d, paths) <==> HasPath(paths, p) {
      ViewHas(d, paths, p);
    }
    forall t | t in paths ensures t < |e.nodes| && paths[t] in View(d, paths) && View(d, paths)[paths[t]] == ValueAt(e, paths, t) {
      ViewAt(d, paths, t);
    }
    IsView(e, paths, View(d, paths));
  }

  lemma GrowKeeps(d: Arrays, paths: map<nat, Path>)
    requires Inv(d, paths, SETTLED)
    ensures Inv(Grown(d), paths, SETTLED) && View(Grown(d), paths) == View(d, paths)
  {
    hide Xor, HasPath, NoRepeats, Terminal, View, SlotOk, NodeOk;
    var e := Grown(d);
    assert Shape(e, paths);
    forall t | t in paths ensures SlotOk(e, paths, SETTLED, t) {
      GrownSlot(d, paths, t);
    }
    forall f | f in paths ensures NodeOk(e, paths, f) {
      GrownNode(d, paths, f);
    }
    GrownView(d, paths);
  }

  // The labels from position k on that are to be moved: all but the new one.
  function RestOf(labels: seq<nat>, k: nat, c: int): set<nat> {
    set j | k <= j < |labels| && labels[j] != c :: labels[j]
  }

  lemma RestNext(labels: seq<nat>, k: nat, c: int)
    requires NoRepeats(labels) && k < |labels|
    ensures RestOf(labels, k + 1, c) == RestOf(labels, k, c) - {labels[k]}
    ensures labels[k] != c ==> labels[k] in RestOf(labels, k, c)
    ensures labels[k] == c ==> RestOf(labels, k + 1, c) == RestOf(labels, k, c)
  {
  }

  // In the middle of moving a node's children together with a new child: the first k
  // labels are at the new base, the places of the others there are free.
  ghost predicate OwnInv(d: Arrays, paths: map<nat, Path>, from: nat, base_: nat, base: nat, path: Path, all: seq<nat>, k: nat, c: nat) {
    var labels := InsertLabel(all, c);
    && Inv(d, paths, Moving(from, base_, RestOf(labels, k, c))) && NoRepeats(all) && c !in all && c < BLOCK && k <= |labels|
    && from in paths && from < |d.nodes| == |d.kids| && from != 0 && paths[from] == path && !Terminal(path)
    && d.nodes[from].base == base >= BLOCK
    && (forall j :: k <= j < |labels| ==> labels[j] < BLOCK && Xor(base, labels[j]) !in paths && 0 < Xor(base, labels[j]) < |d.nodes|)
    && (if c in labels[..k] then Xor(base, c) in paths && paths[Xor(base, c)] == path + [c] else d.kids[from] == all)
  }

  lemma TakeNext(labels: seq<nat>, k: nat, c: nat)
    requires k < |labels|
    ensures c in labels[..k + 1] <==> c in labels[..k] || labels[k] == c
  {
    assert labels[..k + 1] == labels[..k] + [labels[k]];
  }

  // The new child's turn.
  lemma OwnAdd(d: Arrays, paths: map<nat, Path>, from: nat, base_: nat, base: nat, path: Path, all: seq<nat>, k: nat, c: nat)
    requires k < |InsertLabel(all, c)| && InsertLabel(all, c)[k] == c && OwnInv(d, paths, from, base_, base, path, all, k, c)
    ensures CanAdd(d, paths, Moving(from, base_, RestOf(InsertLabel(all, c), k, c)), from, c, Xor(base, c))
    ensures from in paths && paths[from] == path
    ensures OwnInv(WithChild(d, from, c, Xor(base, c)), paths[Xor(base, c) := path + [c]], from, base_, base, path, all, k + 1, c)
    ensures View(WithChild(d, from, c, Xor(base, c)), paths[Xor(base, c) := path + [c]]) == View(d, paths)[path + [c] := 0]
    ensures c !in InsertLabel(all, c)[..k] && c in InsertLabel(all, c)[..k + 1]
  {
    hide Xor, NodeOk, SlotOk, View, Shape, HasPath, Inv, InsertLabel;
    var labels, to, mv := InsertLabel(all, c), Xor(base, c), Moving(from, base_, RestOf(InsertLabel(all, c), k, c));
    InsertLabelContents(all, c);
    TakeNext(labels, k, c);
    RestNext(labels, k, c);
    AddChild(d, paths, mv, from, c, to);
    AddedView(d, paths, mv, from, c, to);
    OthersFree(base, labels, k);
  }

  // The places for different labels differ.
  lemma OthersFree(base: nat, labels: seq<nat>, k: nat)
    requires NoRepeats(labels) && k < |labels| && forall j :: k <= j < |labels| ==> labels[j] < BLOCK
    ensures forall j :: k < j < |labels| ==> Xor(base, labels[j]) != Xor(base, labels[k])
  {
    hide Xor;
    forall j | k < j < |labels| ensures Xor(base, labels[j]) != Xor(base, labels[k]) {
      if Xor(base, labels[j]) == Xor(base, labels[k]) {
        XorLabels(base, labels[j], labels[k]);
      }
    }
  }

  // An old child's turn.
  lemma OwnMove(d: Arrays, paths: map<nat, Path>, from: nat, base_: nat, base: nat, path: Path, all: seq<nat>, k: nat, c: nat)
    requires k < |InsertLabel(all, c)| && InsertLabel(all, c)[k] != c && OwnInv(d, paths, from, base_, base, path, all, k, c)
    ensures var labels := InsertLabel(all, c);
      var mv, to, old_ := Moving(from, base_, RestOf(labels, k, c)), Xor(base, labels[k]), Xor(base_, labels[k]);
      && from < |d.nodes| && d.nodes[from].base == base >= BLOCK
      && CanMove(d, paths, mv, labels[k], old_, to) && Relocated(d, paths, mv, labels[k], old_, to)
      && OwnInv(MovedArrays(d, from, old_, to), MovedPaths(paths, old_, to), from, base_, base, path, all, k + 1, c)
      && View(MovedArrays(d, from, old_, to), MovedPaths(paths, old_, to)) == View(d, paths)
      && (c in labels[..k + 1] <==> c in labels[..k])
  {
    hide Xor, NodeOk, SlotOk, View, HasPath, InsertLabel, Shape, MovedArrays, MovedPaths;
    var labels := InsertLabel(all, c);
    InsertLabelContents(all, c);
    TakeNext(labels, k, c);
    RestNext(labels, k, c);
    CanMoveNext(d, paths, from, base_, base, path, all, k, c);
    hide Inv, CanMove, OwnInv;
    MoveChildKeeps(d, paths, Moving(from, base_, RestOf(labels, k, c)), labels[k], Xor(base_, labels[k]), Xor(base, labels[k]));
    OwnMoved(d, paths, from, base_, base, path, all, k, c, Xor(base_, labels[k]), Xor(base, labels[k]));
  }

  lemma CanMoveNext(d: Arrays, paths: map<nat, Path>, from: nat, base_: nat, base: nat, path: Path, all: seq<nat>, k: nat, c: nat)
    requires k < |InsertLabel(all, c)| && InsertLabel(all, c)[k] != c && OwnInv(d, paths, from, base_, base, path, all, k, c)
    requires InsertLabel(all, c)[k] in RestOf(InsertLabel(all, c), k, c)
    ensures var labels := InsertLabel(all, c);
      CanMove(d, paths, Moving(from, base_, RestOf(labels, k, c)), labels[k], Xor(base_, labels[k]), Xor(base, labels[k]))
    ensures from < |d.nodes| && d.nodes[from].base == base >= BLOCK
  {
    hide Xor, NodeOk, SlotOk, HasPath, InsertLabel, Shape, RestOf;
  }

  // After one move the bundle holds for the next position.
  lemma OwnMoved(d: Arrays, paths: map<nat, Path>, from: nat, base_: nat, base: nat, path: Path, all: seq<nat>, k: nat, c: nat,
                 old_: nat, to: nat)
    requires k < |InsertLabel(all, c)| && InsertLabel(all, c)[k] != c && OwnInv(d, paths, from, base_, base, path, all, k, c)
    requires NoRepeats(InsertLabel(all, c)) && to == Xor(base, InsertLabel(all, c)[k])
    requires Relocated(d, paths, Moving(from, base_, RestOf(InsertLabel(all, c), k, c)), InsertLabel(all, c)[k], old_, to)
    requires Inv(MovedArrays(d, from, old_, to), MovedPaths(paths, old_, to), Moving(from, base_, RestOf(InsertLabel(all, c), k + 1, c)))
    requires c in InsertLabel(all, c)[..k + 1] <==> c in InsertLabel(all, c)[..k]
    ensures OwnInv(MovedArrays(d, from, old_, to), MovedPaths(paths, old_, to), from, base_, base, path, all, k + 1, c)
  {
    hide Xor, Inv, InsertLabel, RestOf, NoRepeats;
    OthersFree(base, InsertLabel(all, c), k);
    if path + [InsertLabel(all, c)[k]] == path + [c] {
      SamePrefix(path, path, InsertLabel(all, c)[k], c);
    }
  }

  lemma OwnFinish(d: Arrays, paths: map<nat, Path>, from: nat, base_: nat, base: nat, path: Path, all: seq<nat>, c: nat)
    requires OwnInv(d, paths, from, base_, base, path, all, |InsertLabel(all, c)|, c)
    ensures Inv(d, paths, SETTLED) && c in InsertLabel(all, c)[..|InsertLabel(all, c)|]
    ensures from in paths && paths[from] == path && Xor(base, c) in paths && paths[Xor(base, c)] == path + [c]
  {
    hide Xor, NodeOk, SlotOk, View, HasPath, Shape, InsertLabel;
    InsertLabelContents(all, c);
    var labels := InsertLabel(all, c);
    assert labels[..|labels|] == labels;
    assert RestOf(labels, |labels|, c) == {};
    FinishMove(d, paths, Moving(from, base_, {}));
  }

  lemma OwnStart(d: Arrays, paths: map<nat, Path>, from: nat, base: nat, c: nat)
    requires Inv(d, paths, SETTLED) && from in paths && from != 0 && !Terminal(paths[from]) && c < BLOCK && c !in d.kids[from]
    requires Fits(d.nodes, base, InsertLabel(d.kids[from], c)) && d.nodes[from].base >= BLOCK
    ensures OwnInv(Rebased(d, from, base), paths, from, d.nodes[from].base, base, paths[from], d.kids[from], 0, c)
    ensures View(Rebased(d, from, base), paths) == View(d, paths)
  {
    hide Xor, SlotOk, HasPath, View, InsertLabel;
    StartMove(d, paths, from, base);
    RebasedView(d, paths, from, base);
    assert NodeOk(d, paths, from);
    InsertLabelContents(d.kids[from], c);
    var labels := InsertLabel(d.kids[from], c);
    RestAll(d.kids[from], c);
    assert forall e :: e in labels ==> e < BLOCK;
    hide NodeOk;
    assert labels[..0] == [];
    assert forall j :: 0 <= j < |labels| ==> labels[j] in labels;
    FitsMeansFree(d, paths, base, labels);
  }

  lemma RestAll(all: seq<nat>, c: nat)
    requires NoRepeats(all) && c !in all
    ensures RestOf(InsertLabel(all, c), 0, c) == LabelSet(all)
  {
    hide InsertLabel;
    InsertLabelContents(all, c);
    forall e ensures e in RestOf(InsertLabel(all, c), 0, c) <==> e in all {
      assert e in InsertLabel(all, c) <==> e == c || e in all;
    }
  }

  lemma FitsMeansFree(d: Arrays, paths: map<nat, Path>, base: nat, labels: seq<nat>)
    requires Shape(d, paths) && Fits(d.nodes, base, labels)
    ensures forall j :: 0 <= j < |labels| ==> Xor(base, labels[j]) !in paths && 0 < Xor(base, labels[j]) < |d.nodes|
  {
    hide Xor;
  }

  lemma NonRoot(d: Arrays, paths: map<nat, Path>, f: nat)
    requires Inv(d, paths, SETTLED) && f in paths && f < |d.nodes| && !Terminal(paths[f]) && d.nodes[f].base >= BLOCK
    ensures f != 0
  {
    assert NodeOk(d, paths, f);
  }

  // What _follow finds at the place for the child.
  lemma FollowFacts(d: Arrays, paths: map<nat, Path>, f: nat, c: nat)
    requires Inv(d, paths, SETTLED) && f in paths && !Terminal(paths[f]) && c < BLOCK && (f == 0 ==> c != 0)
    ensures f < |d.nodes| == |d.kids|
    ensures d.nodes[f].base < 0 ==> f != 0 && d.kids[f] == []
    ensures d.nodes[f].base >= 0 ==>
      var to := Xor(d.nodes[f].base, c);
      && to < |d.nodes|
      && (d.nodes[to].check < 0 ==> CanAdd(d, paths, SETTLED, f, c, to) && paths[f] + [c] !in View(d, paths))
      && (d.nodes[to].check == f ==> to in paths && paths[to] == paths[f] + [c] && paths[f] + [c] in View(d, paths))
      && (d.nodes[to].check >= 0 && d.nodes[to].check != f ==>
            && d.nodes[f].base >= BLOCK && d.nodes[to].check < |d.nodes| && OtherCase(d, paths, d.nodes[to].check, f, c, to)
            && paths[f] + [c] !in View(d, paths))
  {
    assert NodeOk(d, paths, f);
    if d.nodes[f].base >= 0 {
      var to := Xor(d.nodes[f].base, c);
      InBlock(d.nodes[f].base, c, |d.nodes|);
      ToNotRoot(d, paths, f, c);
      hide Xor, NoRepeats;
      ViewHas(d, paths, paths[f] + [c]);
      if d.nodes[to].check == f {
        OwnedSlot(d, paths, SETTLED, f, c);
        assert HasPath(paths, paths[f] + [c]);
      } else {
        NotAKid(d, paths, f, c);
        if d.nodes[to].check >= 0 {
          OwnerInOther(d, paths, f, c, to);
        }
      }
    }
  }

  lemma ToNotRoot(d: Arrays, paths: map<nat, Path>, f: nat, c: nat)
    requires Inv(d, paths, SETTLED) && f in paths && f < |d.nodes| && !Terminal(paths[f]) && c < BLOCK && (f == 0 ==> c != 0)
    requires d.nodes[f].base >= 0
    ensures Xor(d.nodes[f].base, c) != 0
  {
    assert NodeOk(d, paths, f);
    if f == 0 {
      XorZero(0, c);
    } else {
      UpperBlock(d.nodes[f].base, c);
    }
  }

  // The root's places are its own: a conflict is between two other nodes.
  lemma OwnerInOther(d: Arrays, paths: map<nat, Path>, f: nat, c: nat, to: nat)
    requires Inv(d, paths, SETTLED) && f in paths && f < |d.nodes| == |d.kids| && !Terminal(paths[f]) && c < BLOCK
    requires d.nodes[f].base >= 0 && to == Xor(d.nodes[f].base, c) && 0 < to < |d.nodes|
    requires d.nodes[to].check >= 0 && d.nodes[to].check != f
    ensures d.nodes[f].base >= BLOCK && OtherCase(d, paths, d.nodes[to].check, f, c, to)
  {
    hide Xor, NoRepeats, HasPath;
    SlotListed(d, paths, SETTLED, to);
    var g, mine := d.nodes[to].check, paths[to][|paths[to]| - 1];
    assert SlotOk(d, paths, SETTLED, to) && NodeOk(d, paths, g) && NodeOk(d, paths, f);
    XorFacts(d.nodes[g].base, mine);
    XorFacts(d.nodes[f].base, c);
  }

  // A node without a base gets one where its first child fits.
  lemma FreshBase(d: Arrays, paths: map<nat, Path>, f: nat, base: nat, c: nat)
    requires Inv(d, paths, SETTLED) && f in paths && f != 0 && f < |d.nodes| == |d.kids| && !Terminal(paths[f]) && c < BLOCK
    requires d.kids[f] == [] && Fits(d.nodes, base, [c])
    ensures CanAdd(Rebased(d, f, base), paths, SETTLED, f, c, Xor(base, c)) && View(Rebased(d, f, base), paths) == View(d, paths)
    ensures paths[f] + [c] !in View(d, paths)
  {
    hide Xor, SlotOk, HasPath, View;
    assert NodeOk(d, paths, f);
    StartMove(d, paths, f, base);
    RebasedView(d, paths, f, base);
    FinishMove(Rebased(d, f, base), paths, Moving(f, d.nodes[f].base, LabelSet(d.kids[f])));
    FitsMeansFree(d, paths, base, [c]);
    assert [c][0] == c;
    ViewHas(d, paths, paths[f] + [c]);
  }

  // Node fromN wants a child by c, and the slot for it belongs to another node.
  ghost predicate OtherCase(d: Arrays, paths: map<nat, Path>, fromP: nat, fromN: nat, c: nat, slot: nat) {
    && fromP < |d.nodes| == |d.kids| && fromN < |d.nodes| && fromN in paths && !Terminal(paths[fromN]) && c < BLOCK
    && d.nodes[fromN].base >= BLOCK && slot == Xor(d.nodes[fromN].base, c) && slot < |d.nodes|
    && d.nodes[slot].check == fromP && fromP != fromN
  }

  // A relocation of another node's children: that node, its old and new base, its
  // path and labels, and which of them lies in the disputed slot; the path and base
  // of the node that gets the new child, its label, and the slot.
  datatype Other = Other(from: nat, base_: nat, base: nat, path: Path, all: seq<nat>, mine: nat,
                         pathN: Path, baseN: nat, c: nat, slot: nat)

  ghost predicate OtherShape(d: Arrays, paths: map<nat, Path>, job: Other, fromN: nat, k: nat) {
    && Inv(d, paths, Moving(job.from, job.base_, RestOf(job.all, k, -1))) && NoRepeats(job.all) && k <= |job.all|
    && job.from in paths && job.from < |d.nodes| == |d.kids| && job.from != 0 && paths[job.from] == job.path && !Terminal(job.path)
    && d.nodes[job.from].base == job.base >= BLOCK
    && (forall j :: k <= j < |job.all| ==>
          && job.all[j] < BLOCK && Xor(job.base, job.all[j]) !in paths && 0 < Xor(job.base, job.all[j]) < |d.nodes|
          && Xor(job.base, job.all[j]) != job.slot)
    && fromN in paths && fromN < |d.nodes| && fromN != job.from && paths[fromN] == job.pathN && !Terminal(job.pathN)
    && d.nodes[fromN].base == job.baseN >= BLOCK && job.pathN != job.path
    && job.c < BLOCK && job.slot == Xor(job.baseN, job.c) && 0 < job.slot < |d.nodes|
    && job.mine in job.all && job.slot == Xor(job.base_, job.mine)
  }

  // Up to the turn of the label in dispute its child is in the slot, from then on the
  // new child.
  ghost predicate OtherInv(d: Arrays, paths: map<nat, Path>, job: Other, fromN: nat, k: nat) {
    && OtherShape(d, paths, job, fromN, k) && job.slot in paths
    && if job.mine in job.all[..k] then paths[job.slot] == job.pathN + [job.c]
       else paths[job.slot] == job.path + [job.mine] && job.c !in d.kids[fromN]
  }

  // Between the move of child k and what follows it.
  ghost predicate OtherMoved(d: Arrays, paths: map<nat, Path>, job: Other, fromN: nat, k: nat) {
    && k < |job.all| && OtherShape(d, paths, job, fromN, k + 1)
    && if job.all[k] == job.mine then job.slot !in paths && job.c !in d.kids[fromN]
       else job.slot in paths && if job.mine in job.all[..k] then paths[job.slot] == job.pathN + [job.c]
                                 else paths[job.slot] == job.path + [job.mine] && job.c !in d.kids[fromN]
  }

  lemma OtherCanMove(d: Arrays, paths: map<nat, Path>, job: Other, fromN: nat, k: nat)
    requires k < |job.all| && OtherInv(d, paths, job, fromN, k)
    ensures job.from < |d.nodes| && d.nodes[job.from].base == job.base >= BLOCK
    ensures CanMove(d, paths, Moving(job.from, job.base_, RestOf(job.all, k, -1)), job.all[k],
                    Xor(job.base_, job.all[k]), Xor(job.base, job.all[k]))
  {
    hide Xor, NodeOk, SlotOk, HasPath, Shape;
    RestNext(job.all, k, -1);
  }

  // Where fromN is after the move.
  function NowAt(fromN: nat, old_: nat, to: nat): nat {
    if old_ == fromN then to else fromN
  }

  lemma MovedShapeOther(d: Arrays, paths: map<nat, Path>, job: Other, fromN: nat, k: nat, old_: nat, to: nat)
    requires k < |job.all| && OtherShape(d, paths, job, fromN, k) && to == Xor(job.base, job.all[k])
    requires Relocated(d, paths, Moving(job.from, job.base_, RestOf(job.all, k, -1)), job.all[k], old_, to)
    requires Inv(MovedArrays(d, job.from, old_, to), MovedPaths(paths, old_, to), Moving(job.from, job.base_, RestOf(job.all, k + 1, -1)))
    ensures OtherShape(MovedArrays(d, job.from, old_, to), MovedPaths(paths, old_, to), job, NowAt(fromN, old_, to), k + 1)
    ensures job.c !in d.kids[fromN] ==> job.c !in MovedArrays(d, job.from, old_, to).kids[NowAt(fromN, old_, to)]
  {
    hide Xor, Inv, RestOf, NoRepeats;
    OthersFree(job.base, job.all, k);
  }

  lemma OtherMoves(d: Arrays, paths: map<nat, Path>, job: Other, fromN: nat, k: nat)
    requires k < |job.all| && OtherInv(d, paths, job, fromN, k)
    ensures var mv, to, old_ := Moving(job.from, job.base_, RestOf(job.all, k, -1)), Xor(job.base, job.all[k]), Xor(job.base_, job.all[k]);
      && Relocated(d, paths, mv, job.all[k], old_, to)
      && OtherMoved(MovedArrays(d, job.from, old_, to), MovedPaths(paths, old_, to), job, NowAt(fromN, old_, to), k)
      && View(MovedArrays(d, job.from, old_, to), MovedPaths(paths, old_, to)) == View(d, paths)
      && (old_ == job.slot <==> job.all[k] == job.mine)
  {
    var to, old_ := Xor(job.base, job.all[k]), Xor(job.base_, job.all[k]);
    hide Xor, View, MovedArrays, MovedPaths, NodeOk, SlotOk, HasPath, Shape;
    OtherCanMove(d, paths, job, fromN, k);
    RestNext(job.all, k, -1);
    MoveChildKeeps(d, paths, Moving(job.from, job.base_, RestOf(job.all, k, -1)), job.all[k], old_, to);
    hide Inv, CanMove, RestOf;
    MovedShapeOther(d, paths, job, fromN, k, old_, to);
    OtherSlotMoved(d, paths, job, fromN, k, old_, to);
  }

  // The disputed slot in a move.
  lemma OtherSlotMoved(d: Arrays, paths: map<nat, Path>, job: Other, fromN: nat, k: nat, old_: nat, to: nat)
    requires k < |job.all| && OtherInv(d, paths, job, fromN, k)
    requires to == Xor(job.base, job.all[k]) && old_ == Xor(job.base_, job.all[k])
    requires Relocated(d, paths, Moving(job.from, job.base_, RestOf(job.all, k, -1)), job.all[k], old_, to)
    ensures old_ == job.slot <==> job.all[k] == job.mine
    ensures job.all[k] == job.mine ==> job.mine !in job.all[..k] && job.slot !in MovedPaths(paths, old_, to)
    ensures job.all[k] != job.mine ==> job.slot in MovedPaths(paths, old_, to) && MovedPaths(paths, old_, to)[job.slot] == paths[job.slot]
  {
    hide Xor, Inv, RestOf;
    if job.all[k] == job.mine {
      assert forall j :: 0 <= j < k ==> job.all[j] != job.all[k];
    } else {
      if job.path + [job.all[k]] == job.path + [job.mine] {
        SamePrefix(job.path, job.path, job.all[k], job.mine);
      }
      if job.path + [job.all[k]] == job.pathN + [job.c] {
        SamePrefix(job.path, job.pathN, job.all[k], job.c);
      }
    }
  }

  lemma OtherAdd(d: Arrays, paths: map<nat, Path>, job: Other, fromN: nat, k: nat)
    requires OtherMoved(d, paths, job, fromN, k) && job.all[k] == job.mine
    ensures CanAdd(d, paths, Moving(job.from, job.base_, RestOf(job.all, k + 1, -1)), fromN, job.c, job.slot)
    ensures fromN in paths && paths[fromN] == job.pathN
    ensures OtherInv(WithChild(d, fromN, job.c, job.slot), paths[job.slot := job.pathN + [job.c]], job, fromN, k + 1)
    ensures View(WithChild(d, fromN, job.c, job.slot), paths[job.slot := job.pathN + [job.c]]) == View(d, paths)[job.pathN + [job.c] := 0]
  {
    hide Xor, View, NodeOk, SlotOk, HasPath, Shape, InsertLabel, NoRepeats, RestOf;
    var mv := Moving(job.from, job.base_, RestOf(job.all, k + 1, -1));
    AddChild(d, paths, mv, fromN, job.c, job.slot);
    AddedView(d, paths, mv, fromN, job.c, job.slot);
    hide Inv;
    assert job.all[..k + 1][k] == job.all[k];
  }

  lemma OtherStay(d: Arrays, paths: map<nat, Path>, job: Other, fromN: nat, k: nat)
    requires OtherMoved(d, paths, job, fromN, k) && job.all[k] != job.mine
    ensures OtherInv(d, paths, job, fromN, k + 1)
  {
    hide OtherShape;
    TakeNext(job.all, k, job.mine);
  }

  // A used slot outside block 0 belongs to a node other than the root.
  lemma OwnerOf(d: Arrays, paths: map<nat, Path>, slot: nat) returns (mine: nat)
    requires Inv(d, paths, SETTLED) && slot < |d.nodes| == |d.kids| && d.nodes[slot].check >= 0 && slot >= BLOCK
    ensures slot in paths && slot != 0
    ensures var f := d.nodes[slot].check;
      && f in paths && f != 0 && f < |d.nodes| && !Terminal(paths[f]) && d.nodes[f].base >= BLOCK
      && mine in d.kids[f] && slot == Xor(d.nodes[f].base, mine) && paths[slot] == paths[f] + [mine]
  {
    hide Xor, HasPath, NoRepeats;
    SlotListed(d, paths, SETTLED, slot);
    mine := paths[slot][|paths[slot]| - 1];
    var f := d.nodes[slot].check;
    assert SlotOk(d, paths, SETTLED, slot) && NodeOk(d, paths, f);
    if d.nodes[f].base >= 0 {
      XorFacts(d.nodes[f].base, mine);
    }
  }

  lemma NodeFacts(d: Arrays, paths: map<nat, Path>, f: nat)
    requires Inv(d, paths, SETTLED) && f in paths
    ensures f < |d.nodes| == |d.kids| && NoRepeats(d.kids[f]) && forall e :: e in d.kids[f] ==> e < BLOCK
  {
    hide Xor, HasPath, SlotOk;
    assert NodeOk(d, paths, f);
  }

  // A slot that another node owns is no child of this one.
  lemma NotAKid(d: Arrays, paths: map<nat, Path>, f: nat, c: nat)
    requires Inv(d, paths, SETTLED) && f in paths && f < |d.nodes| == |d.kids| && d.nodes[f].base >= 0
    requires Xor(d.nodes[f].base, c) < |d.nodes| && d.nodes[Xor(d.nodes[f].base, c)].check != f
    ensures c !in d.kids[f]
  {
    hide Xor, HasPath, SlotOk, NodeOk;
    if c in d.kids[f] {
      ChildSlot(d, paths, SETTLED, f, c);
      assert false;
    }
  }

  lemma DistinctPaths(d: Arrays, paths: map<nat, Path>, f: nat, g: nat)
    requires Inv(d, paths, SETTLED) && f in paths && g in paths && f != g
    ensures paths[f] != paths[g]
  {
    hide NodeOk, SlotOk;
  }

  // The other node's child list names the label in dispute.
  lemma OtherCaseFacts(d: Arrays, paths: map<nat, Path>, fromP: nat, fromN: nat, c: nat, slot: nat) returns (mine: nat)
    requires Inv(d, paths, SETTLED) && OtherCase(d, paths, fromP, fromN, c, slot)
    ensures fromP in paths && fromP != 0 && !Terminal(paths[fromP]) && slot in paths && slot != 0
    ensures d.nodes[fromP].base >= BLOCK && d.kids[fromP] != [] && c !in d.kids[fromN]
    ensures mine in d.kids[fromP] && slot == Xor(d.nodes[fromP].base, mine) && paths[slot] == paths[fromP] + [mine]
    ensures paths[fromP] != paths[fromN] && NoRepeats(d.kids[fromP]) && forall e :: e in d.kids[fromP] ==> e < BLOCK
  {
    hide Xor, NoRepeats, Terminal, Inv;
    UpperBlock(d.nodes[fromN].base, c);
    mine := OwnerOf(d, paths, slot);
    NodeFacts(d, paths, fromP);
    NotAKid(d, paths, fromN, c);
    DistinctPaths(d, paths, fromP, fromN);
    assert mine in d.kids[fromP];
  }

  lemma OtherCaseStays(d: Arrays, e: Arrays, paths: map<nat, Path>, fromP: nat, fromN: nat, c: nat, slot: nat)
    requires OtherCase(d, paths, fromP, fromN, c, slot) && |e.nodes| == |e.kids| >= |d.nodes|
    requires forall i :: 0 <= i < |d.nodes| ==> e.nodes[i] == d.nodes[i] && e.kids[i] == d.kids[i]
    ensures OtherCase(e, paths, fromP, fromN, c, slot) && e.kids[fromP] == d.kids[fromP] && e.nodes[fromP] == d.nodes[fromP]
  {
    hide Xor;
  }

  lemma OtherStart(d: Arrays, paths: map<nat, Path>, fromP: nat, fromN: nat, c: nat, slot: nat, base: nat) returns (job: Other)
    requires Inv(d, paths, SETTLED) && OtherCase(d, paths, fromP, fromN, c, slot) && Fits(d.nodes, base, d.kids[fromP])
    ensures fromN in paths && job.pathN == paths[fromN] && job.c == c && job.slot == slot && job.from == fromP
    ensures job.base_ == d.nodes[fromP].base && job.all == d.kids[fromP]
    ensures OtherInv(Rebased(d, fromP, base), paths, job, fromN, 0)
    ensures View(Rebased(d, fromP, base), paths) == View(d, paths)
  {
    hide Xor, HasPath, View, NodeOk, SlotOk;
    var mine := OtherCaseFacts(d, paths, fromP, fromN, c, slot);
    job := Other(fromP, d.nodes[fromP].base, base, paths[fromP], d.kids[fromP], mine, paths[fromN], d.nodes[fromN].base, c, slot);
    StartMove(d, paths, fromP, base);
    RebasedView(d, paths, fromP, base);
    FitsMeansFree(d, paths, base, job.all);
    RestIsAll(job.all);
    hide Inv, Shape, Fits, NoRepeats;
    assert forall j :: 0 <= j < |job.all| ==> job.all[j] in job.all;
    assert job.all[..0] == [];
  }

  lemma RestIsAll(all: seq<nat>)
    ensures RestOf(all, 0, -1) == LabelSet(all)
  {
  }

  lemma OtherFinish(d: Arrays, paths: map<nat, Path>, job: Other, fromN: nat)
    requires OtherInv(d, paths, job, fromN, |job.all|)
    ensures Inv(d, paths, SETTLED) && job.mine in job.all[..|job.all|]
    ensures fromN in paths && paths[fromN] == job.pathN && job.slot in paths && paths[job.slot] == job.pathN + [job.c]
  {
    hide Xor, NodeOk, SlotOk, HasPath, Shape;
    assert job.all[..|job.all|] == job.all;
    assert RestOf(job.all, |job.all|, -1) == {};
    FinishMove(d, paths, Moving(job.from, job.base_, {}));
  }

  // Forwarded facts of a finished move.
  lemma MoveChildKeeps(d: Arrays, paths: map<nat, Path>, mv: Moving, c: nat, old_: nat, to: nat)
    requires CanMove(d, paths, mv, c, old_, to)
    ensures Relocated(d, paths, mv, c, old_, to)
    ensures var e, moved := MovedArrays(d, mv.from, old_, to), MovedPaths(paths, old_, to);
      Inv(e, moved, mv.(rest := mv.rest - {c})) && View(e, moved) == View(d, paths)
  {
    hide Inv, Xor, NodeOk, SlotOk, View, MovedArrays, MovedPaths, Shape;
    MoveOne(d, paths, mv, c, old_, to);
    InvShape(d, paths, mv);
    InvShape(MovedArrays(d, mv.from, old_, to), MovedPaths(paths, old_, to), mv.(rest := mv.rest - {c}));
    MovedView(d, paths, mv, c, old_, to);
  }

  lemma AtBaseNone(b: int)
    ensures forall t :: !AtBase([], b, t)
  {
  }

  lemma MovedIs(d: Arrays, from: nat, old_: nat, to: nat, e: Arrays)
    requires old_ < |d.nodes| == |d.kids| == |e.nodes| && to < |d.nodes|
    requires forall t: nat :: t < |d.nodes| ==> e.nodes[t] == MovedNodes(d, from, old_, to)[t]
    requires e.kids == d.kids[to := d.kids[old_]][old_ := []]
    ensures e == MovedArrays(d, from, old_, to)
  {
    hide MovedNodes;
    assert e.nodes == MovedNodes(d, from, old_, to);
  }

  // t is where a child with one of these labels hangs.
  ghost predicate AtBase(labels: seq<nat>, b: int, t: nat) {
    b >= 0 && exists j :: 0 <= j < |labels| && Xor(b, labels[j]) == t
  }

  lemma AtBaseNext(labels: seq<nat>, b: nat, i: nat)
    requires i < |labels|
    ensures forall t :: AtBase(labels[..i + 1], b, t) <==> AtBase(labels[..i], b, t) || t == Xor(b, labels[i])
  {
    hide Xor;
    forall t: nat ensures AtBase(labels[..i + 1], b, t) <==> AtBase(labels[..i], b, t) || t == Xor(b, labels[i]) {
      if AtBase(labels[..i], b, t) {
        var j :| 0 <= j < i && Xor(b, labels[..i][j]) == t;
        assert labels[..i + 1][j] == labels[..i][j];
      }
      assert labels[..i + 1][i] == labels[i];
      if AtBase(labels[..i + 1], b, t) {
        var j :| 0 <= j < i + 1 && Xor(b, labels[..i + 1][j]) == t;
        assert j < i ==> labels[..i][j] == labels[..i + 1][j];
      }
    }
  }

  // The slots whose check names the moving child are where its list says.
  lemma GrandChild(d: Arrays, paths: map<nat, Path>, mv: Moving, c: nat, old_: nat, to: nat, t: nat)
    requires CanMove(d, paths, mv, c, old_, to) && old_ < |d.nodes| && old_ in paths && old_ != mv.from && t < |d.nodes|
    requires paths[old_] == paths[mv.from] + [c]
    ensures d.nodes[t].check == old_ <==> d.nodes[old_].base > 0 && c != 0 && AtBase(d.kids[old_], d.nodes[old_].base, t)
    ensures d.nodes[t].check == old_ ==> t != to && t != old_
    ensures d.nodes[old_].base > 0 && c != 0 && AtBase(d.kids[old_], d.nodes[old_].base, t) ==> t < |d.nodes|
  {
    LastOf(paths[mv.from], paths[old_], c);
    assert NodeOk(d, paths, old_);
    if d.nodes[t].check == old_ {
      SlotListed(d, paths, mv, t);
    }
    if d.nodes[old_].base > 0 && c != 0 && AtBase(d.kids[old_], d.nodes[old_].base, t) {
      var j :| 0 <= j < |d.kids[old_]| && Xor(d.nodes[old_].base, d.kids[old_][j]) == t;
      ChildSlot(d, paths, mv, old_, d.kids[old_][j]);
    }
  }

  lemma GrandChildren(d: Arrays, paths: map<nat, Path>, mv: Moving, c: nat, old_: nat, to: nat)
    requires CanMove(d, paths, mv, c, old_, to) && Relocated(d, paths, mv, c, old_, to)
    ensures forall t: nat :: t < |d.nodes| ==>
      (d.nodes[t].check == old_ <==> d.nodes[old_].base > 0 && c != 0 && AtBase(d.kids[old_], d.nodes[old_].base, t))
    ensures forall t: nat :: t < |d.nodes| && d.nodes[t].check == old_ ==> t != to && t != old_
    ensures d.nodes[old_].base > 0 && c != 0 ==>
      forall g :: g in d.kids[old_] ==> Xor(d.nodes[old_].base, g) < |d.nodes| && Xor(d.nodes[old_].base, g) != to
  {
    hide Xor, Inv, AtBase;
    forall t: nat | t < |d.nodes|
      ensures d.nodes[t].check == old_ <==> d.nodes[old_].base > 0 && c != 0 && AtBase(d.kids[old_], d.nodes[old_].base, t)
      ensures d.nodes[t].check == old_ ==> t != to && t != old_
    {
      GrandChild(d, paths, mv, c, old_, to, t);
    }
    if d.nodes[old_].base > 0 && c != 0 {
      forall g | g in d.kids[old_] ensures Xor(d.nodes[old_].base, g) < |d.nodes| && Xor(d.nodes[old_].base, g) != to {
        GrandSlot(d, paths, mv, c, old_, to, g);
      }
    }
  }

  lemma NoKids(d: Arrays, paths: map<nat, Path>, mv: Moving, c: nat, old_: nat, to: nat)
    requires CanMove(d, paths, mv, c, old_, to) && Relocated(d, paths, mv, c, old_, to)
    ensures d.kids[to] == []
    ensures d.nodes[old_].base <= 0 || c == 0 ==> d.kids[old_] == []
  {
    hide Xor, SlotOk, HasPath, NoRepeats;
    LastOf(paths[mv.from], paths[old_], c);
    assert NodeOk(d, paths, old_);
    assert forall k :: k in d.kids[old_] ==> d.kids[old_] != [];
    if d.kids[old_] != [] {
      assert d.kids[old_][0] in d.kids[old_];
    }
  }

  lemma GrandSlot(d: Arrays, paths: map<nat, Path>, mv: Moving, c: nat, old_: nat, to: nat, g: nat)
    requires CanMove(d, paths, mv, c, old_, to) && Relocated(d, paths, mv, c, old_, to) && g in d.kids[old_]
    requires d.nodes[old_].base > 0
    ensures Xor(d.nodes[old_].base, g) < |d.nodes| && Xor(d.nodes[old_].base, g) != to
  {
    hide Xor, SlotOk, NodeOk;
    ChildSlot(d, paths, mv, old_, g);
  }

  lemma InvShape(d: Arrays, paths: map<nat, Path>, mv: Moving)
    requires Inv(d, paths, mv)
    ensures Shape(d, paths) && |d.nodes| == |d.kids|
  {
  }

  lemma InitialInv()
    ensures var d := Arrays([Node(0, -1)] + seq(BLOCK - 1, i => EMPTY), seq(BLOCK, i => []));
      Inv(d, map[0 := []], SETTLED) && View(d, map[0 := []]) == map[[] := 0]
  {
    var d, paths := Arrays([Node(0, -1)] + seq(BLOCK - 1, i => EMPTY), seq(BLOCK, i => [])), map[0 := []];
    forall c: nat ensures !HasPath(paths, [] + [c]) {
    }
    assert paths[0] == [] && HasPath(paths, []);
    assert Shape(d, paths) && NodeOk(d, paths, 0);
    IsView(d, paths, map[[] := 0]);
  }

  // A key has at least one byte, and no byte 0.
  predicate IsKey(key: seq<nat>) {
    key != [] && forall i :: 0 <= i < |key| ==> 0 < key[i] < BLOCK
  }

  // The first n prefixes of the key are there.
  function WithPrefixes(m: map<Path, int>, key: seq<nat>, n: nat): map<Path, int>
    requires n <= |key|
  {
    if n == 0 then m else Added(WithPrefixes(m, key, n - 1), key[..n])
  }

  // The contents after val has been added to the key's value.
  function Stored(m: map<Path, int>, key: seq<nat>, val: int): map<Path, int> {
    var all := Added(WithPrefixes(m, key, |key|), key + [0]);
    all[key + [0] := all[key + [0]] + val]
  }

  // What a search tells: the value, a prefix without value, or nothing at all.
  datatype Lookup = NoPath | NoValue | Value(value: int)

  function LookupIn(m: map<Path, int>, key: seq<nat>): Lookup {
    if key + [0] in m then Value(m[key + [0]]) else if key in m then NoValue else NoPath
  }

  lemma RootStored(d: Arrays, paths: map<nat, Path>)
    requires Inv(d, paths, SETTLED)
    ensures 0 in paths && paths[0] == [] && 0 < |d.nodes| == |d.kids|
  {
  }

  lemma RootPath(d: Arrays, paths: map<nat, Path>, t: nat)
    requires Inv(d, paths, SETTLED) && t in paths && paths[t] != []
    ensures t != 0
  {
  }

  lemma ByteIsOpen(key: seq<nat>, pos: nat)
    requires (forall i :: 0 <= i < |key| ==> 0 < key[i] < BLOCK) && pos <= |key|
    ensures !Terminal(key[..pos])
  {
  }

  // What is not there has no continuation.
  lemma {:induction false} NoExtension(d: Arrays, paths: map<nat, Path>, p: Path, q: Path)
    requires Inv(d, paths, SETTLED) && !HasPath(paths, p) && p <= q
    ensures !HasPath(paths, q)
    decreases |q|
  {
    hide Inv, HasPath;
    if |p| < |q| {
      var n := |q| - 1;
      assert q == q[..n] + [q[n]];
      NoExtension(d, paths, p, q[..n]);
      NoOrphans(d, paths, SETTLED, q[..n], q[n]);
    } else {
      assert p == q;
    }
  }

  // The end of the key is reached at a node with a base.
  lemma EndFacts(d: Arrays, paths: map<nat, Path>, f: nat, key: seq<nat>)
    requires Inv(d, paths, SETTLED) && f in paths && f < |d.nodes| && paths[f] == key && !Terminal(key) && d.nodes[f].base >= 0
    ensures d.nodes[f].base < |d.nodes| && key in View(d, paths)
    ensures var n := d.nodes[d.nodes[f].base];
      if n.check == f then key + [0] in View(d, paths) && View(d, paths)[key + [0]] == n.base else key + [0] !in View(d, paths)
  {
    hide View;
    assert NodeOk(d, paths, f);
    XorZero(d.nodes[f].base, 0);
    ViewAt(d, paths, f);
    ViewHas(d, paths, key + [0]);
    hide Xor;
    if d.nodes[d.nodes[f].base].check == f {
      OwnedSlot(d, paths, SETTLED, f, 0);
      ViewAt(d, paths, d.nodes[f].base);
      LastOf(key, key + [0], 0);
    } else {
      NotAKid(d, paths, f, 0);
    }
  }

  // One byte further.
  lemma StepFacts(d: Arrays, paths: map<nat, Path>, f: nat, key: seq<nat>, pos: nat)
    requires Inv(d, paths, SETTLED) && f in paths && f < |d.nodes| && pos < |key| && paths[f] == key[..pos] && !Terminal(key[..pos])
    requires 0 < key[pos] < BLOCK && d.nodes[f].base >= 0
    ensures var to := Xor(d.nodes[f].base, key[pos]);
      && to < |d.nodes|
      && (d.nodes[to].check == f ==> to in paths && paths[to] == key[..pos + 1] && to != 0)
      && (d.nodes[to].check != f ==> key !in View(d, paths) && key + [0] !in View(d, paths))
  {
    hide View, Xor, SlotOk, HasPath, NoRepeats;
    assert NodeOk(d, paths, f);
    InvShape(d, paths, SETTLED);
    assert |d.nodes| % BLOCK == 0;
    InBlock(d.nodes[f].base, key[pos], |d.nodes|);
    assert key[..pos + 1] == key[..pos] + [key[pos]];
    if d.nodes[Xor(d.nodes[f].base, key[pos])].check == f {
      OwnedSlot(d, paths, SETTLED, f, key[pos]);
    } else {
      NotAKid(d, paths, f, key[pos]);
      hide Inv, Shape;
      NotBeyond(d, paths, key, pos + 1);
    }
  }

  lemma NotBeyond(d: Arrays, paths: map<nat, Path>, key: seq<nat>, n: nat)
    requires Inv(d, paths, SETTLED) && n <= |key| && !HasPath(paths, key[..n])
    ensures key !in View(d, paths) && key + [0] !in View(d, paths)
  {
    hide HasPath, View, SlotOk, NodeOk;
    NoExtension(d, paths, key[..n], key);
    NoExtension(d, paths, key[..n], key + [0]);
    ViewHas(d, paths, key);
    ViewHas(d, paths, key + [0]);
  }

  // A node without a base has no children.
  lemma LeafFacts(d: Arrays, paths: map<nat, Path>, f: nat, key: seq<nat>, pos: nat)
    requires Inv(d, paths, SETTLED) && f in paths && f < |d.nodes| == |d.kids| && pos <= |key| && paths[f] == key[..pos] && !Terminal(key[..pos])
    requires d.nodes[f].base < 0
    ensures pos < |key| ==> key !in View(d, paths) && key + [0] !in View(d, paths)
    ensures pos == |key| ==> key in View(d, paths) && key + [0] !in View(d, paths)
  {
    hide View, Xor, SlotOk;
    assert NodeOk(d, paths, f);
    assert d.kids[f] == [];
    if pos < |key| {
      assert key[..pos + 1] == key[..pos] + [key[pos]];
      assert key[pos] !in d.kids[f];
      NotBeyond(d, paths, key, pos + 1);
    } else {
      assert key[..pos] == key && 0 !in d.kids[f];
      ViewAt(d, paths, f);
      ViewHas(d, paths, key + [0]);
    }
  }

  // A value is changed in place.
  lemma SetValueKeeps(d: Arrays, paths: map<nat, Path>, t: nat, key: seq<nat>, val: int)
    requires Inv(d, paths, SETTLED) && t in paths && paths[t] == key + [0]
    ensures t < |d.nodes|
    ensures var e := Rebased(d, t, d.nodes[t].base + val);
      && Inv(e, paths, SETTLED) && key + [0] in View(d, paths) && e.nodes[t].base == View(e, paths)[key + [0]]
      && View(e, paths) == View(d, paths)[key + [0] := View(d, paths)[key + [0]] + val]
  {
    hide Xor, View, HasPath, NoRepeats, SlotOk, NodeOk;
    LastOf(key, key + [0], 0);
    var e := Rebased(d, t, d.nodes[t].base + val);
    assert Shape(e, paths);
    forall u | u in paths ensures SlotOk(e, paths, SETTLED, u) {
      ValueSlot(d, paths, t, d.nodes[t].base + val, u);
    }
    forall f | f in paths ensures NodeOk(e, paths, f) {
      ValueNode(d, paths, t, d.nodes[t].base + val, f);
    }
    hide Shape;
    ValueView(d, paths, t, key, val);
  }

  lemma ValueSlot(d: Arrays, paths: map<nat, Path>, t: nat, b: int, u: nat)
    requires t in paths && t < |d.nodes| && Terminal(paths[t]) && u in paths && u < |d.nodes| && SlotOk(d, paths, SETTLED, u)
    ensures SlotOk(Rebased(d, t, b), paths, SETTLED, u)
  {
    hide Xor, Terminal;
  }

  lemma ValueNode(d: Arrays, paths: map<nat, Path>, t: nat, b: int, f: nat)
    requires t in paths && t < |d.nodes| == |d.kids| && Terminal(paths[t]) && f in paths && f < |d.nodes| && NodeOk(d, paths, f)
    ensures NodeOk(Rebased(d, t, b), paths, f)
  {
    hide Terminal, HasPath, NoRepeats;
  }

  lemma ValueView(d: Arrays, paths: map<nat, Path>, t: nat, key: seq<nat>, val: int)
    requires Shape(d, paths) && t in paths && t < |d.nodes| && paths[t] == key + [0]
    requires Shape(Rebased(d, t, d.nodes[t].base + val), paths)
    ensures var e := Rebased(d, t, d.nodes[t].base + val);
      && key + [0] in View(d, paths) && key + [0] in View(e, paths) && e.nodes[t].base == View(e, paths)[key + [0]]
      && View(e, paths) == View(d, paths)[key + [0] := View(d, paths)[key + [0]] + val]
  {
    hide View, HasPath;
    LastOf(key, key + [0], 0);
    var e := Rebased(d, t, d.nodes[t].base + val);
    ViewAt(d, paths, t);
    var m := View(d, paths)[key + [0] := View(d, paths)[key + [0]] + val];
    forall p ensures p in m <==> HasPath(paths, p) {
      ViewHas(d, paths, p);
    }
    forall u | u in paths ensures u < |e.nodes| && paths[u] in m && m[paths[u]] == ValueAt(e, paths, u) {
      ViewAt(d, paths, u);
    }
    IsView(e, paths, m);
  }

  // ----- Runs of insertions -----

  // Prefixes of a key are never closed keys.
  lemma {:induction false} PrefixesLeaveKeys(m: map<Path, int>, key: seq<nat>, n: nat, other: seq<nat>)
    requires n <= |key| && forall i :: 0 <= i < |key| ==> 0 < key[i] < BLOCK
    ensures var all := WithPrefixes(m, key, n);
      (other + [0] in all <==> other + [0] in m) && (other + [0] in m ==> all[other + [0]] == m[other + [0]])
  {
    if n > 0 {
      PrefixesLeaveKeys(m, key, n - 1, other);
      LastOf(other, other + [0], 0);
      assert key[..n][n - 1] != 0;
    }
  }

  // Storing a key adds to its value and leaves the values of all other keys.
  lemma StoredLookup(m: map<Path, int>, key: seq<nat>, val: int, other: seq<nat>)
    requires IsKey(key)
    ensures var before, after := LookupIn(m, other), LookupIn(Stored(m, key, val), other);
      if other == key then after == Value(val + if before.Value? then before.value else 0)
      else after.Value? == before.Value? && (before.Value? ==> after == before)
  {
    PrefixesLeaveKeys(m, key, |key|, other);
    PrefixesLeaveKeys(m, key, |key|, key);
    if other + [0] == key + [0] {
      SamePrefix(other, key, 0, 0);
    }
    hide WithPrefixes;
  }

  datatype Insertion = Insertion(key: seq<nat>, val: int)

  // The contents after a run of updates of an empty trie.
  function AfterAll(run: seq<Insertion>): map<Path, int> {
    if run == [] then map[[] := 0]
    else Stored(AfterAll(run[..|run| - 1]), run[|run| - 1].key, run[|run| - 1].val)
  }

  predicate Inserted(run: seq<Insertion>, key: seq<nat>) {
    exists i :: 0 <= i < |run| && run[i].key == key
  }

  function Total(run: seq<Insertion>, key: seq<nat>): int {
    if run == [] then 0
    else Total(run[..|run| - 1], key) + if run[|run| - 1].key == key then run[|run| - 1].val else 0
  }

  lemma {:induction false} NotInserted(run: seq<Insertion>, key: seq<nat>)
    requires !Inserted(run, key)
    ensures Total(run, key) == 0
  {
    if run != [] {
      var n := |run| - 1;
      assert run[n].key != key;
      assert forall i :: 0 <= i < n ==> run[..n][i].key != key;
      NotInserted(run[..n], key);
    }
  }

  // Some inserted key starts with this one.
  predicate Begun(run: seq<Insertion>, key: seq<nat>) {
    exists i :: 0 <= i < |run| && key <= run[i].key
  }

  lemma {:induction false} PrefixesAdd(m: map<Path, int>, key: seq<nat>, n: nat, p: Path)
    requires n <= |key| && p != []
    ensures p in WithPrefixes(m, key, n) <==> p in m || (|p| <= n && p <= key)
  {
    if n > 0 {
      PrefixesAdd(m, key, n - 1, p);
      assert |p| == n && p <= key ==> p == key[..n];
    }
  }

  lemma {:induction false} BegunIsThere(run: seq<Insertion>, key: seq<nat>)
    requires IsKey(key) && forall i :: 0 <= i < |run| ==> IsKey(run[i].key)
    ensures key in AfterAll(run) <==> Begun(run, key)
  {
    hide WithPrefixes;
    if run != [] {
      var n := |run| - 1;
      BegunIsThere(run[..n], key);
      PrefixesAdd(AfterAll(run[..n]), run[n].key, |run[n].key|, key);
      assert key != run[n].key + [0] by {
        assert (run[n].key + [0])[|run[n].key|] == 0;
      }
      assert Begun(run, key) <==> Begun(run[..n], key) || key <= run[n].key by {
        if Begun(run[..n], key) {
          var i :| 0 <= i < n && key <= run[..n][i].key;
          assert key <= run[i].key;
        }
        if Begun(run, key) {
          var i :| 0 <= i < |run| && key <= run[i].key;
          assert i < n ==> key <= run[..n][i].key;
        }
      }
    }
  }

  // After any run of insertions, and all the relocations and new blocks they caused,
  // every inserted key has the sum of what was added for it; any other key has no value,
  // and has a path exactly if an inserted key goes on from it.
  lemma {:induction false} EveryKeyIsFound(run: seq<Insertion>, key: seq<nat>)
    requires forall i :: 0 <= i < |run| ==> IsKey(run[i].key)
    ensures Inserted(run, key) ==> LookupIn(AfterAll(run), key) == Value(Total(run, key))
    ensures !Inserted(run, key) ==> !LookupIn(AfterAll(run), key).Value?
    ensures !Inserted(run, key) && IsKey(key) ==> LookupIn(AfterAll(run), key) == if Begun(run, key) then NoValue else NoPath
  {
    hide Stored;
    if IsKey(key) {
      BegunIsThere(run, key);
    }
    if run == [] {
      LastOf(key, key + [0], 0);
    } else {
      var n := |run| - 1;
      EveryKeyIsFound(run[..n], key);
      StoredLookup(AfterAll(run[..n]), run[n].key, run[n].val, key);
      if Inserted(run[..n], key) {
        var i :| 0 <= i < n && run[..n][i].key == key;
        assert run[i].key == key;
      } else {
        NotInserted(run[..n], key);
        if Inserted(run, key) {
          var i :| 0 <= i < |run| && run[i].key == key;
          assert i < n ==> run[..n][i].key == key;
        } else {
          assert run[n].key != key;
        }
      }
    }
  }
}
