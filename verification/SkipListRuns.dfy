// Lock-free reads of the skiplist beside one inserter, as a machine that takes
// one link read or one store per step (leveldb/db/skiplist.h).
module SkipListRuns {
  import opened Wrappers
  import opened InternalKeys
  import opened SkipLists

  // Where the inserter is. prev holds the node to link after, level by level.
  datatype Writer =
    | Idle
    | Searching(key: int, x: nat, level: nat, prev: seq<nat>)
    | Found(key: int, prev: seq<nat>)
    | Raised(key: int, prev: seq<nat>, height: nat)
    | Linking(node: nat, prev: seq<nat>, level: nat, copied: bool)

  // FindGreaterOrEqual, FindLessThan and FindLast (bound None) differ in what
  // they return when level 0 is exhausted.
  datatype Query = AtOrAfter(target: int) | LastBefore(bound: Option<int>)

  function Bound(q: Query): Option<int> {
    match q case AtOrAfter(t) => Some(t) case LastBefore(b) => b
  }

  datatype Reader =
    | Ready
    | Reading(query: Query, x: nat, level: nat)
    | Returned(query: Query, result: Option<int>)

  datatype State = State(list: List, writer: Writer, readers: seq<Reader>)

  datatype Step =
    | BeginInsert(key: int)
    | SearchOne
    | Raise(height: nat)
    | AllocateNode
    | CopyLink
    | PublishLink
    | BeginRead(r: nat, query: Query, height: nat)
    | ReadOne(r: nat)
    | EndRead(r: nat)

  function PendingOf(w: Writer): Pending {
    if w.Linking? then Pending(w.node, w.level) else NONE
  }

  // ----- The steps -----

  predicate Enabled(s: State, step: Step) {
    match step
    case BeginInsert(key) => s.writer.Idle? && key !in Keys(s.list, NONE)
    case SearchOne => s.writer.Searching? && HasLink(s.list, s.writer.x, s.writer.level)
    case Raise(height) => s.writer.Found? && 1 <= height <= K_MAX_HEIGHT
    case AllocateNode => s.writer.Raised?
    case CopyLink => s.writer.Linking? && !s.writer.copied
    case PublishLink => s.writer.Linking? && s.writer.copied
    // max_height_ is read without a barrier: any value it has had may be seen.
    case BeginRead(r, query, height) => r < |s.readers| && s.readers[r].Ready? && 1 <= height <= s.list.maxHeight
    case ReadOne(r) => r < |s.readers| && s.readers[r].Reading?
    case EndRead(r) => r < |s.readers| && s.readers[r].Returned?
  }

  // One turn of the search loop of a reader.
  function ReadLink(l: List, c: Reader): Reader
    requires c.Reading? && HasLink(l, c.x, c.level)
    requires Next(l, c.x, c.level).To? ==> Next(l, c.x, c.level).node < |l.nodes|
  {
    var next := Next(l, c.x, c.level);
    if GoesOn(l, Bound(c.query), next) then c.(x := next.node)
    else if c.level == 0 then Returned(c.query, if c.query.AtOrAfter? then KeyAt(l, next) else KeyOf(l, c.x))
    else c.(level := c.level - 1)
  }

  // The same turn for the inserter, which also records prev.
  function SearchLink(l: List, w: Writer): Writer
    requires w.Searching? && HasLink(l, w.x, w.level) && w.level < |w.prev|
    requires Next(l, w.x, w.level).To? ==> Next(l, w.x, w.level).node < |l.nodes|
  {
    var next := Next(l, w.x, w.level);
    if GoesOn(l, Some(w.key), next) then w.(x := next.node)
    else if w.level == 0 then Found(w.key, w.prev[0 := w.x])
    else Searching(w.key, w.x, w.level - 1, w.prev[w.level := w.x])
  }

  function HeadFrom(prev: seq<nat>, from: nat, to: nat): (r: seq<nat>)
    ensures |r| == |prev|
  {
    seq(|prev|, i requires 0 <= i < |prev| => if from <= i < to then 0 else prev[i])
  }

  function Apply(s: State, step: Step): State
    requires Inv(s) && Enabled(s, step)
  {
    match step
    case BeginInsert(key) => s.(writer := Searching(key, 0, s.list.maxHeight - 1, seq(K_MAX_HEIGHT, i => 0)))
    case SearchOne =>
      StopsAtPrev(s.list, NONE, Some(s.writer.key), s.writer.x, s.writer.level);
      s.(writer := SearchLink(s.list, s.writer))
    case Raise(height) =>
      var max := s.list.maxHeight;
      if height > max then
        s.(list := s.list.(maxHeight := height), writer := Raised(s.writer.key, HeadFrom(s.writer.prev, max, height), height))
      else s.(writer := Raised(s.writer.key, s.writer.prev, height))
    case AllocateNode =>
      State(Allocate(s.list, s.writer.key, s.writer.height), Linking(|s.list.nodes|, s.writer.prev, 0, false), s.readers)
    case CopyLink =>
      var w := s.writer;
      s.(list := SetNext(s.list, w.node, w.level, Next(s.list, w.prev[w.level], w.level)), writer := w.(copied := true))
    case PublishLink =>
      var w := s.writer;
      s.(list := SetNext(s.list, w.prev[w.level], w.level, To(w.node)),
         writer := if w.level + 1 == |s.list.nodes[w.node].next| then Idle else w.(level := w.level + 1, copied := false))
    case BeginRead(r, query, height) => s.(readers := s.readers[r := Reading(query, 0, height - 1)])
    case ReadOne(r) =>
      StopsAtPrev(s.list, PendingOf(s.writer), Bound(s.readers[r].query), s.readers[r].x, s.readers[r].level);
      s.(readers := s.readers[r := ReadLink(s.list, s.readers[r])])
    case EndRead(r) => s.(readers := s.readers[r := Ready])
  }

  // ----- The invariant -----

  ghost predicate WriterInv(l: List, w: Writer) {
    match w
    case Idle => true
    case Searching(key, x, level, prev) =>
      && key !in Keys(l, NONE) && l.maxHeight <= |prev| == K_MAX_HEIGHT
      && level < l.maxHeight && At(l, NONE, Some(key), x, level)
      && forall i :: level < i < l.maxHeight ==> IsPrev(l, NONE, Some(key), i, prev[i])
    case Found(key, prev) =>
      && key !in Keys(l, NONE) && l.maxHeight <= |prev| == K_MAX_HEIGHT
      && forall i :: 0 <= i < l.maxHeight ==> IsPrev(l, NONE, Some(key), i, prev[i])
    case Raised(key, prev, height) =>
      && key !in Keys(l, NONE) && l.maxHeight <= |prev| == K_MAX_HEIGHT && 1 <= height <= l.maxHeight
      && forall i :: 0 <= i < l.maxHeight ==> IsPrev(l, NONE, Some(key), i, prev[i])
    case Linking(node, prev, level, copied) =>
      && 0 < node < |l.nodes| && level < |l.nodes[node].next| <= |prev| == K_MAX_HEIGHT
      && (forall i :: level <= i < |l.nodes[node].next| ==>
            IsPrev(l, Pending(node, level), Some(l.nodes[node].key), i, prev[i]))
      && (copied ==> Next(l, node, level) == Next(l, prev[level], level))
  }

  // A reader stands on a node linked at its level, before what it looks for.
  ghost predicate ReaderInv(l: List, p: Pending, c: Reader) {
    c.Reading? ==> At(l, p, Bound(c.query), c.x, c.level)
  }

  ghost predicate ReadersInv(s: State) {
    forall r :: 0 <= r < |s.readers| ==> ReaderInv(s.list, PendingOf(s.writer), s.readers[r])
  }

  ghost predicate Inv(s: State) {
    SkipLists.Inv(s.list, PendingOf(s.writer)) && WriterInv(s.list, s.writer) && ReadersInv(s)
  }

  // What a search may answer when the list holds the given keys.
  ghost predicate Answers(q: Query, keys: set<int>, result: Option<int>) {
    match q
    case AtOrAfter(target) => IsLeastFrom(keys, target, result)
    case LastBefore(bound) => IsGreatestBefore(keys, bound, result)
  }

  function Live(s: State): set<int> {
    Keys(s.list, PendingOf(s.writer))
  }

  function Initial(readers: nat): (s: State)
    ensures Inv(s) && Live(s) == {} && Unlinked(s) == {}
  {
    NewListInv();
    State(NewList(), Idle, seq(readers, i => Ready))
  }

  // Nodes once linked stay linked and keep their keys: readers are not disturbed.
  lemma ReadersStay(l: List, m: List, p: Pending, q: Pending, readers: seq<Reader>)
    requires |l.nodes| <= |m.nodes| && 0 < |l.nodes| && |m.nodes[0].next| == |l.nodes[0].next|
    requires forall n :: 0 <= n < |l.nodes| ==> m.nodes[n].key == l.nodes[n].key
    requires forall i, n :: On(l, p, i, n) ==> On(m, q, i, n)
    requires forall r :: 0 <= r < |readers| ==> ReaderInv(l, p, readers[r])
    ensures forall r :: 0 <= r < |readers| ==> ReaderInv(m, q, readers[r])
  {
  }

  // The key a step makes visible: linking a node on level 0 is the moment of its insert.
  function Added(s: State, step: Step): set<int> {
    if step.PublishLink? && s.writer.Linking? && s.writer.level == 0 && s.writer.node < |s.list.nodes|
    then {s.list.nodes[s.writer.node].key} else {}
  }

  lemma SearchKeeps(s: State, step: Step)
    requires Inv(s) && Enabled(s, step) && (step.BeginInsert? || step.SearchOne?)
    ensures Inv(Apply(s, step)) && Live(Apply(s, step)) == Live(s)
  {
    hide SkipLists.Inv, IsNext, IsPrev, Keys;
    HasShape(s.list, NONE);
    if step.SearchOne? {
      var w := s.writer;
      StopsAtPrev(s.list, NONE, Some(w.key), w.x, w.level);
      if !GoesOn(s.list, Some(w.key), Next(s.list, w.x, w.level)) && w.level > 0 {
        OnBelow(s.list, NONE, w.level, w.level - 1, w.x);
      }
    }
  }

  lemma RaiseKeepsAll(s: State, height: nat)
    requires Inv(s) && Enabled(s, Raise(height))
    ensures Inv(Apply(s, Raise(height))) && Live(Apply(s, Raise(height))) == Live(s)
  {
    hide SkipLists.Inv, IsNext, IsPrev, Keys;
    HasShape(s.list, NONE);
    var l, w := s.list, s.writer;
    if height > l.maxHeight {
      var m := l.(maxHeight := height);
      var prev := HeadFrom(w.prev, l.maxHeight, height);
      RaiseKeeps(l, height);
      forall i | 0 <= i < height ensures IsPrev(l, NONE, Some(w.key), i, prev[i]) {
        if i >= l.maxHeight {
          HeadIsPrev(l, NONE, Some(w.key), i);
        }
      }
      PrevsStay(l, m, NONE, NONE, w.key, prev, 0, height);
      ReadersStay(l, m, NONE, NONE, s.readers);
    }
  }

  lemma AllocateKeepsAll(s: State)
    requires Inv(s) && Enabled(s, AllocateNode)
    ensures Inv(Apply(s, AllocateNode)) && Live(Apply(s, AllocateNode)) == Live(s)
  {
    hide SkipLists.Inv, IsNext, IsPrev, Keys;
    HasShape(s.list, NONE);
    var l, w := s.list, s.writer;
    var m, p := Allocate(l, w.key, w.height), Pending(|l.nodes|, 0);
    AllocateKeeps(l, w.key, w.height);
    PrevsStay(l, m, NONE, p, w.key, w.prev, 0, w.height);
    ReadersStay(l, m, NONE, p, s.readers);
  }

  lemma CopyKeepsAll(s: State)
    requires Inv(s) && Enabled(s, CopyLink)
    ensures Inv(Apply(s, CopyLink)) && Live(Apply(s, CopyLink)) == Live(s)
  {
    hide SkipLists.Inv, IsNext, IsPrev, Keys;
    var l, w, p := s.list, s.writer, PendingOf(s.writer);
    HasShape(l, p);
    PrevIsLinked(l, p, Some(l.nodes[w.node].key), w.level, w.prev[w.level]);
    var link := Next(l, w.prev[w.level], w.level);
    var m := SetNext(l, w.node, w.level, link);
    CopyKeeps(l, p, link);
    PrevsStay(l, m, p, p, l.nodes[w.node].key, w.prev, w.level, |l.nodes[w.node].next|);
    ReadersStay(l, m, p, p, s.readers);
  }

  lemma PublishKeepsAll(s: State)
    requires Inv(s) && Enabled(s, PublishLink)
    ensures Inv(Apply(s, PublishLink)) && Live(Apply(s, PublishLink)) == Live(s) + Added(s, PublishLink)
  {
    hide SkipLists.Inv, IsNext, IsPrev, Keys;
    var l, w, p := s.list, s.writer, PendingOf(s.writer);
    HasShape(l, p);
    PrevIsLinked(l, p, Some(l.nodes[w.node].key), w.level, w.prev[w.level]);
    var m, q, height := SetNext(l, w.prev[w.level], w.level, To(w.node)), Pending(w.node, w.level + 1), |l.nodes[w.node].next|;
    PublishKeeps(l, p, w.prev[w.level]);
    PrevsStay(l, m, p, q, l.nodes[w.node].key, w.prev, w.level + 1, height);
    if w.level + 1 == height {
      FinishKeeps(m, q);
      ReadersStay(l, m, p, NONE, s.readers);
    } else {
      ReadersStay(l, m, p, q, s.readers);
    }
  }

  // A reader's step keeps its place; its last one reads the answer off the list.
  lemma ReaderKeeps(s: State, step: Step)
    requires Inv(s) && Enabled(s, step) && (step.BeginRead? || step.ReadOne? || step.EndRead?)
    ensures Inv(Apply(s, step)) && Live(Apply(s, step)) == Live(s)
    ensures step.ReadOne? && Apply(s, step).readers[step.r].Returned? ==>
      Answers(s.readers[step.r].query, Live(s), Apply(s, step).readers[step.r].result)
  {
    hide SkipLists.Inv, IsNext, IsPrev, Keys, IsLeastFrom, IsGreatestBefore;
    var l, p := s.list, PendingOf(s.writer);
    HasShape(l, p);
    if step.ReadOne? {
      var c := s.readers[step.r];
      assert ReaderInv(l, p, c);
      StopsAtPrev(l, p, Bound(c.query), c.x, c.level);
      if !GoesOn(l, Bound(c.query), Next(l, c.x, c.level)) {
        if c.level > 0 {
          OnBelow(l, p, c.level, c.level - 1, c.x);
        } else {
          StopsAtAnswer(l, p, Bound(c.query), c.x);
        }
      }
    }
  }

  // No step of anyone breaks the tower, and the visible keys change only when a
  // node is linked on level 0.
  lemma StepKeepsInv(s: State, step: Step)
    requires Inv(s) && Enabled(s, step)
    ensures Inv(Apply(s, step)) && Live(Apply(s, step)) == Live(s) + Added(s, step)
  {
    hide Inv, Apply, Live, Keys;
    match step
    case BeginInsert(key) => SearchKeeps(s, step);
    case SearchOne => SearchKeeps(s, step);
    case Raise(height) => RaiseKeepsAll(s, height);
    case AllocateNode => AllocateKeepsAll(s);
    case CopyLink => CopyKeepsAll(s);
    case PublishLink => PublishKeepsAll(s);
    case BeginRead(r, query, height) => ReaderKeeps(s, step);
    case ReadOne(r) => ReaderKeeps(s, step);
    case EndRead(r) => ReaderKeeps(s, step);
  }

  // ----- Whole runs -----

  ghost predicate Runs(s: State, steps: seq<Step>)
    requires Inv(s)
    decreases |steps|, 0
  {
    if steps == [] then true
    else Runs(s, steps[..|steps| - 1]) && Enabled(After(s, steps[..|steps| - 1]), steps[|steps| - 1])
  }

  ghost function After(s: State, steps: seq<Step>): (t: State)
    requires Inv(s) && Runs(s, steps)
    ensures Inv(t)
    decreases |steps|, 1
  {
    if steps == [] then s
    else
      var t := After(s, steps[..|steps| - 1]);
      StepKeepsInv(t, steps[|steps| - 1]);
      Apply(t, steps[|steps| - 1])
  }

  // The keys whose insert has been started.
  ghost function Begun(steps: seq<Step>): set<int> {
    set i | 0 <= i < |steps| && steps[i].BeginInsert? :: steps[i].key
  }

  // The key being inserted, as long as level 0 does not have it.
  function Unlinked(s: State): set<int> {
    match s.writer
    case Idle => {}
    case Searching(key, _, _, _) => {key}
    case Found(key, _) => {key}
    case Raised(key, _, _) => {key}
    case Linking(node, _, level, _) => if level == 0 && node < |s.list.nodes| then {s.list.nodes[node].key} else {}
  }

  lemma StepBegins(s: State, step: Step)
    requires Inv(s) && Enabled(s, step)
    ensures Live(Apply(s, step)) + Unlinked(Apply(s, step)) ==
            Live(s) + Unlinked(s) + if step.BeginInsert? then {step.key} else {}
  {
    StepKeepsInv(s, step);
    hide Inv, Live;
  }

  lemma BegunSnoc(steps: seq<Step>, step: Step)
    ensures Begun(steps + [step]) == Begun(steps) + if step.BeginInsert? then {step.key} else {}
  {
    var all := steps + [step];
    forall k ensures k in Begun(all) <==> k in Begun(steps) || (step.BeginInsert? && k == step.key) {
      if k in Begun(steps) {
        var i :| 0 <= i < |steps| && steps[i].BeginInsert? && steps[i].key == k;
        assert all[i] == steps[i];
      }
      if k in Begun(all) {
        var i :| 0 <= i < |all| && all[i].BeginInsert? && all[i].key == k;
        assert i < |steps| ==> all[i] == steps[i];
      }
      assert all[|steps|] == step;
    }
  }

  // The list holds exactly the keys inserted so far, but for the one in progress.
  lemma {:induction false} LiveIsBegun(readers: nat, steps: seq<Step>)
    requires Runs(Initial(readers), steps)
    ensures Begun(steps) == Live(After(Initial(readers), steps)) + Unlinked(After(Initial(readers), steps))
  {
    hide Inv, Live, Unlinked, Apply, Enabled;
    if steps == [] {
    } else {
      var n := |steps| - 1;
      assert steps == steps[..n] + [steps[n]];
      LiveIsBegun(readers, steps[..n]);
      StepBegins(After(Initial(readers), steps[..n]), steps[n]);
      BegunSnoc(steps[..n], steps[n]);
    }
  }

  // Other steps leave a reader alone; its own steps keep its query.
  lemma ReaderStep(s: State, step: Step, r: nat)
    requires Inv(s) && Enabled(s, step) && r < |s.readers| && !s.readers[r].Ready? && step != EndRead(r)
    ensures |Apply(s, step).readers| == |s.readers|
    ensures !Apply(s, step).readers[r].Ready? && Apply(s, step).readers[r].query == s.readers[r].query
    ensures Apply(s, step).readers[r].Returned? ==> Apply(s, step).readers[r] == s.readers[r] || step == ReadOne(r)
    ensures s.readers[r].Returned? ==> Apply(s, step).readers[r] == s.readers[r]
  {
    hide Inv, SkipLists.Inv;
  }

  // A search that returns has the right answer for the keys at one moment between
  // its start and its end: the moment of its last read.
  lemma {:induction false} ReadsAreLinearizable(s: State, steps: seq<Step>, r: nat) returns (i: nat)
    requires Inv(s) && Runs(s, steps) && r < |s.readers| && s.readers[r].Reading? && EndRead(r) !in steps
    ensures r < |After(s, steps).readers| && !After(s, steps).readers[r].Ready?
    ensures After(s, steps).readers[r].query == s.readers[r].query
    ensures After(s, steps).readers[r].Returned? ==>
              && i < |steps| && steps[i] == ReadOne(r) && Runs(s, steps[..i])
              && Answers(s.readers[r].query, Live(After(s, steps[..i])), After(s, steps).readers[r].result)
              && Live(s) <= Live(After(s, steps[..i])) <= Live(After(s, steps))
  {
    hide Inv, Live, Apply, Enabled, Answers;
    i := 0;
    if steps != [] {
      var n := |steps| - 1;
      var front, last := steps[..n], steps[n];
      assert last in steps && forall x :: x in front ==> x in steps;
      i := ReadsAreLinearizable(s, front, r);
      var t := After(s, front);
      ReaderStep(t, last, r);
      StepKeepsInv(t, last);
      if t.readers[r].Reading? {
        i := n;
        KeysOnlyGrow(s, front);
        if Apply(t, last).readers[r].Returned? {
          ReaderKeeps(t, last);
        }
      } else {
        assert steps[..i] == front[..i];
      }
    }
  }

  lemma {:induction false} KeysOnlyGrow(s: State, steps: seq<Step>)
    requires Inv(s) && Runs(s, steps)
    ensures Live(s) <= Live(After(s, steps))
  {
    hide Inv, Live, Apply, Enabled;
    if steps != [] {
      KeysOnlyGrow(s, steps[..|steps| - 1]);
      StepKeepsInv(After(s, steps[..|steps| - 1]), steps[|steps| - 1]);
    }
  }

  // Once an insert is over, every later search sees its key, and no search sees a
  // key whose insert has not begun.
  lemma ReadsSeeFinishedInserts(readers: nat, before: seq<Step>, steps: seq<Step>, r: nat) returns (i: nat)
    requires Runs(Initial(readers), before)
    requires Runs(After(Initial(readers), before), steps) && EndRead(r) !in steps
    requires r < |After(Initial(readers), before).readers| && After(Initial(readers), before).readers[r].Reading?
    requires r < |After(After(Initial(readers), before), steps).readers|
    requires After(After(Initial(readers), before), steps).readers[r].Returned?
    ensures i < |steps| && Runs(After(Initial(readers), before), steps[..i])
    ensures Answers(After(Initial(readers), before).readers[r].query, Live(After(After(Initial(readers), before), steps[..i])),
                    After(After(Initial(readers), before), steps).readers[r].result)
    ensures Begun(before) - Unlinked(After(Initial(readers), before)) <= Live(After(After(Initial(readers), before), steps[..i]))
    ensures Live(After(After(Initial(readers), before), steps[..i])) <= Begun(before + steps[..i])
  {
    hide Inv, Live, Apply, Enabled, Answers, Unlinked;
    var s := After(Initial(readers), before);
    i := ReadsAreLinearizable(s, steps, r);
    LiveIsBegun(readers, before);
    AfterBoth(Initial(readers), before, steps[..i]);
    LiveIsBegun(readers, before + steps[..i]);
  }

  lemma {:induction false} AfterBoth(s: State, a: seq<Step>, b: seq<Step>)
    requires Inv(s) && Runs(s, a) && Runs(After(s, a), b)
    ensures Runs(s, a + b) && After(s, a + b) == After(After(s, a), b)
  {
    hide Inv, Live, Apply, Enabled;
    if b == [] {
      assert a + b == a;
    } else {
      var n := |b| - 1;
      AfterBoth(s, a, b[..n]);
      assert (a + b)[..|a + b| - 1] == a + b[..n] && (a + b)[|a + b| - 1] == b[n];
    }
  }
}
