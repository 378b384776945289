// Group commit over the store: whole groups of writers are the store's batches
// (DBImpl::Write, leveldb/db/db_impl.cc).
module GroupStores {
  import opened Wrappers
  import opened InternalKeys
  import opened Codings
  import WriteBatches
  import Store
  import opened GroupCommits

  // The rank of a key's bytes, and a value's bytes as the store has them.
  datatype Names = Names(rank: Bytes -> UserKey, text: Bytes -> Value)

  function StoreOp(names: Names, op: WriteBatches.Op): Store.Op {
    match op
    case Put(key, value) => Store.Op(names.rank(key), ValueType.Put, names.text(value))
    case Delete(key) => Store.Op(names.rank(key), Deletion, names.text([]))
  }

  function StoreOps(names: Names, ops: seq<WriteBatches.Op>): (r: seq<Store.Op>)
    ensures |r| == |ops|
  {
    seq(|ops|, i requires 0 <= i < |ops| => StoreOp(names, ops[i]))
  }

  // The store that has what the successful writers wrote.
  function StoreAt(names: Names, st: Store.State, s: State): Store.State
    requires |s.results| <= |s.arrived|
  {
    Store.WriteBatch(st, StoreOps(names, History(s)))
  }

  // One batch after the other is one batch.
  lemma {:induction false} BatchesJoin(st: Store.State, a: seq<Store.Op>, b: seq<Store.Op>)
    ensures Store.WriteBatch(st, a + b) == Store.WriteBatch(Store.WriteBatch(st, a), b)
  {
    hide Store.WriteOne;
    if b == [] {
      assert a + b == a;
    } else {
      var n := |b| - 1;
      BatchesJoin(st, a, b[..n]);
      assert (a + b)[..|a + b| - 1] == a + b[..n];
    }
  }

  // What a step publishes.
  function Published(s: State, step: Step): seq<WriteBatches.Op>
    requires Enabled(s, step)
  {
    if step.Publish? then GroupOps(s.Group()) else []
  }

  lemma StepPublishes(s: State, step: Step, base: nat)
    requires Inv(s, base) && Enabled(s, step)
    ensures Inv(Apply(s, step), base)
    ensures History(Apply(s, step)) == History(s) + Published(s, step)
  {
    hide GroupOps, GroupOk, Committed;
    StepKeepsInv(s, step, base);
    InvSizes(s, base);
    InvSizes(Apply(s, step), base);
    hide Inv;
    match step {
      case Arrive(request) => ArrivePublishes(s, request, base);
      case Lead =>
      case Room(ok) => RoomPublishes(s, ok, base);
      case InsertOne =>
      case Publish => PublishPublishes(s, base);
    }
  }

  lemma InvSizes(s: State, base: nat)
    requires Inv(s, base)
    ensures |s.results| <= |s.arrived|
  {
  }

  lemma ArrivePublishes(s: State, request: Request, base: nat)
    requires Inv(s, base)
    ensures |s.results| <= |s.arrived| && History(Apply(s, Arrive(request))) == History(s) + []
  {
    hide GroupOps, GroupOk, Committed;
    CommittedArrive(s.arrived, [request], s.results);
  }

  lemma PublishPublishes(s: State, base: nat)
    requires Inv(s, base) && Enabled(s, Publish)
    ensures |s.results| <= |s.arrived| && |Apply(s, Publish).results| <= |s.arrived|
    ensures History(Apply(s, Publish)) == History(s) + GroupOps(s.Group())
  {
    hide GroupOps, Committed;
    CommittedGroup(s.arrived, s.results, s.phase.n);
  }

  lemma RoomPublishes(s: State, ok: bool, base: nat)
    requires Inv(s, base) && Enabled(s, Room(ok))
    ensures |s.results| < |s.arrived| && |Apply(s, Room(ok)).results| <= |s.arrived|
    ensures History(Apply(s, Room(ok))) == History(s) + []
  {
    hide GroupOps, GroupOk, Committed;
    if !(ok && s.Queue()[0].batch.Some?) {
      CommittedSnoc(s.arrived, s.results, if ok then Ok else Failed);
      assert ok ==> OpsOf(s.arrived[|s.results|]) == [];
    }
  }

  // A step of the writers is one write of the store, the whole group at once, or
  // nothing the store can see.
  lemma StepRefines(names: Names, st: Store.State, s: State, step: Step, base: nat)
    requires Inv(s, base) && Enabled(s, step) && st.lastSequence == base
    requires Apply(s, step).lastSequence < MAX_SEQUENCE
    ensures |s.results| <= |s.arrived| && |Apply(s, step).results| <= |Apply(s, step).arrived|
    ensures var t := Apply(s, step);
      if step.Publish? then Store.Next(StoreAt(names, st, s), Store.Write(StoreOps(names, Published(s, step))), StoreAt(names, st, t))
      else StoreAt(names, st, t) == StoreAt(names, st, s)
  {
    StepPublishes(s, step, base);
    hide GroupOps, GroupOk, Committed, Apply, Enabled, Store.WriteBatch, StoreOp;
    var now, more := History(s), Published(s, step);
    assert StoreOps(names, now + more) == StoreOps(names, now) + StoreOps(names, more);
    BatchesJoin(st, StoreOps(names, now), StoreOps(names, more));
    Store.WriteBatchHistory(st, StoreOps(names, now));
    if !step.Publish? {
      assert now + more == now;
    }
  }

  // The store's steps for a run of the writers: one for each group.
  ghost predicate StoreRun(states: seq<Store.State>, actions: seq<Store.Action>) {
    |states| == |actions| + 1 && forall i :: 0 <= i < |actions| ==> Store.Next(states[i], actions[i], states[i + 1])
  }

  // Every run of the writers is a run of store writes, one for each group that was
  // published, from the store as it was when the first writer came.
  lemma {:induction false} RunRefines(names: Names, st: Store.State, steps: seq<Step>)
    returns (states: seq<Store.State>, actions: seq<Store.Action>)
    requires Runs(Initial(st.lastSequence), steps) && After(Initial(st.lastSequence), steps).lastSequence < MAX_SEQUENCE
    ensures StoreRun(states, actions) && states[0] == st && forall i :: 0 <= i < |actions| ==> actions[i].Write?
    ensures var s := After(Initial(st.lastSequence), steps);
      |s.results| <= |s.arrived| && states[|actions|] == StoreAt(names, st, s)
  {
    var base := st.lastSequence;
    InitialInv(base);
    RunKeepsInv(Initial(base), steps, base);
    if steps == [] {
      states, actions := [st], [];
      NothingStored(names, st);
    } else {
      var front, last := steps[..|steps| - 1], steps[|steps| - 1];
      var s := After(Initial(base), front);
      RunKeepsInv(Initial(base), front, base);
      SequenceGrows(s, last, base);
      states, actions := RunRefines(names, st, front);
      StepRefines(names, st, s, last, base);
      if last.Publish? {
        RunGoesOn(states, actions, Store.Write(StoreOps(names, Published(s, last))), StoreAt(names, st, Apply(s, last)));
        states := states + [StoreAt(names, st, Apply(s, last))];
        actions := actions + [Store.Write(StoreOps(names, Published(s, last)))];
      }
    }
  }

  lemma NothingStored(names: Names, st: Store.State)
    ensures StoreAt(names, st, Initial(st.lastSequence)) == st
  {
  }

  lemma SequenceGrows(s: State, step: Step, base: nat)
    requires Inv(s, base) && Enabled(s, step)
    ensures s.lastSequence <= Apply(s, step).lastSequence
  {
  }

  lemma RunGoesOn(states: seq<Store.State>, actions: seq<Store.Action>, a: Store.Action, t: Store.State)
    requires StoreRun(states, actions) && Store.Next(states[|actions|], a, t)
    ensures StoreRun(states + [t], actions + [a])
  {
    hide Store.Next;
  }

  // ----- What readers see -----

  // Update k is the last on the key.
  ghost predicate IsLastUpdate(names: Names, ops: seq<WriteBatches.Op>, user: UserKey, k: nat) {
    k < |ops| && names.rank(ops[k].key) == user && forall j :: k < j < |ops| ==> names.rank(ops[j].key) != user
  }

  // What a reader is told after a put, and after a delete.
  function Told(names: Names, op: WriteBatches.Op): Option<Value> {
    match op
    case Put(_, value) => Some(names.text(value))
    case Delete(_) => None
  }

  // The last update on the key decides the answer; without one it stays as before.
  ghost predicate Decided(names: Names, ops: seq<WriteBatches.Op>, user: UserKey, before: Option<Value>, answer: Option<Value>) {
    && (forall k: nat :: IsLastUpdate(names, ops, user, k) ==> answer == Told(names, ops[k]))
    && ((forall k :: 0 <= k < |ops| ==> names.rank(ops[k].key) != user) ==> answer == before)
  }

  // At every moment of every run of the writers, on a store that kept its invariant, a
  // lookup at LastSequence: the last update on the key among those of the successful
  // writes decides, a put by its value and a delete by none, and where there is no
  // update the store answers as it did before the run.
  lemma ReadersReadTheStore(names: Names, st: Store.State, steps: seq<Step>, user: UserKey)
    requires Store.Inv(st) && Runs(Initial(st.lastSequence), steps)
    requires After(Initial(st.lastSequence), steps).lastSequence < MAX_SEQUENCE
    ensures var s := After(Initial(st.lastSequence), steps);
      |s.results| <= |s.arrived| && Store.Inv(StoreAt(names, st, s)) && StoreAt(names, st, s).lastSequence == s.lastSequence
    ensures var s := After(Initial(st.lastSequence), steps);
      && GroupCommits.Visible(s.mem, s.lastSequence) == WriteBatches.Numbered(History(s), st.lastSequence + 1)
      && Decided(names, History(s), user, Meaning(Store.Lookup(st, user, st.lastSequence)),
                 Meaning(Store.Lookup(StoreAt(names, st, s), user, s.lastSequence)))
  {
    hide Runs, After, Store.WriteBatch, Store.Lookup, History, StoreOp, Decided;
    ReadersSeeWholeWrites(st.lastSequence, steps);
    var s := After(Initial(st.lastSequence), steps);
    var ops := StoreOps(names, History(s));
    Store.WriteBatchHistory(st, ops);
    Store.WriteBatchKeepsInv(st, ops);
    PresentIsLive(st);
    PresentIsLive(StoreAt(names, st, s));
    Store.GetIsLastWrite(StoreAt(names, st, s), user, s.lastSequence);
    Store.GetIsLastWrite(st, user, st.lastSequence);
    hide Store.Inv;
    UpdatesDecide(names, st.history, History(s), user, s.lastSequence);
  }

  lemma {:induction false} UpdatesDecide(names: Names, before: seq<Store.Op>, ops: seq<WriteBatches.Op>, user: UserKey, n: nat)
    requires |before| + |ops| <= n
    ensures Decided(names, ops, user, Store.LastWrite(before, user, |before|), Store.LastWrite(before + StoreOps(names, ops), user, n))
  {
    hide Decided;
    var all := before + StoreOps(names, ops);
    if ops == [] {
      assert all == before;
      Store.LastWriteOfAll(before, user, n);
      DecidedNext(names, ops, user, Store.LastWrite(before, user, |before|), Store.LastWrite(before, user, n));
    } else {
      var m := |ops| - 1;
      UpdatesDecide(names, before, ops[..m], user, n);
      assert all[..|all| - 1] == before + StoreOps(names, ops[..m]);
      assert all[|all| - 1] == StoreOp(names, ops[m]);
      DecidedNext(names, ops, user, Store.LastWrite(before, user, |before|), Store.LastWrite(all[..|all| - 1], user, n));
    }
  }

  lemma DecidedNext(names: Names, ops: seq<WriteBatches.Op>, user: UserKey, before: Option<Value>, answer: Option<Value>)
    ensures ops == [] && answer == before ==> Decided(names, ops, user, before, answer)
    ensures ops != [] && Decided(names, ops[..|ops| - 1], user, before, answer) ==>
      var last := ops[|ops| - 1];
      Decided(names, ops, user, before, if names.rank(last.key) == user then Told(names, last) else answer)
  {
    if ops != [] && Decided(names, ops[..|ops| - 1], user, before, answer) {
      var m := |ops| - 1;
      var front := ops[..m];
      forall k: nat | IsLastUpdate(names, ops, user, k) ensures k == m || (IsLastUpdate(names, front, user, k) && front[k] == ops[k]) {
        assert k != m ==> names.rank(ops[m].key) != user;
      }
      assert forall k :: 0 <= k < m ==> front[k] == ops[k];
    }
  }

  lemma PresentIsLive(st: Store.State)
    requires Store.Inv(st)
    ensures Store.Horizon(st) <= st.lastSequence && |st.history| == st.lastSequence
  {
  }
}
