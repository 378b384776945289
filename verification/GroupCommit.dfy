// Group commit: writers queue up, the one in front applies a whole group and
// publishes it with one new LastSequence (DBImpl::Write and BuildBatchGroup,
// leveldb/db/db_impl.cc).
module GroupCommits {
  import opened Wrappers
  import opened InternalKeys
  import opened WriteBatches

  // A call of Write; batch None asks for a memtable switch.
  datatype Request = Request(batch: Option<seq<Op>>, sync: bool)

  const SMALL_WRITE := 128 * 1024
  const MAX_GROUP := 1024 * 1024

  // ----- Choosing the group -----

  function SizeOf(r: Request): nat {
    if r.batch.Some? then ByteSize(r.batch.value) else 0
  }

  function OpsOf(r: Request): seq<Op> {
    if r.batch.Some? then r.batch.value else []
  }

  function MaxSize(firstSize: nat): nat {
    if firstSize <= SMALL_WRITE then firstSize + SMALL_WRITE else MAX_GROUP
  }

  // How many writers, the first i being in already with the given total size.
  function GroupFrom(queue: seq<Request>, i: nat, size: nat): nat
    requires 0 < i <= |queue|
    decreases |queue| - i
  {
    if i == |queue| then i
    else if queue[i].sync && !queue[0].sync then i
    else if queue[i].batch.Some? && size + SizeOf(queue[i]) > MaxSize(SizeOf(queue[0])) then i
    else GroupFrom(queue, i + 1, size + SizeOf(queue[i]))
  }

  function GroupLength(queue: seq<Request>): nat
    requires queue != []
  {
    GroupFrom(queue, 1, SizeOf(queue[0]))
  }

  function TotalSize(group: seq<Request>): nat {
    if group == [] then 0 else TotalSize(group[..|group| - 1]) + SizeOf(group[|group| - 1])
  }

  function GroupOps(group: seq<Request>): seq<Op> {
    if group == [] then [] else GroupOps(group[..|group| - 1]) + OpsOf(group[|group| - 1])
  }

  // What a group of n writers must keep: a write asking for sync is never led by one
  // that does not, and only a write that leads may exceed the size limit.
  ghost predicate GroupOk(queue: seq<Request>, n: nat) {
    && 0 < n <= |queue|
    && (forall i :: 0 < i < n && queue[i].sync ==> queue[0].sync)
    && (TotalSize(queue[..n]) <= MaxSize(SizeOf(queue[0])) || forall i :: 0 < i < n ==> queue[i].batch.None?)
  }

  // The next writer in line would break a rule.
  ghost predicate MustStop(queue: seq<Request>, n: nat)
    requires 0 < n <= |queue|
  {
    n < |queue| ==>
      || (queue[n].sync && !queue[0].sync)
      || (queue[n].batch.Some? && TotalSize(queue[..n + 1]) > MaxSize(SizeOf(queue[0])))
  }

  lemma {:induction false} GroupFromRules(queue: seq<Request>, i: nat, size: nat)
    requires GroupOk(queue, i) && size == TotalSize(queue[..i])
    ensures i <= GroupFrom(queue, i, size) <= |queue|
    ensures GroupOk(queue, GroupFrom(queue, i, size)) && MustStop(queue, GroupFrom(queue, i, size))
    decreases |queue| - i
  {
    hide ByteSize, MaxSize, TotalSize;
    if i < |queue| {
      TotalSizeNext(queue, i);
      if !(queue[i].sync && !queue[0].sync)
         && !(queue[i].batch.Some? && size + SizeOf(queue[i]) > MaxSize(SizeOf(queue[0]))) {
        GroupFromRules(queue, i + 1, size + SizeOf(queue[i]));
      }
    }
  }

  lemma TotalSizeNext(queue: seq<Request>, i: nat)
    requires i < |queue|
    ensures TotalSize(queue[..i + 1]) == TotalSize(queue[..i]) + SizeOf(queue[i])
  {
    assert queue[..i + 1][..i] == queue[..i];
  }

  // The group is the longest run of the queue that keeps both rules.
  lemma GroupRules(queue: seq<Request>)
    requires queue != []
    ensures GroupOk(queue, GroupLength(queue)) && MustStop(queue, GroupLength(queue))
  {
    assert queue[..1] == [queue[0]] && [queue[0]][..0] == [];
    GroupFromRules(queue, 1, SizeOf(queue[0]));
  }

  // ----- The machine -----

  datatype Status = Ok | Failed

  // What the writer in front is doing.
  datatype Phase = Waiting | MakingRoom | Inserting(n: nat, next: nat)

  // Writers are numbered in the order they join the queue; those before
  // |results| have left it. mem is everything put into memtables so far.
  datatype State = State(
    arrived: seq<Request>,
    results: seq<Status>,
    phase: Phase,
    lastSequence: nat,
    mem: seq<MemEntry>,
    forced: set<nat>
  ) {
    function Queue(): seq<Request>
      requires |results| <= |arrived|
    {
      arrived[|results|..]
    }

    function Group(): seq<Request>
      requires phase.Inserting? && |results| + phase.n <= |arrived|
    {
      arrived[|results|..|results| + phase.n]
    }
  }

  datatype Step =
    | Arrive(request: Request)
    | Lead
    | Room(ok: bool)
    | InsertOne
    | Publish

  function Initial(base: nat): State {
    State([], [], Waiting, base, [], {})
  }

  predicate Enabled(s: State, step: Step) {
    match step
    case Arrive(request) => true
    case Lead => s.phase.Waiting? && |s.results| < |s.arrived|
    case Room(ok) => s.phase.MakingRoom? && |s.results| < |s.arrived|
    case InsertOne =>
      s.phase.Inserting? && |s.results| + s.phase.n <= |s.arrived| && s.phase.next < |GroupOps(s.Group())|
    case Publish =>
      s.phase.Inserting? && |s.results| + s.phase.n <= |s.arrived| && s.phase.next == |GroupOps(s.Group())|
  }

  function Apply(s: State, step: Step): State
    requires Enabled(s, step)
  {
    match step
    case Arrive(request) => s.(arrived := s.arrived + [request])
    case Lead => s.(phase := MakingRoom)
    case Room(ok) =>
      if ok && s.Queue()[0].batch.Some? then s.(phase := Inserting(GroupLength(s.Queue()), 0))
      else s.(phase := Waiting, results := s.results + [if ok then Ok else Failed],
              forced := if ok then s.forced + {|s.results|} else s.forced)
    case InsertOne =>
      var op := GroupOps(s.Group())[s.phase.next];
      s.(mem := s.mem + [MemEntry(s.lastSequence + 1 + s.phase.next, op)], phase := s.phase.(next := s.phase.next + 1))
    case Publish =>
      s.(phase := Waiting, lastSequence := s.lastSequence + |GroupOps(s.Group())|,
         results := s.results + seq(s.phase.n, i => Ok))
  }

  // The updates of the writes that have succeeded, in queue order.
  function Committed(arrived: seq<Request>, results: seq<Status>): seq<Op>
    requires |results| <= |arrived|
  {
    if results == [] then []
    else
      var n := |results| - 1;
      Committed(arrived, results[..n]) + if results[n].Ok? then OpsOf(arrived[n]) else []
  }

  function History(s: State): seq<Op>
    requires |s.results| <= |s.arrived|
  {
    Committed(s.arrived, s.results)
  }

  // base is LastSequence when the database was opened.
  ghost predicate Inv(s: State, base: nat) {
    && |s.results| <= |s.arrived|
    && (!s.phase.Waiting? ==> |s.results| < |s.arrived|)
    && s.lastSequence == base + |History(s)|
    && (s.phase.Inserting? ==>
          && GroupOk(s.Queue(), s.phase.n) && s.Queue()[0].batch.Some?
          && s.phase.next <= |GroupOps(s.Group())|)
    && s.mem == Numbered(History(s), base + 1) +
                Numbered(if s.phase.Inserting? then GroupOps(s.Group())[..s.phase.next] else [], s.lastSequence + 1)
  }

  lemma {:induction false} CommittedArrive(arrived: seq<Request>, more: seq<Request>, results: seq<Status>)
    requires |results| <= |arrived|
    ensures Committed(arrived + more, results) == Committed(arrived, results)
  {
    if results != [] {
      CommittedArrive(arrived, more, results[..|results| - 1]);
    }
  }

  lemma {:induction false} CommittedGroup(arrived: seq<Request>, results: seq<Status>, n: nat)
    requires |results| + n <= |arrived|
    ensures Committed(arrived, results + seq(n, i => Ok)) ==
            Committed(arrived, results) + GroupOps(arrived[|results|..|results| + n])
  {
    hide OpsOf, Committed;
    var k := |results|;
    if n == 0 {
      assert results + seq(n, i => Ok) == results && arrived[k..k] == [];
    } else {
      CommittedGroup(arrived, results, n - 1);
      CommittedSnoc(arrived, results + seq(n - 1, i => Ok), Ok);
      assert results + seq(n, i => Ok) == results + seq(n - 1, i => Ok) + [Ok];
      assert arrived[k..k + n][..n - 1] == arrived[k..k + n - 1];
    }
  }

  lemma CommittedSnoc(arrived: seq<Request>, results: seq<Status>, last: Status)
    requires |results| < |arrived|
    ensures Committed(arrived, results + [last]) ==
            Committed(arrived, results) + if last.Ok? then OpsOf(arrived[|results|]) else []
  {
    assert (results + [last])[..|results|] == results;
  }

  lemma GroupStays(queue: seq<Request>, more: Request, n: nat)
    requires GroupOk(queue, n)
    ensures GroupOk(queue + [more], n)
  {
    assert (queue + [more])[..n] == queue[..n];
  }

  lemma ArriveKeepsInv(s: State, request: Request, base: nat)
    requires Inv(s, base)
    ensures Inv(Apply(s, Arrive(request)), base)
  {
    hide GroupOps, GroupOk, Committed, Numbered;
    var t := Apply(s, Arrive(request));
    CommittedArrive(s.arrived, [request], s.results);
    assert t.Queue() == s.Queue() + [request];
    if s.phase.Inserting? {
      GroupStays(s.Queue(), request, s.phase.n);
      GroupFits(s.Queue(), s.phase.n);
      assert t.Group() == s.Group();
    }
  }

  lemma GroupFits(queue: seq<Request>, n: nat)
    requires GroupOk(queue, n)
    ensures 0 < n <= |queue|
  {
  }

  lemma RoomKeepsInv(s: State, ok: bool, base: nat)
    requires Inv(s, base) && Enabled(s, Room(ok))
    ensures Inv(Apply(s, Room(ok)), base)
  {
    hide GroupOk, GroupLength;
    var t := Apply(s, Room(ok));
    if t.phase.Inserting? {
      GroupRules(s.Queue());
    } else {
      assert t.results[..|s.results|] == s.results;
      assert History(t) == History(s) + [];
    }
  }

  lemma InsertKeepsInv(s: State, base: nat)
    requires Inv(s, base) && Enabled(s, InsertOne)
    ensures Inv(Apply(s, InsertOne), base)
  {
    hide GroupOps, GroupOk, Committed;
    var ops, i := GroupOps(s.Group()), s.phase.next;
    assert ops[..i + 1] == ops[..i] + [ops[i]];
    NumberedJoin(ops[..i], [ops[i]], s.lastSequence + 1);
    assert Numbered([ops[i]], s.lastSequence + 1 + i) == [MemEntry(s.lastSequence + 1 + i, ops[i])];
  }

  lemma PublishKeepsInv(s: State, base: nat)
    requires Inv(s, base) && Enabled(s, Publish)
    ensures Inv(Apply(s, Publish), base)
  {
    hide GroupOps, GroupOk, Committed, Numbered;
    CommittedGroup(s.arrived, s.results, s.phase.n);
    var ops := GroupOps(s.Group());
    assert ops[..s.phase.next] == ops;
    NumberedJoin(History(s), ops, base + 1);
    NumberedNothing(base + 1 + |History(s)| + |ops|);
  }

  lemma NumberedNothing(sn: nat)
    ensures Numbered([], sn) == []
  {
  }

  lemma StepKeepsInv(s: State, step: Step, base: nat)
    requires Inv(s, base) && Enabled(s, step)
    ensures Inv(Apply(s, step), base)
  {
    match step
    case Arrive(request) => ArriveKeepsInv(s, request, base);
    case Lead =>
    case Room(ok) => RoomKeepsInv(s, ok, base);
    case InsertOne => InsertKeepsInv(s, base);
    case Publish => PublishKeepsInv(s, base);
  }

  // ----- Whole runs -----

  ghost predicate Runs(s: State, steps: seq<Step>)
    decreases |steps|, 0
  {
    steps == [] || (Runs(s, steps[..|steps| - 1]) && Enabled(After(s, steps[..|steps| - 1]), steps[|steps| - 1]))
  }

  ghost function After(s: State, steps: seq<Step>): State
    requires Runs(s, steps)
    decreases |steps|, 1
  {
    if steps == [] then s else Apply(After(s, steps[..|steps| - 1]), steps[|steps| - 1])
  }

  lemma {:induction false} RunKeepsInv(s: State, steps: seq<Step>, base: nat)
    requires Inv(s, base) && Runs(s, steps)
    ensures Inv(After(s, steps), base)
  {
    hide Inv, Apply, Enabled;
    if steps != [] {
      RunKeepsInv(s, steps[..|steps| - 1], base);
      StepKeepsInv(After(s, steps[..|steps| - 1]), steps[|steps| - 1], base);
    }
  }

  // What a reader at sequence number sn finds in the memtables.
  function Visible(mem: seq<MemEntry>, sn: nat): seq<MemEntry> {
    if mem == [] then []
    else Visible(mem[..|mem| - 1], sn) + if mem[|mem| - 1].sn <= sn then [mem[|mem| - 1]] else []
  }

  lemma {:induction false} VisibleNumbered(a: seq<Op>, b: seq<Op>, sn: nat)
    requires sn > 0
    ensures Visible(Numbered(a, sn) + Numbered(b, sn + |a|), sn + |a| - 1) == Numbered(a, sn)
  {
    var all := Numbered(a, sn) + Numbered(b, sn + |a|);
    if b != [] {
      assert all[..|all| - 1] == Numbered(a, sn) + Numbered(b[..|b| - 1], sn + |a|);
      VisibleNumbered(a, b[..|b| - 1], sn);
    } else {
      assert all == Numbered(a, sn);
      AllVisible(all, sn + |a| - 1);
    }
  }

  lemma {:induction false} AllVisible(mem: seq<MemEntry>, sn: nat)
    requires forall i :: 0 <= i < |mem| ==> mem[i].sn <= sn
    ensures Visible(mem, sn) == mem
  {
    if mem != [] {
      var n := |mem| - 1;
      AllVisible(mem[..n], sn);
      assert mem == mem[..n] + [mem[n]];
    }
  }

  // A later state still shows a reader at LastSequence of an earlier one exactly
  // what had been committed then.
  lemma VisibleAt(s: State, t: State, base: nat)
    requires Inv(s, base) && Inv(t, base) && History(s) <= History(t)
    ensures Visible(t.mem, s.lastSequence) == Numbered(History(s), base + 1)
  {
    hide GroupOps, GroupOk, Committed, Visible, Numbered;
    if t.phase.Inserting? {
      GroupFits(t.Queue(), t.phase.n);
    }
    var now, later := History(s), History(t);
    var unpublished := if t.phase.Inserting? then GroupOps(t.Group())[..t.phase.next] else [];
    var more := later[|now|..] + unpublished;
    assert later == now + later[|now|..];
    NumberedJoin(now, later[|now|..], base + 1);
    NumberedJoin(later[|now|..], unpublished, base + 1 + |now|);
    assert t.mem == Numbered(later, base + 1) + Numbered(unpublished, base + 1 + |later|);
    assert t.mem == Numbered(now, base + 1) + Numbered(more, base + 1 + |now|);
    VisibleNumbered(now, more, base + 1);
  }

  // At every moment of every run, a reader at LastSequence sees exactly the updates
  // of the writes that have succeeded: each write whole and once, in queue order,
  // numbered without gaps from the first number after base.
  lemma ReadersSeeWholeWrites(base: nat, steps: seq<Step>)
    requires Runs(Initial(base), steps)
    ensures var s := After(Initial(base), steps);
      && |s.results| <= |s.arrived|
      && s.lastSequence == base + |History(s)|
      && Visible(s.mem, s.lastSequence) == Numbered(History(s), base + 1)
  {
    hide After, Runs;
    InitialInv(base);
    RunKeepsInv(Initial(base), steps, base);
    VisibleAt(After(Initial(base), steps), After(Initial(base), steps), base);
  }

  lemma InitialInv(base: nat)
    ensures Inv(Initial(base), base)
  {
  }

  // Where the updates of writer j begin among all committed ones.
  function Position(s: State, j: nat): nat
    requires j <= |s.results| <= |s.arrived|
  {
    |Committed(s.arrived, s.results[..j])|
  }

  lemma {:induction false} CommittedPrefix(arrived: seq<Request>, results: seq<Status>, j: nat)
    requires j <= |results| <= |arrived|
    ensures Committed(arrived, results[..j]) <= Committed(arrived, results)
  {
    if j < |results| {
      assert results[..|results| - 1][..j] == results[..j];
      CommittedPrefix(arrived, results[..|results| - 1], j);
    } else {
      assert results[..j] == results;
    }
  }

  // A write that succeeded holds one block of sequence numbers, after those of
  // every earlier writer and before those of every later one.
  lemma WritesAreBlocks(s: State, base: nat, j: nat)
    requires Inv(s, base) && j < |s.results|
    ensures Position(s, j + 1) == Position(s, j) + if s.results[j].Ok? then |OpsOf(s.arrived[j])| else 0
    ensures Position(s, j + 1) <= |History(s)| <= |s.mem|
    ensures s.results[j].Ok? ==>
      s.mem[Position(s, j)..Position(s, j + 1)] == Numbered(OpsOf(s.arrived[j]), base + 1 + Position(s, j))
  {
    hide GroupOps, OpsOf, Committed, GroupOk;
    CommittedSnoc(s.arrived, s.results[..j], s.results[j]);
    assert s.results[..j + 1] == s.results[..j] + [s.results[j]];
    CommittedPrefix(s.arrived, s.results, j + 1);
    var all, before, ops := History(s), Committed(s.arrived, s.results[..j]), OpsOf(s.arrived[j]);
    if s.results[j].Ok? {
      assert before + ops <= all;
      assert all[|before|..|before| + |ops|] == (before + ops)[|before|..] == ops;
      assert s.mem[Position(s, j)..Position(s, j + 1)] == Numbered(ops, base + 1 + |before|);
    }
  }

  // Results are given once, and nothing published is ever changed.
  lemma StepExtends(s: State, step: Step, base: nat)
    requires Inv(s, base) && Enabled(s, step)
    ensures Inv(Apply(s, step), base)
    ensures s.arrived <= Apply(s, step).arrived && s.results <= Apply(s, step).results
    ensures History(s) <= History(Apply(s, step)) && s.lastSequence <= Apply(s, step).lastSequence
  {
    StepKeepsInv(s, step, base);
    hide GroupOps, GroupOk, Numbered, GroupLength;
    var t := Apply(s, step);
    CommittedPrefix(t.arrived, t.results, |s.results|);
    assert t.results[..|s.results|] == s.results;
    if step.Arrive? {
      CommittedArrive(s.arrived, [step.request], s.results);
    }
  }

  lemma {:induction false} RunExtends(s: State, steps: seq<Step>, base: nat)
    requires Inv(s, base) && Runs(s, steps)
    ensures Inv(After(s, steps), base)
    ensures s.arrived <= After(s, steps).arrived && s.results <= After(s, steps).results
    ensures History(s) <= History(After(s, steps))
  {
    hide Inv, Apply, Enabled, History;
    InvShape(s, base);
    if steps != [] {
      RunExtends(s, steps[..|steps| - 1], base);
      StepExtends(After(s, steps[..|steps| - 1]), steps[|steps| - 1], base);
      InvShape(After(s, steps[..|steps| - 1]), base);
    }
    InvShape(After(s, steps), base);
  }

  lemma InvShape(s: State, base: nat)
    requires Inv(s, base)
    ensures |s.results| <= |s.arrived|
  {
  }

  // A snapshot of LastSequence reads the same for ever.
  lemma SnapshotsAreStable(base: nat, before: seq<Step>, steps: seq<Step>)
    requires Runs(Initial(base), before) && Runs(After(Initial(base), before), steps)
    ensures var s := After(Initial(base), before);
      Visible(After(s, steps).mem, s.lastSequence) == Visible(s.mem, s.lastSequence)
  {
    hide After, Runs;
    var s := After(Initial(base), before);
    InitialInv(base);
    RunKeepsInv(Initial(base), before, base);
    RunExtends(s, steps, base);
    VisibleAt(s, s, base);
    VisibleAt(s, After(s, steps), base);
  }

  // ----- Requests for a memtable switch -----

  // Taking the step, a leader's group reaches over writer j: it was led by a write and
  // j was close enough behind it in the queue.
  ghost predicate Sweeps(s: State, step: Step, j: nat) {
    && step == Room(true) && |s.results| < |s.arrived| && s.Queue()[0].batch.Some?
    && |s.results| < j < |s.results| + GroupLength(s.Queue())
  }

  // Some leader before writer j's own turn did so.
  ghost predicate SweptUp(s: State, steps: seq<Step>, j: nat)
    requires Runs(s, steps)
  {
    steps != [] &&
    (SweptUp(s, steps[..|steps| - 1], j) || Sweeps(After(s, steps[..|steps| - 1]), steps[|steps| - 1], j))
  }

  ghost function AllSwept(s: State, steps: seq<Step>): iset<nat>
    requires Runs(s, steps)
  {
    iset j: nat | SweptUp(s, steps, j)
  }

  ghost function SweptBy(s: State, step: Step): iset<nat> {
    iset j: nat | Sweeps(s, step, j)
  }

  predicate InGroup(s: State, j: nat) {
    s.phase.Inserting? && |s.results| <= j < |s.results| + s.phase.n
  }

  // Switches made so far against the writers swept up so far.
  ghost predicate SwitchInv(s: State, swept: iset<nat>) {
    && |s.results| <= |s.arrived|
    && (forall i :: i in s.forced ==> i < |s.results|)
    && (forall j: nat :: j in swept ==> j < |s.results| || InGroup(s, j))
    && (forall j: nat :: InGroup(s, j) && |s.results| < j ==> j in swept)
    && (forall j: nat :: j < |s.results| && s.arrived[j].batch.None? && s.results[j].Ok? ==> (j in s.forced <==> j !in swept))
  }

  lemma SwitchStep(s: State, step: Step, base: nat, swept: iset<nat>)
    requires Inv(s, base) && Enabled(s, step) && SwitchInv(s, swept)
    ensures SwitchInv(Apply(s, step), swept + SweptBy(s, step))
  {
    hide GroupOps, GroupOk, Committed, Numbered, GroupLength;
    match step
    case Arrive(request) =>
    case Lead =>
    case Room(ok) => RoomKeepsSwitches(s, ok, swept);
    case InsertOne =>
    case Publish => PublishKeepsSwitches(s, base, swept);
  }

  lemma RoomKeepsSwitches(s: State, ok: bool, swept: iset<nat>)
    requires Enabled(s, Room(ok)) && SwitchInv(s, swept)
    ensures SwitchInv(Apply(s, Room(ok)), swept + SweptBy(s, Room(ok)))
  {
    hide GroupLength;
  }

  lemma PublishKeepsSwitches(s: State, base: nat, swept: iset<nat>)
    requires Inv(s, base) && Enabled(s, Publish) && SwitchInv(s, swept)
    ensures SwitchInv(Apply(s, Publish), swept + SweptBy(s, Publish))
  {
    hide GroupOps, Committed, Numbered;
    var t := Apply(s, Publish);
    forall j: nat | |s.results| <= j < |t.results| && s.arrived[j].batch.None? ensures j !in s.forced && j in swept {
      assert s.Queue()[0] == s.arrived[|s.results|];
      assert InGroup(s, j);
    }
  }

  lemma LastStep(base: nat, steps: seq<Step>)
    requires Runs(Initial(base), steps) && steps != []
    ensures var front := steps[..|steps| - 1];
      && Runs(Initial(base), front) && Enabled(After(Initial(base), front), steps[|steps| - 1])
      && After(Initial(base), steps) == Apply(After(Initial(base), front), steps[|steps| - 1])
      && AllSwept(Initial(base), steps) == AllSwept(Initial(base), front) + SweptBy(After(Initial(base), front), steps[|steps| - 1])
  {
    hide Enabled, Apply, Sweeps;
  }

  lemma {:induction false} RunKeepsSwitchInv(base: nat, steps: seq<Step>)
    requires Runs(Initial(base), steps)
    ensures SwitchInv(After(Initial(base), steps), AllSwept(Initial(base), steps))
    ensures Inv(After(Initial(base), steps), base)
  {
    InitialInv(base);
    RunKeepsInv(Initial(base), steps, base);
    if steps != [] {
      hide SwitchInv, Apply, Enabled, Inv, AllSwept, SweptBy;
      var front := steps[..|steps| - 1];
      LastStep(base, steps);
      RunKeepsSwitchInv(base, front);
      SwitchStep(After(Initial(base), front), steps[|steps| - 1], base, AllSwept(Initial(base), front));
    }
  }

  // Over every run: a switch request that was answered Ok got its switch if and only if
  // no group of an earlier writer had reached it in the queue.
  lemma SwitchedUnlessSweptUp(base: nat, steps: seq<Step>, j: nat)
    requires Runs(Initial(base), steps)
    requires var s := After(Initial(base), steps);
      j < |s.results| <= |s.arrived| && s.arrived[j].batch.None? && s.results[j].Ok?
    ensures j in After(Initial(base), steps).forced <==> !SweptUp(Initial(base), steps, j)
  {
    hide Runs, After, SweptUp;
    RunKeepsSwitchInv(base, steps);
  }

  // What a caller can check: a request that joins an empty queue is never swept up.
  lemma {:induction false} LoneRequestLeads(base: nat, before: seq<Step>, request: Request, steps: seq<Step>)
    requires Runs(Initial(base), before) && |After(Initial(base), before).results| == |After(Initial(base), before).arrived|
    requires Runs(Initial(base), before + [Arrive(request)] + steps)
    ensures !SweptUp(Initial(base), before + [Arrive(request)] + steps, |After(Initial(base), before).arrived|)
    ensures |After(Initial(base), before + [Arrive(request)] + steps).results| >= |After(Initial(base), before).arrived|
  {
    hide SweptUp, Runs, After, Enabled;
    var j, run := |After(Initial(base), before).arrived|, before + [Arrive(request)] + steps;
    var front := run[..|run| - 1];
    LastStep(base, run);
    RunKeepsSwitchInv(base, front);
    if steps == [] {
      assert front == before && run[|run| - 1] == Arrive(request);
      assert j !in AllSwept(Initial(base), before);
    } else {
      assert front == before + [Arrive(request)] + steps[..|steps| - 1];
      LoneRequestLeads(base, before, request, steps[..|steps| - 1]);
    }
    assert j in AllSwept(Initial(base), run) <==> SweptUp(Initial(base), run, j);
  }

  lemma RunOne(s: State, steps: seq<Step>, step: Step)
    requires Runs(s, steps) && Enabled(After(s, steps), step)
    ensures Runs(s, steps + [step]) && After(s, steps + [step]) == Apply(After(s, steps), step)
  {
    assert (steps + [step])[..|steps|] == steps;
  }

  // One write and, behind it, a request for a switch: both succeed, no switch is made.
  lemma GroupedSwitchIsLost(op: Op) returns (steps: seq<Step>)
    ensures Runs(Initial(0), steps) && After(Initial(0), steps).results == [Ok, Ok]
    ensures After(Initial(0), steps).arrived == [Request(Some([op]), false), Request(None, false)]
    ensures After(Initial(0), steps).forced == {}
  {
    hide Runs, After, GroupOps, ByteSize, Numbered;
    var a, b, s := Request(Some([op]), false), Request(None, false), Initial(0);
    assert Runs(s, []) && After(s, []) == s by { EmptyRun(s); }
    RunOne(s, [], Arrive(a));
    RunOne(s, [] + [Arrive(a)], Arrive(b));
    steps := [] + [Arrive(a)] + [Arrive(b)];
    assert After(s, steps) == s.(arrived := [a, b]);
    RunOne(s, steps, Lead);
    steps := steps + [Lead];
    assert After(s, steps).Queue() == [a, b];
    assert GroupLength([a, b]) == GroupFrom([a, b], 2, SizeOf(a) + 0) == 2;
    RunOne(s, steps, Room(true));
    steps := steps + [Room(true)];
    assert After(s, steps).Group() == [a, b];
    PairOps(op);
    RunOne(s, steps, InsertOne);
    steps := steps + [InsertOne];
    assert After(s, steps).Group() == [a, b];
    RunOne(s, steps, Publish);
    steps := steps + [Publish];
    assert After(s, steps).results == [] + seq(2, i => Ok) == [Ok, Ok];
  }

  lemma EmptyRun(s: State)
    ensures Runs(s, []) && After(s, []) == s
  {
  }

  lemma PairOps(op: Op)
    ensures GroupOps([Request(Some([op]), false), Request(None, false)]) == [op]
  {
    var a, b := Request(Some([op]), false), Request(None, false);
    assert [a, b][..1] == [a] && [a][..0] == [];
    assert GroupOps([a]) == GroupOps([]) + [op];
    assert GroupOps([a, b]) == GroupOps([a]) + [];
  }

  // ----- The queue itself -----

  class Writer {
    const batch: WriteBatch?
    const sync: bool
    var done: bool
    var status: Status

    constructor (batch: WriteBatch?, sync: bool)
      ensures this.batch == batch && this.sync == sync && !done
    {
      this.batch, this.sync, done, status := batch, sync, false, Ok;
    }
  }

  ghost function RequestOf(w: Writer): Request
    reads if w.batch == null then {} else {w.batch}
  {
    Request(if w.batch == null then None else Some(w.batch.ops), w.sync)
  }

  ghost function Batches(writers: seq<Writer>): set<WriteBatch> {
    set i | 0 <= i < |writers| && writers[i].batch != null :: writers[i].batch
  }

  ghost predicate AllValid(writers: seq<Writer>)
    reads Batches(writers)
  {
    forall b :: b in Batches(writers) ==> b.Valid()
  }

  ghost function Requests(writers: seq<Writer>): (r: seq<Request>)
    reads Batches(writers)
    ensures |r| == |writers|
  {
    seq(|writers|, i requires 0 <= i < |writers| reads Batches(writers) =>
      assert writers[i].batch != null ==> writers[i].batch in Batches(writers);
      RequestOf(writers[i]))
  }

  lemma GroupOpsNext(queue: seq<Request>, i: nat)
    requires i < |queue|
    ensures GroupOps(queue[..i + 1]) == GroupOps(queue[..i]) + OpsOf(queue[i])
    ensures i == 0 ==> GroupOps(queue[..1]) == OpsOf(queue[0])
  {
    assert queue[..i + 1][..i] == queue[..i];
  }

  lemma GroupFromNext(queue: seq<Request>, i: nat, size: nat)
    requires 0 < i <= |queue|
    ensures i == |queue| ==> GroupFrom(queue, i, size) == i
    ensures i < |queue| ==>
      GroupFrom(queue, i, size) ==
        if (queue[i].sync && !queue[0].sync) || (queue[i].batch.Some? && size + SizeOf(queue[i]) > MaxSize(SizeOf(queue[0])))
        then i else GroupFrom(queue, i + 1, size + SizeOf(queue[i]))
  {
  }

  lemma RequestAt(writers: seq<Writer>, i: nat)
    requires i < |writers|
    ensures Requests(writers)[i] == RequestOf(writers[i])
    ensures writers[i].batch != null ==> writers[i].batch in Batches(writers)
    ensures writers[i].batch == null ==> SizeOf(RequestOf(writers[i])) == 0
    ensures writers[i].batch != null && AllValid(writers) ==>
      writers[i].batch.Valid() && SizeOf(RequestOf(writers[i])) == |writers[i].batch.rep|
  {
    if writers[i].batch != null && AllValid(writers) {
      assert writers[i].batch.Valid();
      writers[i].batch.Fields();
    }
  }

  twostate lemma OthersStay(writers: seq<Writer>)
    requires forall b :: b in Batches(writers) ==> b.rep == old(b.rep) && b.ops == old(b.ops)
    ensures Requests(writers) == old(Requests(writers))
    ensures old(AllValid(writers)) ==> AllValid(writers)
  {
  }

  // The first batch is copied into tmp before a second one joins it.
  method AppendToGroup(group: WriteBatch, first: WriteBatch, batch: WriteBatch, tmp: WriteBatch) returns (result: WriteBatch)
    requires group.Valid() && first.Valid() && batch.Valid() && first != tmp && batch != tmp
    requires group == tmp || (group == first && tmp.Valid() && tmp.ops == [])
    modifies tmp
    ensures result == tmp && result.Valid() && result.ops == old(group.ops) + old(batch.ops)
  {
    hide WriteBatches.WriteBatch.Valid;
    result := group;
    if result == first {
      result := tmp;
      result.Append(first);
    }
    result.Append(batch);
  }

  // BuildBatchGroup: tmp, the scratch batch, is empty and no writer's own. A group
  // of one uses the writer's batch itself; else the batches are gathered in tmp.
  method BuildBatchGroup(writers: seq<Writer>, tmp: WriteBatch) returns (result: WriteBatch, last: nat)
    requires writers != [] && writers[0].batch != null && tmp.Valid() && tmp.ops == []
    requires tmp !in Batches(writers)
    requires AllValid(writers)
    modifies tmp
    ensures last < |writers| && last + 1 == GroupLength(Requests(writers))
    ensures result.Valid() && result.ops == GroupOps(Requests(writers)[..last + 1])
    ensures result == writers[0].batch || result == tmp
  {
    hide WriteBatches.WriteBatch.Valid, GroupFrom, GroupOps, SizeOf, Requests, AllValid;
    ghost var requests := Requests(writers);
    RequestAt(writers, 0);
    GroupOpsNext(requests, 0);
    var first := writers[0];
    result := first.batch;
    var size: nat := |first.batch.rep|;
    var maxSize := if size <= SMALL_WRITE then size + SMALL_WRITE else MAX_GROUP;
    last := 0;
    var i := 1;
    while i < |writers|
      invariant 1 <= i <= |writers| && last == i - 1 && Requests(writers) == requests
      invariant AllValid(writers)
      invariant GroupLength(requests) == GroupFrom(requests, i, size)
      invariant result.Valid() && result.ops == GroupOps(requests[..i])
      invariant result == first.batch || result == tmp
      invariant result == first.batch ==> tmp.Valid() && tmp.ops == []
    {
      var w := writers[i];
      RequestAt(writers, i);
      GroupOpsNext(requests, i);
      GroupFromNext(requests, i, size);
      if w.sync && !first.sync {
        break;
      }
      if w.batch != null {
        size := size + |w.batch.rep|;
        if size > maxSize {
          break;
        }
        label before:
        result := AppendToGroup(result, first.batch, w.batch, tmp);
        OthersStay@before(writers);
      }
      last := i;
      i := i + 1;
    }
    if i == |writers| {
      GroupFromNext(requests, i, size);
    }
  }

  // The leader's way out: everyone up to the last writer of the group leaves the
  // queue, the followers with the leader's status.
  method FinishGroup(writers: seq<Writer>, last: nat, status: Status) returns (rest: seq<Writer>)
    requires last < |writers| && forall i, j :: 0 <= i < j < |writers| ==> writers[i] != writers[j]
    modifies writers[1..last + 1]
    ensures rest == writers[last + 1..]
    ensures forall i :: 0 < i <= last ==> writers[i].done && writers[i].status == status
    ensures writers[0].done == old(writers[0].done)
  {
    var me, lastWriter := writers[0], writers[last];
    rest := writers;
    ghost var popped := 0;
    while true
      invariant 0 <= popped <= last && rest == writers[popped..]
      invariant forall i :: 0 < i < popped ==> writers[i].done && writers[i].status == status
      invariant me.done == old(me.done)
      decreases last - popped
    {
      var ready := rest[0];
      assert ready == writers[popped];
      rest := rest[1..];
      popped := popped + 1;
      if ready != me {
        assert ready in writers[1..last + 1] by { assert writers[1..last + 1][popped - 2] == ready; }
        ready.status := status;
        ready.done := true;
      }
      if ready == lastWriter {
        break;
      }
    }
  }
}
