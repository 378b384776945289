// The store as a state machine: writes, memtable switches, flushes, moves,
// compactions and snapshots, and what a read returns at any reachable state (db_impl.cc).
module Store {
  import opened Wrappers
  import opened InternalKeys
  import opened Versions
  import opened Compactions
  import opened CompactionWork
  import opened VersionEdits
  import opened Installs

  // ----- The reference: what operations asked for one after another amount to -----

  // One update of a write: a put of a value, or the deletion of a key.
  datatype Op = Op(user: UserKey, kind: ValueType, value: Value)

  // Of the first s operations, number k + 1 is the last on the key.
  ghost predicate IsLastOn(ops: seq<Op>, user: UserKey, s: nat, k: nat) {
    && k < |ops| && k < s && ops[k].user == user
    && forall j :: k < j < |ops| && j < s ==> ops[j].user != user
  }

  // r is what a reader who sees the first s operations must be told about the key.
  ghost predicate Answers(ops: seq<Op>, user: UserKey, s: nat, r: Option<Value>) {
    && ((forall k :: 0 <= k < |ops| && k < s ==> ops[k].user != user) ==> r == None)
    && (forall k: nat :: IsLastOn(ops, user, s, k) ==> r == if ops[k].kind == Put then Some(ops[k].value) else None)
  }

  function LastWrite(ops: seq<Op>, user: UserKey, s: nat): Option<Value> {
    if ops == [] then None
    else
      var n := |ops| - 1;
      if ops[n].user == user && n < s then (if ops[n].kind == Put then Some(ops[n].value) else None)
      else LastWrite(ops[..n], user, s)
  }

  lemma {:induction false} LastWriteAnswers(ops: seq<Op>, user: UserKey, s: nat)
    ensures Answers(ops, user, s, LastWrite(ops, user, s))
  {
    if ops != [] {
      var n := |ops| - 1;
      if !(ops[n].user == user && n < s) {
        LastWriteAnswers(ops[..n], user, s);
        forall k: nat | IsLastOn(ops, user, s, k) ensures IsLastOn(ops[..n], user, s, k) && ops[..n][k] == ops[k] {
        }
        assert forall k :: 0 <= k < n ==> ops[..n][k] == ops[k];
      } else {
        assert forall k: nat :: IsLastOn(ops, user, s, k) ==> k == n;
      }
    }
  }

  lemma {:induction false} LastWriteOfPrefix(ops: seq<Op>, more: seq<Op>, user: UserKey, s: nat)
    requires s <= |ops|
    ensures LastWrite(ops + more, user, s) == LastWrite(ops, user, s)
  {
    if more == [] {
      assert ops + more == ops;
    } else {
      assert (ops + more)[..|ops + more| - 1] == ops + more[..|more| - 1];
      LastWriteOfPrefix(ops, more[..|more| - 1], user, s);
    }
  }

  lemma {:induction false} LastWriteOfAll(ops: seq<Op>, user: UserKey, s: nat)
    requires |ops| <= s
    ensures LastWrite(ops, user, s) == LastWrite(ops, user, |ops|)
  {
    if ops != [] {
      LastWriteOfAll(ops[..|ops| - 1], user, s);
      LastWriteOfAll(ops[..|ops| - 1], user, |ops|);
    }
  }

  // ----- The state -----

  // history lists every operation ever written, oldest first; the store itself never
  // reads it.
  datatype State = State(mem: seq<Entry>, imm: Option<seq<Entry>>, levels: seq<Files>,
                         lastSequence: nat, nextFile: nat, snapshots: seq<nat>, history: seq<Op>)

  function Imm(st: State): seq<Entry> {
    if st.imm.Some? then st.imm.value else []
  }

  ghost function StoreEntries(st: State): iset<Entry> {
    Elems(st.mem) + Elems(Imm(st)) + VersionEntries(st.levels)
  }

  // DoCompactionWork's smallest_snapshot: the oldest snapshot, else the present.
  function Horizon(st: State): nat {
    if st.snapshots == [] then st.lastSequence else st.snapshots[0]
  }

  ghost predicate ValidSnapshots(snapshots: seq<nat>, lastSequence: nat) {
    && (forall i, j :: 0 <= i < j < |snapshots| ==> snapshots[i] <= snapshots[j])
    && (forall i :: 0 <= i < |snapshots| ==> snapshots[i] <= lastSequence)
  }

  // Each layer holds only newer entries of a key than the layers below it.
  ghost predicate LayersOrdered(st: State) {
    && Newer(Elems(st.mem), Elems(Imm(st)))
    && Newer(Elems(st.mem), VersionEntries(st.levels))
    && Newer(Elems(Imm(st)), VersionEntries(st.levels))
  }

  ghost predicate Structured(st: State) {
    && Sorted(st.mem) && Sorted(Imm(st))
    && ValidVersion(st.levels) && OrderedLevels(st.levels) && NumbersUnique(st.levels, st.nextFile)
    && LayersOrdered(st)
    && st.lastSequence < MAX_SEQUENCE
    && ValidSnapshots(st.snapshots, st.lastSequence)
  }

  // The entry that an operation becomes.
  function EntryOf(op: Op, sn: nat): Entry {
    Entry(Key(op.user, sn, op.kind), op.value)
  }

  ghost predicate Written(ops: seq<Op>, e: Entry) {
    0 < e.key.sn <= |ops| && e == EntryOf(ops[e.key.sn - 1], e.key.sn)
  }

  // Operations are numbered from 1, and nothing is stored that was not written.
  ghost predicate Recorded(st: State) {
    |st.history| == st.lastSequence && forall e :: e in StoreEntries(st) ==> Written(st.history, e)
  }

  // What every read at a live snapshot must see.
  ghost predicate Faithful(st: State) {
    forall user, s: nat :: s >= Horizon(st) ==> Reads(StoreEntries(st), user, s, LastWrite(st.history, user, s))
  }

  ghost predicate Inv(st: State) {
    Structured(st) && Recorded(st) && Faithful(st)
  }

  // ----- Reading -----

  // DBImpl::Get: memtable, immutable memtable, then the version.
  ghost function Lookup(st: State, user: UserKey, s: nat): Option<Entry>
    requires Sorted(st.mem) && Sorted(Imm(st)) && Readable(st.levels)
  {
    FirstSome([TableGet(st.mem, user, s), TableGet(Imm(st), user, s), Walk(st.levels, user, s)])
  }

  lemma ThreeLayers(a: iset<Entry>, b: iset<Entry>, c: iset<Entry>, user: UserKey, s: nat,
                    x: Option<Entry>, y: Option<Entry>, z: Option<Entry>)
    requires Finds(a, user, s, x) && Finds(b, user, s, y) && Finds(c, user, s, z)
    requires Newer(a, b) && Newer(a, c) && Newer(b, c)
    ensures Finds(a + b + c, user, s, FirstSome([x, y, z]))
  {
    var layers := [a, b, c];
    FirstSomeFinds(layers, [x, y, z], user, s);
    assert Union(layers) == a + b + c by {
      forall e ensures InSomeLayer(layers, e) <==> e in a + b + c {
        assert e in layers[0] || e in layers[1] || e in layers[2] ==> InSomeLayer(layers, e);
      }
    }
  }

  lemma LookupFinds(st: State, user: UserKey, s: nat)
    requires Structured(st)
    ensures Finds(StoreEntries(st), user, s, Lookup(st, user, s))
  {
    TableGetIsNewest(st.mem, user, s);
    TableGetIsNewest(Imm(st), user, s);
    WalkFinds(st.levels, user, s);
    ThreeLayers(Elems(st.mem), Elems(Imm(st)), VersionEntries(st.levels), user, s,
                TableGet(st.mem, user, s), TableGet(Imm(st), user, s), Walk(st.levels, user, s));
  }

  lemma UniqueEntries(st: State)
    requires Recorded(st)
    ensures Unique(StoreEntries(st))
  {
    forall d, e | d in StoreEntries(st) && e in StoreEntries(st) && d.key.sn == e.key.sn ensures d == e {
      assert Written(st.history, d) && Written(st.history, e);
    }
  }

  // At a live snapshot a read returns exactly the last write not after it.
  lemma GetIsLastWrite(st: State, user: UserKey, s: nat)
    requires Inv(st) && s >= Horizon(st)
    ensures Meaning(Lookup(st, user, s)) == LastWrite(st.history, user, s)
  {
    LookupFinds(st, user, s);
    UniqueEntries(st);
    assert Reads(StoreEntries(st), user, s, Meaning(Lookup(st, user, s)));
    ReadsIsAFunction(StoreEntries(st), user, s, Meaning(Lookup(st, user, s)), LastWrite(st.history, user, s));
  }

  // ----- Writing -----

  // MemTable::Add keeps the table in key order.
  function AddToTable(es: seq<Entry>, e: Entry): (r: seq<Entry>) {
    if es == [] || Less(e.key, es[0].key) then [e] + es else [es[0]] + AddToTable(es[1..], e)
  }

  lemma {:induction false} AddToTableContents(es: seq<Entry>, e: Entry)
    requires Sorted(es) && forall d :: d in es ==> d.key.sn < e.key.sn
    ensures Sorted(AddToTable(es, e))
    ensures forall d :: d in AddToTable(es, e) <==> d == e || d in es
  {
    if es != [] && !Less(e.key, es[0].key) {
      assert es == [es[0]] + es[1..];
      AddToTableContents(es[1..], e);
      var r := AddToTable(es[1..], e);
      assert es[0] in es;
      forall i | 0 <= i < |r| ensures Less(es[0].key, r[i].key) {
        assert r[i] in r;
      }
    } else if es != [] {
      assert forall i :: 0 < i < |es| ==> Less(es[0].key, es[i].key);
    }
  }

  function WriteOne(st: State, op: Op): State {
    var e := EntryOf(op, st.lastSequence + 1);
    st.(mem := AddToTable(st.mem, e), lastSequence := st.lastSequence + 1, history := st.history + [op])
  }

  function WriteBatch(st: State, batch: seq<Op>): State {
    if batch == [] then st else WriteOne(WriteBatch(st, batch[..|batch| - 1]), batch[|batch| - 1])
  }

  lemma AllRecorded(st: State)
    requires Recorded(st)
    ensures forall d :: d in StoreEntries(st) ==> d.key.sn <= st.lastSequence
  {
    hide StoreEntries;
    forall d | d in StoreEntries(st) ensures d.key.sn <= st.lastSequence {
      assert Written(st.history, d);
    }
  }

  lemma MoreEntries(st: State, st': State, e: Entry)
    requires Imm(st') == Imm(st) && st'.levels == st.levels && forall d :: d in st'.mem <==> d == e || d in st.mem
    ensures StoreEntries(st') == StoreEntries(st) + iset{e}
  {
  }

  lemma MemIsStored(st: State)
    ensures forall d :: d in st.mem ==> d in StoreEntries(st)
  {
  }

  // The new entry is newer than all there are.
  lemma WriteOneEntries(st: State, op: Op)
    requires Structured(st) && Recorded(st)
    ensures var e, st' := EntryOf(op, st.lastSequence + 1), WriteOne(st, op);
      && (forall d :: d in StoreEntries(st) ==> d.key.sn < e.key.sn) && (forall d :: d in st.mem ==> d.key.sn < e.key.sn)
      && Sorted(st'.mem) && StoreEntries(st') == StoreEntries(st) + iset{e}
      && (forall d :: d in st'.mem <==> d == e || d in st.mem)
  {
    assert Sorted(st.mem);
    hide Structured, Recorded, StoreEntries, AddToTable, Sorted;
    AllRecorded(st);
    MemIsStored(st);
    AddToTableContents(st.mem, EntryOf(op, st.lastSequence + 1));
    MoreEntries(st, WriteOne(st, op), EntryOf(op, st.lastSequence + 1));
  }

  lemma WriteOneRecorded(st: State, op: Op)
    requires Structured(st) && Recorded(st)
    ensures Recorded(WriteOne(st, op))
  {
    hide Structured, StoreEntries, AddToTable;
    WriteOneEntries(st, op);
    var e, st' := EntryOf(op, st.lastSequence + 1), WriteOne(st, op);
    forall d | d in StoreEntries(st') ensures Written(st'.history, d) {
      assert d != e ==> Written(st.history, d);
    }
  }

  lemma WriteOneFaithful(st: State, op: Op)
    requires Structured(st) && Recorded(st) && Faithful(st)
    ensures Faithful(WriteOne(st, op))
  {
    WriteOneEntries(st, op);
    hide Structured, StoreEntries, AddToTable, Recorded, Reads;
    var e, st' := EntryOf(op, st.lastSequence + 1), WriteOne(st, op);
    forall user, s: nat | s >= Horizon(st') ensures Reads(StoreEntries(st'), user, s, LastWrite(st'.history, user, s)) {
      ReadAfterWrite(st, st', op, user, s);
    }
  }

  lemma WriteOneStructured(st: State, op: Op)
    requires Structured(st) && Recorded(st) && st.lastSequence + 1 < MAX_SEQUENCE
    ensures Structured(WriteOne(st, op))
  {
    WriteOneEntries(st, op);
    hide AddToTable, Recorded;
  }

  lemma WriteOneKeepsInv(st: State, op: Op)
    requires Inv(st) && st.lastSequence + 1 < MAX_SEQUENCE
    ensures Inv(WriteOne(st, op))
  {
    hide Structured, Recorded, Faithful, WriteOne;
    WriteOneStructured(st, op);
    WriteOneRecorded(st, op);
    WriteOneFaithful(st, op);
  }

  lemma ReadAfterWrite(st: State, st': State, op: Op, user: UserKey, s: nat)
    requires |st.history| == st.lastSequence && st'.history == st.history + [op]
    requires StoreEntries(st') == StoreEntries(st) + iset{EntryOf(op, st.lastSequence + 1)}
    requires forall d :: d in StoreEntries(st) ==> d.key.sn <= st.lastSequence
    requires Reads(StoreEntries(st), user, s, LastWrite(st.history, user, s))
    ensures Reads(StoreEntries(st'), user, s, LastWrite(st'.history, user, s))
  {
    var all, all', e := StoreEntries(st), StoreEntries(st'), EntryOf(op, st.lastSequence + 1);
    assert st'.history[..|st'.history| - 1] == st.history;
    if op.user == user && st.lastSequence < s {
      assert IsNewest(all', user, s, e);
    } else {
      assert forall f :: Visible(all', user, s, f) ==> Visible(all, user, s, f);
      assert forall f :: Visible(all, user, s, f) ==> Visible(all', user, s, f);
      ReadsTransfer(all, all', user, s, LastWrite(st.history, user, s));
    }
  }

  lemma {:induction false} WriteBatchKeepsInv(st: State, batch: seq<Op>)
    requires Inv(st) && st.lastSequence + |batch| < MAX_SEQUENCE
    ensures Inv(WriteBatch(st, batch)) && WriteBatch(st, batch).lastSequence == st.lastSequence + |batch|
  {
    if batch != [] {
      WriteBatchKeepsInv(st, batch[..|batch| - 1]);
      WriteOneKeepsInv(WriteBatch(st, batch[..|batch| - 1]), batch[|batch| - 1]);
    }
  }

  lemma {:induction false} WriteBatchHistory(st: State, batch: seq<Op>)
    ensures WriteBatch(st, batch) ==
      st.(mem := WriteBatch(st, batch).mem, lastSequence := st.lastSequence + |batch|, history := st.history + batch)
  {
    if batch != [] {
      var n := |batch| - 1;
      WriteBatchHistory(st, batch[..n]);
      assert st.history + batch == st.history + batch[..n] + [batch[n]];
    }
  }

  // ----- Memtable switch and flush -----

  function SwitchMemtable(st: State): State
    requires st.imm.None?
  {
    st.(imm := Some(st.mem), mem := [])
  }

  lemma SwitchKeepsInv(st: State)
    requires Inv(st) && st.imm.None?
    ensures Inv(SwitchMemtable(st))
  {
    var st' := SwitchMemtable(st);
    assert StoreEntries(st') == StoreEntries(st);
  }

  // The table BuildTable writes for a nonempty memtable.
  function TableFor(es: seq<Entry>, number: nat, size: nat): FileMeta
    requires es != []
  {
    FileMeta(number, size, es[0].key, es[|es| - 1].key, es)
  }

  ghost predicate FlushStep(st: State, st': State, level: nat, size: nat) {
    && st.imm.Some? && level < NUM_LEVELS
    && if st.imm.value == [] then
         st' == st.(imm := None, nextFile := st.nextFile + 1)
       else
         var f := TableFor(st.imm.value, st.nextFile, size);
         && |st.levels| == NUM_LEVELS
         && ClearDownTo(st.levels, level, f)
         && st' == st.(imm := None, levels := Install(st.levels, FlushEdit(f, level)), nextFile := st.nextFile + 1)
  }

  lemma FlushKeepsInv(st: State, st': State, level: nat, size: nat)
    requires Inv(st) && FlushStep(st, st', level, size)
    ensures Inv(st')
  {
    if st.imm.value != [] {
      ImmTableValid(st, size);
      FlushTable(st, st', level, size);
    }
    SameContents(st, st');
  }

  lemma FlushTable(st: State, st': State, level: nat, size: nat)
    requires Structured(st) && FlushStep(st, st', level, size) && st.imm.value != []
    requires ValidFile(TableFor(st.imm.value, st.nextFile, size))
    ensures ValidVersion(st'.levels) && OrderedLevels(st'.levels) && NumbersUnique(st'.levels, st'.nextFile)
    ensures VersionEntries(st'.levels) == VersionEntries(st.levels) + Elems(Imm(st))
  {
    FlushInstalls(st.levels, TableFor(st.imm.value, st.nextFile, size), level, st.nextFile);
  }

  lemma ImmTableValid(st: State, size: nat)
    requires Structured(st) && Recorded(st) && st.imm.Some? && st.imm.value != []
    ensures ValidFile(TableFor(st.imm.value, st.nextFile, size))
  {
    forall e | e in st.imm.value ensures e.key.sn <= MAX_SEQUENCE {
      assert e in StoreEntries(st) && Written(st.history, e);
    }
  }

  lemma FlushInstalls(levels: seq<Files>, f: FileMeta, level: nat, nextFile: nat)
    requires ValidVersion(levels) && OrderedLevels(levels) && NumbersUnique(levels, nextFile)
    requires ValidFile(f) && f.number == nextFile && level < NUM_LEVELS
    requires Newer(Elems(f.entries), VersionEntries(levels)) && ClearDownTo(levels, level, f)
    ensures
      var levels' := Install(levels, FlushEdit(f, level));
      && ValidVersion(levels') && OrderedLevels(levels') && NumbersUnique(levels', nextFile + 1)
      && VersionEntries(levels') == VersionEntries(levels) + Elems(f.entries)
  {
    FlushIsFresh(levels, f, level, nextFile);
    InstallEdits(levels, FlushEdit(f, level));
    FlushKeepsVersion(levels, f, level, Install(levels, FlushEdit(f, level)), nextFile);
  }

  // A flush moves entries without changing what the store holds.
  lemma SameContents(st: State, st': State)
    requires Inv(st)
    requires st'.mem == st.mem && st'.imm == None && st'.lastSequence == st.lastSequence
    requires st'.snapshots == st.snapshots && st'.history == st.history
    requires ValidVersion(st'.levels) && OrderedLevels(st'.levels) && NumbersUnique(st'.levels, st'.nextFile)
    requires VersionEntries(st'.levels) == VersionEntries(st.levels) + Elems(Imm(st))
    ensures Inv(st')
  {
    assert StoreEntries(st') == StoreEntries(st);
  }

  lemma FlushIsFresh(levels: seq<Files>, f: FileMeta, level: nat, nextFile: nat)
    requires |levels| == NUM_LEVELS && level < NUM_LEVELS && NumbersUnique(levels, nextFile) && f.number == nextFile
    ensures ValidEdit(FlushEdit(f, level)) && FreshAdds(levels, FlushEdit(f, level))
  {
    forall i | 0 <= i < |levels[level]| ensures levels[level][i].number != f.number {
      assert levels[level][i] in levels[level];
    }
  }

  // ----- Moves and compactions -----

  // The choice of inputs: everything overlapping below, nothing older left behind.
  ghost predicate GoodInputs(levels: seq<Files>, level: nat, in0: Files, in1: Files)
    requires |levels| == NUM_LEVELS
  {
    && level + 1 < NUM_LEVELS
    && (forall f :: f in in0 ==> f in levels[level])
    && TakesOverlaps(levels[level + 1], in0, in1)
    && OlderClosed(levels[level], in0)
  }

  ghost predicate MoveStep(st: State, st': State, level: nat, f: FileMeta) {
    && |st.levels| == NUM_LEVELS
    && GoodInputs(st.levels, level, [f], [])
    && st' == st.(levels := Install(st.levels, CompactionEdit(level, [f], [], [f])))
  }

  // outs are what DoCompactionWork makes of the inputs at some snapshot bound
  // that no live snapshot is below.
  ghost predicate MergedInto(levels: seq<Files>, level: nat, in0: Files, in1: Files, snapshot: nat, outs: Files, nextFile: nat)
    requires |levels| == NUM_LEVELS
  {
    && ValidFiles(outs) && SortedFiles(outs)
    && (forall e :: InFiles(outs, e) <==>
          e in InputEntries(in0, in1) && !Dropped(levels, level, InputEntries(in0, in1), snapshot, e))
    && NumberedFrom(outs, nextFile)
  }

  ghost predicate CompactStep(st: State, st': State, level: nat, in0: Files, in1: Files, outs: Files, snapshot: nat) {
    && |st.levels| == NUM_LEVELS
    && GoodInputs(st.levels, level, in0, in1) && OlderClosed(st.levels[level + 1], in1)
    && snapshot <= Horizon(st)
    && MergedInto(st.levels, level, in0, in1, snapshot, outs, st.nextFile)
    && st' == st.(levels := Install(st.levels, CompactionEdit(level, in0, in1, outs)), nextFile := st.nextFile + |outs|)
  }

  lemma CompactionIsFresh(levels: seq<Files>, level: nat, in0: Files, in1: Files, outs: Files, nextFile: nat)
    requires |levels| == NUM_LEVELS && NumbersUnique(levels, nextFile) && level + 1 < NUM_LEVELS
    requires NumberedFrom(outs, nextFile)
    requires (forall f :: f in in0 ==> f in levels[level]) && (forall f :: f in in1 ==> f in levels[level + 1])
    ensures ValidEdit(CompactionEdit(level, in0, in1, outs)) && FreshAdds(levels, CompactionEdit(level, in0, in1, outs))
  {
    var next := levels[level + 1];
    forall i, j | 0 <= i < |outs| && 0 <= j < |next| ensures next[j].number != outs[i].number {
      assert next[j] in next;
    }
  }

  lemma MoveIsFresh(levels: seq<Files>, level: nat, f: FileMeta, nextFile: nat)
    requires |levels| == NUM_LEVELS && NumbersUnique(levels, nextFile) && level + 1 < NUM_LEVELS && f in levels[level]
    ensures ValidEdit(CompactionEdit(level, [f], [], [f])) && FreshAdds(levels, CompactionEdit(level, [f], [], [f]))
  {
    var next := levels[level + 1];
    forall j | 0 <= j < |next| ensures next[j].number != f.number {
      assert next[j] in next;
    }
  }

  // Shared by moves and compactions: the new version is valid and holds the
  // outputs in place of the inputs.
  lemma InstallReplaces(levels: seq<Files>, level: nat, in0: Files, in1: Files, outs: Files, nextFile: nat)
    requires ValidVersion(levels) && OrderedLevels(levels) && NumbersUnique(levels, nextFile)
    requires GoodInputs(levels, level, in0, in1)
    requires ValidFiles(outs) && SortedFiles(outs) && MadeOf(outs, in0, in1)
    requires ValidEdit(CompactionEdit(level, in0, in1, outs)) && FreshAdds(levels, CompactionEdit(level, in0, in1, outs))
    ensures
      var levels' := Install(levels, CompactionEdit(level, in0, in1, outs));
      && ValidVersion(levels') && OrderedLevels(levels') && Replaced(levels, level, in0, in1, outs, levels')
  {
    var e := CompactionEdit(level, in0, in1, outs);
    InstallEdits(levels, e);
    ReplaceMembers(levels, level, in0, in1, outs, Install(levels, e), nextFile);
    ReplaceKeepsVersion(levels, level, in0, in1, outs, Install(levels, e));
  }

  ghost predicate NumberedFrom(outs: Files, first: nat) {
    forall i :: 0 <= i < |outs| ==> outs[i].number == first + i
  }

  lemma OutputNumber(outs: Files, first: nat, f: FileMeta)
    requires NumberedFrom(outs, first) && f in outs
    ensures first <= f.number < first + |outs| && f == outs[f.number - first]
  {
    var i :| 0 <= i < |outs| && outs[i] == f;
  }

  lemma ReplacedNumbers(levels: seq<Files>, level: nat, in0: Files, in1: Files, outs: Files, levels': seq<Files>, nextFile: nat)
    requires Replaced(levels, level, in0, in1, outs, levels') && NumbersUnique(levels, nextFile) && NumberedFrom(outs, nextFile)
    ensures NumbersUnique(levels', nextFile + |outs|)
  {
    forall l: nat, f | l < |levels'| && f in levels'[l] ensures f.number < nextFile + |outs| {
      if f in outs { OutputNumber(outs, nextFile, f); }
    }
    forall l: nat, m: nat, f, g | l < |levels'| && m < |levels'| && f in levels'[l] && g in levels'[m] && f.number == g.number
      ensures l == m && f == g
    {
      if f in outs { OutputNumber(outs, nextFile, f); }
      if g in outs { OutputNumber(outs, nextFile, g); }
    }
  }

  lemma MovedNumbers(levels: seq<Files>, level: nat, f: FileMeta, levels': seq<Files>, nextFile: nat)
    requires Replaced(levels, level, [f], [], [f], levels') && NumbersUnique(levels, nextFile) && f in levels[level]
    ensures NumbersUnique(levels', nextFile)
  {
  }

  lemma MoveKeepsInv(st: State, st': State, level: nat, f: FileMeta)
    requires Inv(st) && MoveStep(st, st', level, f)
    ensures Inv(st')
  {
    MoveInstalls(st.levels, level, f, st.nextFile);
    CompactKeepsLayers(st, st');
    assert StoreEntries(st') == StoreEntries(st);
  }

  lemma MoveInstalls(levels: seq<Files>, level: nat, f: FileMeta, nextFile: nat)
    requires ValidVersion(levels) && OrderedLevels(levels) && NumbersUnique(levels, nextFile)
    requires GoodInputs(levels, level, [f], [])
    ensures
      var e := CompactionEdit(level, [f], [], [f]);
      && ValidEdit(e)
      && ValidVersion(Install(levels, e)) && OrderedLevels(Install(levels, e)) && NumbersUnique(Install(levels, e), nextFile)
      && VersionEntries(Install(levels, e)) == VersionEntries(levels)
      && Replaced(levels, level, [f], [], [f], Install(levels, e))
  {
    assert f in [f];
    MemberValid(levels, level, f);
    MoveIsFresh(levels, level, f, nextFile);
    InstallReplaces(levels, level, [f], [], [f], nextFile);
    var levels' := Install(levels, CompactionEdit(level, [f], [], [f]));
    MovedNumbers(levels, level, f, levels', nextFile);
    forall e ensures InLevels(levels', e) <==> InLevels(levels, e) {
      ReplacedEntries(levels, level, [f], [], [f], levels', e);
      MovedEntry(levels, level, f, e);
    }
  }

  lemma MemberValid(levels: seq<Files>, level: nat, f: FileMeta)
    requires ValidVersion(levels) && level < NUM_LEVELS && f in levels[level]
    ensures ValidFiles([f]) && SortedFiles([f]) && MadeOf([f], [f], [])
  {
    var i :| 0 <= i < |levels[level]| && levels[level][i] == f;
  }

  lemma MovedEntry(levels: seq<Files>, level: nat, f: FileMeta, e: Entry)
    requires level < |levels| && f in levels[level]
    ensures InFiles([f], e) <==> e in f.entries
    ensures e in f.entries ==> InLevels(levels, e)
    ensures e in InputEntries([f], []) <==> e in f.entries
  {
    assert [f][0] == f;
    if e in f.entries {
      MemberHolds(levels[level], f, e);
    }
  }

  // Nothing outside the inputs is older than a deletion marker that may be dropped.
  lemma OutsideIsNewer(st: State, level: nat, in0: Files, in1: Files, snapshot: nat, d: Entry, e: Entry)
    requires Structured(st) && GoodInputs(st.levels, level, in0, in1) && OlderClosed(st.levels[level + 1], in1)
    requires e in InputEntries(in0, in1) && Obsolete(st.levels, level, snapshot, e)
    requires d in StoreEntries(st) && d !in InputEntries(in0, in1) && d.key.user == e.key.user
    ensures d.key.sn > e.key.sn
  {
    InputsInVersion(st.levels, level, in0, in1, e);
    if InLevels(st.levels, d) {
      MembersFromVersion(st.levels);
      OutsideInVersionIsNewer(st.levels, level, in0, in1, d, e);
    } else {
      assert e in VersionEntries(st.levels) && (d in Elems(st.mem) || d in Elems(Imm(st)));
    }
  }

  lemma OutsideInVersionIsNewer(levels: seq<Files>, level: nat, in0: Files, in1: Files, d: Entry, e: Entry)
    requires |levels| == NUM_LEVELS && AllValid(levels) && AllCompatible(levels)
    requires GoodInputs(levels, level, in0, in1) && OlderClosed(levels[level + 1], in1)
    requires e in InputEntries(in0, in1) && BaseLevel(levels, level, e.key.user)
    requires InLevels(levels, d) && d !in InputEntries(in0, in1) && d.key.user == e.key.user
    ensures d.key.sn > e.key.sn
  {
    InLevelsMembers(levels, d);
    var m: nat, g :| m < |levels| && g in levels[m] && d in g.entries;
    if g in in0 { MemberHolds(in0, g, d); }
    if g in in1 { MemberHolds(in1, g, d); }
    if m <= level {
      AboveOutputIsNewer(levels, level, in0, in1, m, g, d, e);
    } else if m == level + 1 {
      BesideInputsIsNewer(levels, level, in0, in1, g, d, e);
    } else {
      CoversItsEntries(levels[m], g, d);
      assert false;
    }
  }

  lemma CoversItsEntries(files: Files, g: FileMeta, d: Entry)
    requires g in files && ValidFile(g) && d in g.entries
    ensures SomeOverlap(files, Some(d.key.user), Some(d.key.user))
  {
    EntryInRange(g, d);
    var i :| 0 <= i < |files| && files[i] == g;
    assert Overlaps(files[i], Some(d.key.user), Some(d.key.user));
  }

  lemma InputsInVersion(levels: seq<Files>, level: nat, in0: Files, in1: Files, e: Entry)
    requires |levels| == NUM_LEVELS && GoodInputs(levels, level, in0, in1) && e in InputEntries(in0, in1)
    ensures InLevels(levels, e)
  {
    if InFiles(in0, e) {
      var f := HolderOf(in0, e);
      MemberHolds(levels[level], f, e);
    } else {
      var f := HolderOf(in1, e);
      MemberHolds(levels[level + 1], f, e);
    }
  }

  lemma AboveOutputIsNewer(levels: seq<Files>, level: nat, in0: Files, in1: Files, m: nat, g: FileMeta, d: Entry, e: Entry)
    requires |levels| == NUM_LEVELS && AllCompatible(levels) && GoodInputs(levels, level, in0, in1)
    requires m <= level && g in levels[m] && d in g.entries && (m == level ==> g !in in0)
    requires e in InputEntries(in0, in1) && d.key.user == e.key.user
    ensures d.key.sn > e.key.sn
  {
    if InFiles(in0, e) {
      var f := HolderOf(in0, e);
      assert m < level ==> Compatible(m, g, level, f);
      assert FileNewer(g, f);
    } else {
      var f := HolderOf(in1, e);
      assert Compatible(m, g, level + 1, f);
    }
  }

  lemma BesideInputsIsNewer(levels: seq<Files>, level: nat, in0: Files, in1: Files, g: FileMeta, d: Entry, e: Entry)
    requires |levels| == NUM_LEVELS && AllValid(levels) && GoodInputs(levels, level, in0, in1) && OlderClosed(levels[level + 1], in1)
    requires g in levels[level + 1] && d in g.entries && g !in in1
    requires e in InputEntries(in0, in1) && d.key.user == e.key.user
    ensures d.key.sn > e.key.sn
  {
    if InFiles(in1, e) {
      var f := HolderOf(in1, e);
      assert FileNewer(g, f);
    } else {
      var f := HolderOf(in0, e);
      AsideSharesNoKey(in0, f, g, d, e);
      assert false;
    }
  }

  lemma AsideSharesNoKey(in0: Files, f: FileMeta, g: FileMeta, d: Entry, e: Entry)
    requires f in in0 && (BeforeAll(g, in0) || AfterAll(g, in0)) && ValidFile(f) && ValidFile(g)
    requires d in g.entries && e in f.entries
    ensures d.key.user != e.key.user
  {
    EntryInRange(f, e);
    EntryInRange(g, d);
  }

  lemma CompactInstalls(levels: seq<Files>, level: nat, in0: Files, in1: Files, outs: Files, snapshot: nat, nextFile: nat)
    requires ValidVersion(levels) && OrderedLevels(levels) && NumbersUnique(levels, nextFile)
    requires GoodInputs(levels, level, in0, in1) && MergedInto(levels, level, in0, in1, snapshot, outs, nextFile)
    ensures
      var e := CompactionEdit(level, in0, in1, outs);
      && ValidEdit(e)
      && ValidVersion(Install(levels, e)) && OrderedLevels(Install(levels, e))
      && NumbersUnique(Install(levels, e), nextFile + |outs|)
      && Replaced(levels, level, in0, in1, outs, Install(levels, e))
  {
    CompactionIsFresh(levels, level, in0, in1, outs, nextFile);
    assert MadeOf(outs, in0, in1);
    InstallReplaces(levels, level, in0, in1, outs, nextFile);
    ReplacedNumbers(levels, level, in0, in1, outs, Install(levels, CompactionEdit(level, in0, in1, outs)), nextFile);
  }

  lemma CompactKeepsInv(st: State, st': State, level: nat, in0: Files, in1: Files, outs: Files, snapshot: nat)
    requires Inv(st) && CompactStep(st, st', level, in0, in1, outs, snapshot)
    ensures Inv(st')
  {
    CompactInstalls(st.levels, level, in0, in1, outs, snapshot, st.nextFile);
    CompactedEntries(st, st', level, in0, in1, outs, snapshot);
    CompactKeepsLayers(st, st');
    forall user, s: nat | s >= Horizon(st') ensures Reads(StoreEntries(st'), user, s, LastWrite(st'.history, user, s)) {
      CompactedReads(st, st', level, in0, in1, snapshot, user, s);
    }
  }

  lemma CompactKeepsLayers(st: State, st': State)
    requires Structured(st) && Recorded(st)
    requires st'.mem == st.mem && st'.imm == st.imm && st'.lastSequence == st.lastSequence && st'.snapshots == st.snapshots
    requires st'.history == st.history && VersionEntries(st'.levels) <= VersionEntries(st.levels)
    requires ValidVersion(st'.levels) && OrderedLevels(st'.levels) && NumbersUnique(st'.levels, st'.nextFile)
    ensures Structured(st') && Recorded(st')
  {
  }

  ghost predicate Kept(st: State, level: nat, in0: Files, in1: Files, snapshot: nat, e: Entry)
    requires |st.levels| == NUM_LEVELS
  {
    && e in StoreEntries(st)
    && !(e in InputEntries(in0, in1) && Dropped(st.levels, level, InputEntries(in0, in1), snapshot, e))
  }

  lemma CompactedEntries(st: State, st': State, level: nat, in0: Files, in1: Files, outs: Files, snapshot: nat)
    requires Structured(st) && CompactStep(st, st', level, in0, in1, outs, snapshot)
    requires Replaced(st.levels, level, in0, in1, outs, st'.levels)
    ensures VersionEntries(st'.levels) <= VersionEntries(st.levels)
    ensures forall e :: e in StoreEntries(st') <==> Kept(st, level, in0, in1, snapshot, e)
  {
    hide ValidVersion, NumbersUnique, OlderClosed, Dropped, Replaced, Install, InLevels, ValidFiles, SortedFiles;
    forall e
      ensures InLevels(st'.levels, e) ==> InLevels(st.levels, e)
      ensures e in StoreEntries(st') <==> Kept(st, level, in0, in1, snapshot, e)
    {
      ReplacedEntries(st.levels, level, in0, in1, outs, st'.levels, e);
      if e in InputEntries(in0, in1) {
        InputsInVersion(st.levels, level, in0, in1, e);
        OnlyInVersion(st, e);
      }
    }
  }

  lemma OnlyInVersion(st: State, e: Entry)
    requires LayersOrdered(st) && InLevels(st.levels, e)
    ensures e !in Elems(st.mem) && e !in Elems(Imm(st))
  {
    assert e in VersionEntries(st.levels);
  }

  lemma CompactedReads(st: State, st': State, level: nat, in0: Files, in1: Files, snapshot: nat, user: UserKey, s: nat)
    requires Inv(st) && GoodInputs(st.levels, level, in0, in1) && OlderClosed(st.levels[level + 1], in1)
    requires snapshot <= Horizon(st) <= s && st'.history == st.history
    requires forall e :: e in StoreEntries(st') <==> Kept(st, level, in0, in1, snapshot, e)
    ensures Reads(StoreEntries(st'), user, s, LastWrite(st'.history, user, s))
  {
    var ins := InputEntries(in0, in1);
    UniqueEntries(st);
    forall e | e in ins ensures e in StoreEntries(st) {
      InputsInVersion(st.levels, level, in0, in1, e);
    }
    forall d, e | e in ins && Obsolete(st.levels, level, snapshot, e) && d in StoreEntries(st) && d !in ins && d.key.user == e.key.user
      ensures d.key.sn > e.key.sn
    {
      OutsideIsNewer(st, level, in0, in1, snapshot, d, e);
    }
    DropsAreInvisible(st.levels, level, StoreEntries(st), ins, StoreEntries(st'), snapshot, user, s, LastWrite(st.history, user, s));
  }

  // ----- Snapshots -----

  function TakeSnapshot(st: State): State {
    st.(snapshots := st.snapshots + [st.lastSequence])
  }

  function ReleaseSnapshot(st: State, i: nat): State
    requires i < |st.snapshots|
  {
    st.(snapshots := st.snapshots[..i] + st.snapshots[i + 1..])
  }

  lemma SnapshotsKeepInv(st: State, i: nat)
    requires Inv(st)
    ensures Inv(TakeSnapshot(st))
    ensures i < |st.snapshots| ==> Inv(ReleaseSnapshot(st, i))
  {
    assert StoreEntries(TakeSnapshot(st)) == StoreEntries(st);
    if i < |st.snapshots| {
      assert StoreEntries(ReleaseSnapshot(st, i)) == StoreEntries(st);
    }
  }

  // ----- Runs -----

  datatype Action =
    | Write(batch: seq<Op>)
    | Switch
    | Flush(outLevel: nat, size: nat)
    | Move(level: nat, file: FileMeta)
    | Compact(level: nat, in0: Files, in1: Files, outs: Files, snapshot: nat)
    | Snap
    | Release(index: nat)

  ghost predicate Next(st: State, a: Action, st': State) {
    match a
    case Write(batch) => st.lastSequence + |batch| < MAX_SEQUENCE && st' == WriteBatch(st, batch)
    case Switch => st.imm.None? && st' == SwitchMemtable(st)
    case Flush(level, size) => FlushStep(st, st', level, size)
    case Move(level, f) => MoveStep(st, st', level, f)
    case Compact(level, in0, in1, outs, snapshot) => CompactStep(st, st', level, in0, in1, outs, snapshot)
    case Snap => st' == TakeSnapshot(st)
    case Release(i) => i < |st.snapshots| && st' == ReleaseSnapshot(st, i)
  }

  function Empty(): State {
    State([], None, seq(NUM_LEVELS, _ => []), 0, 2, [], [])
  }

  ghost predicate Run(states: seq<State>, actions: seq<Action>) {
    && |states| == |actions| + 1
    && states[0] == Empty()
    && forall i :: 0 <= i < |actions| ==> Next(states[i], actions[i], states[i + 1])
  }

  lemma EmptyVersion()
    ensures ValidVersion(Empty().levels) && OrderedLevels(Empty().levels) && NumbersUnique(Empty().levels, 2)
    ensures forall e :: !InLevels(Empty().levels, e)
  {
    var levels := Empty().levels;
    assert forall l: nat :: l < NUM_LEVELS ==> levels[l] == [];
    assert OrderedLevels(levels) && AllValid(levels) && AllCompatible(levels);
    VersionFromMembers(levels);
    forall e ensures !InLevels(levels, e) {
      InLevelsMembers(levels, e);
    }
  }

  lemma EmptyInv()
    ensures Inv(Empty())
  {
    EmptyVersion();
    assert forall e :: e in VersionEntries(Empty().levels) ==> InLevels(Empty().levels, e);
    assert forall e :: e !in StoreEntries(Empty());
    forall user, s: nat ensures Reads(StoreEntries(Empty()), user, s, LastWrite([], user, s)) {
    }
  }

  lemma NextKeepsInv(st: State, a: Action, st': State)
    requires Inv(st) && Next(st, a, st')
    ensures Inv(st')
  {
    match a
    case Write(batch) => WriteBatchKeepsInv(st, batch);
    case Switch => SwitchKeepsInv(st);
    case Flush(level, size) => FlushKeepsInv(st, st', level, size);
    case Move(level, f) => MoveKeepsInv(st, st', level, f);
    case Compact(level, in0, in1, outs, snapshot) => CompactKeepsInv(st, st', level, in0, in1, outs, snapshot);
    case Snap => SnapshotsKeepInv(st, 0);
    case Release(i) => SnapshotsKeepInv(st, i);
  }

  lemma {:induction false} RunKeepsInv(states: seq<State>, actions: seq<Action>, i: nat)
    requires Run(states, actions) && i < |states|
    ensures Inv(states[i])
  {
    if i == 0 {
      EmptyInv();
    } else {
      RunKeepsInv(states, actions, i - 1);
      NextKeepsInv(states[i - 1], actions[i - 1], states[i]);
    }
  }

  // ----- What the actions of a run ask for -----

  function Requested(actions: seq<Action>): seq<Op> {
    if actions == [] then []
    else
      var n := |actions| - 1;
      Requested(actions[..n]) + if actions[n].Write? then actions[n].batch else []
  }

  // The snapshots taken and not released, each the number of operations before it.
  function Live(actions: seq<Action>): seq<nat> {
    if actions == [] then []
    else
      var n := |actions| - 1;
      var live := Live(actions[..n]);
      match actions[n]
      case Snap => live + [|Requested(actions[..n])|]
      case Release(k) => if k < |live| then live[..k] + live[k + 1..] else live
      case _ => live
  }

  lemma NextRequested(st: State, a: Action, st': State)
    requires Next(st, a, st')
    ensures st'.history == st.history + if a.Write? then a.batch else []
    ensures st'.lastSequence == st.lastSequence + if a.Write? then |a.batch| else 0
    ensures a.Snap? ==> st'.snapshots == st.snapshots + [st.lastSequence]
    ensures a.Release? ==> a.index < |st.snapshots| && st'.snapshots == st.snapshots[..a.index] + st.snapshots[a.index + 1..]
    ensures !a.Snap? && !a.Release? ==> st'.snapshots == st.snapshots
  {
    if a.Write? {
      WriteBatchHistory(st, a.batch);
    }
    hide Install, GoodInputs, MergedInto, ClearDownTo;
  }

  lemma {:induction false} RunRequested(states: seq<State>, actions: seq<Action>, i: nat)
    requires Run(states, actions) && i < |states|
    ensures states[i].history == Requested(actions[..i]) && states[i].lastSequence == |Requested(actions[..i])|
    ensures states[i].snapshots == Live(actions[..i])
  {
    hide Next;
    if i > 0 {
      RunRequested(states, actions, i - 1);
      NextRequested(states[i - 1], actions[i - 1], states[i]);
      assert actions[..i][..i - 1] == actions[..i - 1];
    }
  }

  // Over every run, after any of its actions, for every key and every live snapshot:
  // the layered lookup answers as the operations asked for until then, up to the
  // snapshot, say.
  lemma RunsReadLastWrites(states: seq<State>, actions: seq<Action>, i: nat, user: UserKey, s: nat)
    requires Run(states, actions) && i < |states|
    requires s == |Requested(actions[..i])| || s in Live(actions[..i])
    ensures Inv(states[i])
    ensures Answers(Requested(actions[..i]), user, s, Meaning(Lookup(states[i], user, s)))
  {
    hide Inv, Lookup, Answers;
    RunKeepsInv(states, actions, i);
    RunRequested(states, actions, i);
    LiveIsPastHorizon(states[i], s);
    GetIsLastWrite(states[i], user, s);
    LastWriteAnswers(Requested(actions[..i]), user, s);
  }

  lemma LiveIsPastHorizon(st: State, s: nat)
    requires Inv(st) && (s == st.lastSequence || s in st.snapshots)
    ensures s >= Horizon(st) && s <= st.lastSequence
  {
    if s in st.snapshots {
      var k :| 0 <= k < |st.snapshots| && st.snapshots[k] == s;
    }
  }

  // Whatever happens between two moments, a snapshot live at both is read alike.
  lemma SnapshotsReadAlike(states: seq<State>, actions: seq<Action>, i: nat, j: nat, user: UserKey, s: nat)
    requires Run(states, actions) && i <= j < |states|
    requires s in Live(actions[..i]) && s in Live(actions[..j])
    ensures Inv(states[i]) && Inv(states[j])
    ensures Meaning(Lookup(states[i], user, s)) == Meaning(Lookup(states[j], user, s))
  {
    hide Inv, Lookup;
    RunKeepsInv(states, actions, i);
    RunKeepsInv(states, actions, j);
    RunRequested(states, actions, i);
    RunRequested(states, actions, j);
    LiveIsPastHorizon(states[i], s);
    LiveIsPastHorizon(states[j], s);
    GetIsLastWrite(states[i], user, s);
    GetIsLastWrite(states[j], user, s);
    RequestedPrefix(actions, i, j);
    var now, later := Requested(actions[..i]), Requested(actions[..j]);
    assert later == now + later[|now|..];
    LastWriteOfPrefix(now, later[|now|..], user, s);
  }

  lemma {:induction false} RequestedPrefix(actions: seq<Action>, i: nat, j: nat)
    requires i <= j <= |actions|
    ensures Requested(actions[..i]) <= Requested(actions[..j])
  {
    if i < j {
      RequestedPrefix(actions, i, j - 1);
      assert actions[..j][..j - 1] == actions[..j - 1];
    }
  }
}
