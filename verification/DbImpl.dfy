// The database object (db_impl.cc). Each method is one critical section, tied to
// the store's state machine; reads are tied to the operations written.
module Database {
  import opened Wrappers
  import opened InternalKeys
  import opened Versions
  import opened Compactions
  import opened CompactionWork
  import opened VersionEdits
  import opened Installs
  import opened Store

  class DBImpl {
    var mem: seq<Entry>
    var imm: Option<seq<Entry>>
    var levels: seq<Files>
    var lastSequence: nat
    var nextFile: nat
    var snapshots: seq<nat>
    // The operations written so far.
    ghost var history: seq<Op>

    ghost function View(): State
      reads this
    {
      State(mem, imm, levels, lastSequence, nextFile, snapshots, history)
    }

    constructor ()
      ensures View() == Empty()
    {
      mem, imm, levels := [], None, seq(NUM_LEVELS, _ => []);
      lastSequence, nextFile, snapshots, history := 0, 2, [], [];
    }

    // Get: what the operations written until the snapshot, or else all, say of the key.
    method Get(user: UserKey, snapshot: Option<nat>) returns (value: Option<Value>)
      requires Inv(View())
      requires snapshot.Some? ==> snapshot.value in snapshots
      ensures |history| == lastSequence
      ensures Answers(history, user, if snapshot.Some? then snapshot.value else |history|, value)
    {
      var s := if snapshot.Some? then snapshot.value else lastSequence;
      LiveIsPastHorizon(View(), s);
      GetIsLastWrite(View(), user, s);
      LastWriteAnswers(history, user, s);
      LookupInOrder(View(), user, s);
      var hit := TableGet(mem, user, s);
      if hit.Some? {
        return Meaning(hit);
      }
      if imm.Some? {
        hit := TableGet(imm.value, user, s);
        if hit.Some? {
          return Meaning(hit);
        }
      }
      hit := Versions.Get(levels, user, s);
      return Meaning(hit);
    }

    // The memtable half of Write: WriteBatchInternal::InsertInto, then SetLastSequence.
    method Write(batch: seq<Op>)
      requires lastSequence + |batch| < MAX_SEQUENCE
      modifies this
      ensures View() == WriteBatch(old(View()), batch)
      ensures history == old(history) + batch && lastSequence == old(lastSequence) + |batch|
    {
      var sequence := lastSequence + 1;
      ghost var start := View();
      ghost var done := start;
      var i := 0;
      while i < |batch|
        invariant i <= |batch| && sequence == start.lastSequence + 1 + i
        invariant done == WriteBatch(start, batch[..i])
        invariant mem == done.mem && history == done.history && done.lastSequence == start.lastSequence + i
        invariant View() == start.(mem := mem, history := history)
      {
        var e := EntryOf(batch[i], sequence);
        mem := AddToTable(mem, e);
        history := history + [batch[i]];
        sequence := sequence + 1;
        assert batch[..i + 1][..i] == batch[..i];
        done := WriteOne(done, batch[i]);
        i := i + 1;
      }
      assert batch[..i] == batch;
      WriteBatchHistory(start, batch);
      lastSequence := lastSequence + |batch|;
    }

    // The switch in MakeRoomForWrite.
    method SwitchMemtable()
      requires imm.None?
      modifies this
      ensures View() == Store.SwitchMemtable(old(View()))
      ensures imm == Some(old(mem)) && mem == [] && levels == old(levels) && history == old(history)
    {
      imm, mem := Some(mem), [];
    }

    // CompactMemTable: write the immutable memtable as a table of the level that
    // PickLevelForMemTableOutput chooses.
    method CompactMemTable(size: nat) returns (level: nat, ghost table: Option<FileMeta>)
      requires Inv(View()) && imm.Some?
      modifies this
      ensures FlushStep(old(View()), View(), level, size)
      ensures Inv(View())
      ensures imm == None && mem == old(mem) && history == old(history) && snapshots == old(snapshots)
      ensures old(imm).value == [] ==> levels == old(levels)
      ensures table.Some? <==> old(imm).value != []
      ensures table.Some? ==> table.value.entries == old(imm).value && table.value.number == old(nextFile)
      ensures table.Some? ==> WithFile(old(levels), table.value, level, levels)
      ensures Readable(old(levels))
      ensures table.Some? ==>
        IsOutputLevel(old(levels), old(imm).value[0].key.user, old(imm).value[|old(imm).value| - 1].key.user, level)
    {
      hide Inv, Save, FreshAdds, Install, WithFile, IsOutputLevel, ClearDownTo, Readable, NumbersUnique;
      ghost var before := View();
      VersionFacts(before);
      level, table := 0, None;
      if imm.value != [] {
        var meta := TableFor(imm.value, nextFile, size);
        level := PickLevelForMemTableOutput(levels, meta.smallest.user, meta.largest.user);
        OutputLevelIsClear(levels, meta, level);
        FlushIsFresh(levels, meta, level, nextFile);
        levels := LogAndApply(levels, FlushEdit(meta, level));
        table := Some(meta);
      }
      nextFile := nextFile + 1;
      imm := None;
      Flushed(before, View(), level, size);
    }

    // BackgroundCompaction on picked inputs. Above level 0 nothing in the picking
    // keeps versions of one key together, so closure is asked of the caller.
    method BackgroundCompaction(c: Compaction, manual: bool, tableSize: (seq<Entry>, bool) -> nat, maxOutputFileSize: nat)
      returns (ghost action: Action, ghost outs: Files)
      requires Inv(View())
      requires c.Picked() && c.AtStart() && c.inputVersion == levels
      requires OlderClosed(levels[c.level], c.inputs0) && OlderClosed(levels[c.level + 1], c.inputs1)
      modifies this, c`grandparentIndex, c`seenKey, c`overlappedBytes, c.levelPtrs
      ensures Next(old(View()), action, View())
      ensures Inv(View())
      // The inputs are gone, the outputs are in the next level, and nothing else has changed.
      ensures |levels| == |old(levels)| == NUM_LEVELS
      ensures forall l: nat, f :: l < NUM_LEVELS ==>
        (f in levels[l] <==>
          (f in old(levels)[l] && !(l == c.level && f in c.inputs0) && !(l == c.level + 1 && f in c.inputs1))
          || (l == c.level + 1 && f in outs))
      ensures mem == old(mem) && imm == old(imm) && history == old(history) && snapshots == old(snapshots)
      // A lone file with little below it moves as it is.
      ensures action.Move? <==>
        !manual && |c.inputs0| == 1 && |c.inputs1| == 0 && TotalFileSize(c.grandparents) <= MAX_GRAND_PARENT_OVERLAP_BYTES
      ensures action.Move? ==> outs == c.inputs0
      // Otherwise the outputs have what the merge keeps.
      ensures !action.Move? ==> ValidFiles(outs) && SortedFiles(outs) && NumberedFrom(outs, old(nextFile))
      ensures !action.Move? ==> forall e :: InFiles(outs, e) <==>
        e in InputEntries(c.inputs0, c.inputs1) && !Dropped(old(levels), c.level, InputEntries(c.inputs0, c.inputs1), Horizon(old(View())), e)
      ensures !action.Move? ==> Lean(old(levels), c.level, outs, Horizon(old(View())))
    {
      hide Inv, TakesOverlaps, OlderClosed, MergedInto, Install, ValidFiles, Dropped, Lean;
      if !manual && |c.inputs0| == 1 && |c.inputs1| == 0 && TotalFileSize(c.grandparents) <= MAX_GRAND_PARENT_OVERLAP_BYTES {
        assert c.inputs0 == [c.inputs0[0]] && c.inputs1 == [];
        outs := [c.inputs0[0]];
        MoveFile(c.level, c.inputs0[0]);
        action := Move(c.level, c.inputs0[0]);
      } else {
        ghost var before := View();
        action, outs := CompactInputs(c, tableSize, maxOutputFileSize);
        WhatIsKept(before.levels, c.level, c.inputs0, c.inputs1, Horizon(before), outs, before.nextFile);
      }
    }

    method MoveFile(level: nat, f: FileMeta)
      requires Inv(View()) && GoodInputs(levels, level, [f], [])
      modifies this
      ensures MoveStep(old(View()), View(), level, f)
      ensures Inv(View())
      ensures Replaced(old(levels), level, [f], [], [f], levels)
    {
      hide Faithful, LayersOrdered, LevelNewer, ValidFiles, SortedFiles, OlderClosed, Install;
      ghost var before := View();
      assert f in [f];
      MoveIsFresh(levels, level, f, nextFile);
      levels := LogAndApply(levels, CompactionEdit(level, [f], [], [f]));
      MoveKeepsInv(before, View(), level, f);
      MoveInstalls(before.levels, level, f, nextFile);
    }

    method CompactInputs(c: Compaction, tableSize: (seq<Entry>, bool) -> nat, maxOutputFileSize: nat)
      returns (ghost action: Action, ghost outs: Files)
      requires Inv(View())
      requires c.Picked() && c.AtStart() && c.inputVersion == levels
      requires GoodInputs(levels, c.level, c.inputs0, c.inputs1) && OlderClosed(levels[c.level + 1], c.inputs1)
      modifies this, c`grandparentIndex, c`seenKey, c`overlappedBytes, c.levelPtrs
      ensures action.Compact? && Next(old(View()), action, View())
      ensures Inv(View())
      ensures Replaced(old(levels), c.level, c.inputs0, c.inputs1, outs, levels)
      ensures |old(levels)| == NUM_LEVELS
      ensures MergedInto(old(levels), c.level, c.inputs0, c.inputs1, Horizon(old(View())), outs, old(nextFile))
      ensures mem == old(mem) && imm == old(imm) && history == old(history) && snapshots == old(snapshots)
    {
      hide Inv, GoodInputs, OlderClosed, MergedInto, Replaced;
      ghost var before := View();
      var level, in0, in1 := c.level, c.inputs0, c.inputs1;
      var smallestSnapshot := if snapshots == [] then lastSequence else snapshots[0];
      var files, next := MergeInputs(before, c, smallestSnapshot, nextFile, tableSize, maxOutputFileSize);
      assert View() == before;
      InstallCompactionResults(level, in0, in1, files, next, smallestSnapshot);
      action, outs := Compact(level, in0, in1, files, smallestSnapshot), files;
    }

    method InstallCompactionResults(level: nat, in0: Files, in1: Files, outs: Files, next: nat, ghost snapshot: nat)
      requires Inv(View())
      requires GoodInputs(levels, level, in0, in1) && OlderClosed(levels[level + 1], in1)
      requires snapshot <= Horizon(View()) && MergedInto(levels, level, in0, in1, snapshot, outs, nextFile)
      requires next == nextFile + |outs|
      modifies this
      ensures CompactStep(old(View()), View(), level, in0, in1, outs, snapshot)
      ensures Inv(View())
      ensures Replaced(old(levels), level, in0, in1, outs, levels)
    {
      hide Faithful, LayersOrdered, LevelNewer, ValidFiles, SortedFiles, OlderClosed, Dropped, Install;
      ghost var before := View();
      CompactionIsFresh(levels, level, in0, in1, outs, nextFile);
      levels := LogAndApply(levels, CompactionEdit(level, in0, in1, outs));
      nextFile := next;
      CompactKeepsInv(before, View(), level, in0, in1, outs, snapshot);
      CompactInstalls(before.levels, level, in0, in1, outs, snapshot, before.nextFile);
    }

    method GetSnapshot() returns (s: nat)
      modifies this
      ensures s == lastSequence && View() == TakeSnapshot(old(View()))
      ensures snapshots == old(snapshots) + [s] && history == old(history)
    {
      s := lastSequence;
      snapshots := snapshots + [s];
    }

    method ReleaseSnapshot(i: nat)
      requires i < |snapshots|
      modifies this
      ensures View() == Store.ReleaseSnapshot(old(View()), i)
      ensures snapshots == old(snapshots)[..i] + old(snapshots)[i + 1..] && history == old(history)
    {
      snapshots := snapshots[..i] + snapshots[i + 1..];
    }
  }

  lemma WhatIsKept(levels: seq<Files>, level: nat, in0: Files, in1: Files, snapshot: nat, outs: Files, nextFile: nat)
    requires |levels| == NUM_LEVELS && MergedInto(levels, level, in0, in1, snapshot, outs, nextFile)
    ensures ValidFiles(outs) && SortedFiles(outs) && NumberedFrom(outs, nextFile)
    ensures forall e :: InFiles(outs, e) <==>
      e in InputEntries(in0, in1) && !Dropped(levels, level, InputEntries(in0, in1), snapshot, e)
    ensures Lean(levels, level, outs, snapshot)
  {
    hide SomeOverlap;
    var ins := InputEntries(in0, in1);
    forall d, e | InFiles(outs, d) && InFiles(outs, e) && d.key.user == e.key.user && e.key.sn < d.key.sn ensures d.key.sn > snapshot {
      assert d in ins && !Shadowed(ins, snapshot, e);
    }
  }

  lemma VersionFacts(st: State)
    requires Inv(st)
    ensures Readable(st.levels) && |st.levels| == NUM_LEVELS && OrderedLevels(st.levels) && NumbersUnique(st.levels, st.nextFile)
  {
  }

  lemma OutputLevelIsClear(levels: seq<Files>, f: FileMeta, level: nat)
    requires Readable(levels) && IsOutputLevel(levels, f.smallest.user, f.largest.user, level)
    ensures |levels| == NUM_LEVELS && level < NUM_LEVELS && ClearDownTo(levels, level, f)
  {
  }

  lemma Flushed(st: State, st': State, level: nat, size: nat)
    requires Inv(st) && FlushStep(st, st', level, size)
    ensures Inv(st')
    ensures st.imm.value != [] ==> WithFile(st.levels, TableFor(st.imm.value, st.nextFile, size), level, st'.levels)
  {
    FlushKeepsInv(st, st', level, size);
    FlushAddsTable(st, st', level, size);
  }

  lemma FlushAddsTable(st: State, st': State, level: nat, size: nat)
    requires Inv(st) && FlushStep(st, st', level, size)
    ensures |st.levels| == |st'.levels| == NUM_LEVELS
    ensures st.imm.value == [] ==> st'.levels == st.levels
    ensures st.imm.value != [] ==> WithFile(st.levels, TableFor(st.imm.value, st.nextFile, size), level, st'.levels)
  {
    if st.imm.value != [] {
      var f := TableFor(st.imm.value, st.nextFile, size);
      FlushIsFresh(st.levels, f, level, st.nextFile);
      InstallEdits(st.levels, FlushEdit(f, level));
      FlushMembers(st.levels, f, level, Install(st.levels, FlushEdit(f, level)));
    }
  }

  // The part of a compaction that runs with the lock released.
  method MergeInputs(ghost st: State, c: Compaction, snapshot: nat, nextFile: nat,
                     tableSize: (seq<Entry>, bool) -> nat, maxOutputFileSize: nat)
    returns (outs: Files, next: nat)
    requires Inv(st) && snapshot <= Horizon(st) && nextFile == st.nextFile
    requires c.Picked() && c.AtStart() && c.inputVersion == st.levels
    requires GoodInputs(st.levels, c.level, c.inputs0, c.inputs1)
    modifies c`grandparentIndex, c`seenKey, c`overlappedBytes, c.levelPtrs
    ensures MergedInto(st.levels, c.level, c.inputs0, c.inputs1, snapshot, outs, nextFile)
    ensures next == nextFile + |outs|
  {
    HorizonBounded(st);
    InputsAreUnique(st, c.level, c.inputs0, c.inputs1);
    ghost var merged;
    outs, next, merged := DoCompactionWork(c, snapshot, nextFile, tableSize, maxOutputFileSize);
  }

  lemma LookupInOrder(st: State, user: UserKey, s: nat)
    requires Sorted(st.mem) && Sorted(Imm(st)) && Readable(st.levels)
    ensures Lookup(st, user, s) ==
      if TableGet(st.mem, user, s).Some? then TableGet(st.mem, user, s)
      else if TableGet(Imm(st), user, s).Some? then TableGet(Imm(st), user, s)
      else Walk(st.levels, user, s)
    ensures st.imm.None? ==> TableGet(Imm(st), user, s).None?
  {
    FirstOfThree(TableGet(st.mem, user, s), TableGet(Imm(st), user, s), Walk(st.levels, user, s));
  }

  lemma FirstOfThree(x: Option<Entry>, y: Option<Entry>, z: Option<Entry>)
    ensures FirstSome([x, y, z]) == if x.Some? then x else if y.Some? then y else z
  {
    assert [x, y, z][1..] == [y, z] && [y, z][1..] == [z] && [z][1..] == [];
    assert FirstSome([z]) == z;
    assert FirstSome([y, z]) == if y.Some? then y else z;
  }

  lemma HorizonBounded(st: State)
    requires Inv(st)
    ensures Horizon(st) < MAX_SEQUENCE
  {
  }

  lemma InputsAreUnique(st: State, level: nat, in0: Files, in1: Files)
    requires Inv(st) && GoodInputs(st.levels, level, in0, in1)
    ensures Unique(InputEntries(in0, in1)) && ValidVersion(st.levels)
  {
    UniqueEntries(st);
    forall e | e in InputEntries(in0, in1) ensures e in StoreEntries(st) {
      InputsInVersion(st.levels, level, in0, in1, e);
    }
  }
}
