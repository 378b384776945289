// The manifest: the edits a run of the store writes, and the version replaying them
// gives back (VersionSet::LogAndApply and Recover, leveldb/db/version_set.cc).
module Manifests {
  import opened Wrappers
  import opened InternalKeys
  import opened Versions
  import opened Compactions
  import opened VersionEdits
  import opened Replays
  import opened Installs
  import opened Store

  // The edit an action logs; None for actions that log none. Flushing an empty memtable
  // logs an edit that names no file.
  function EditOf(st: State, a: Action): Option<VersionEdit> {
    match a
    case Flush(level, size) =>
      if Imm(st) == [] then Some(VersionEdit({}, [])) else Some(FlushEdit(TableFor(Imm(st), st.nextFile, size), level))
    case Move(level, f) => Some(CompactionEdit(level, [f], [], [f]))
    case Compact(level, in0, in1, outs, _) => Some(CompactionEdit(level, in0, in1, outs))
    case _ => None
  }

  // The manifest after the first n actions.
  function EditsOf(states: seq<State>, actions: seq<Action>, n: nat): seq<VersionEdit>
    requires n <= |actions| < |states|
  {
    if n == 0 then [] else EditsOf(states, actions, n - 1) + Listed(EditOf(states[n - 1], actions[n - 1]))
  }

  function Listed(e: Option<VersionEdit>): seq<VersionEdit> {
    match e case None => [] case Some(edit) => [edit]
  }

  // A number that was ever added at a level is below the counter, and the file that has
  // it now is at that level or a deeper one.
  ghost predicate NumbersSink(added: BuilderState, levels: seq<Files>, nextFile: nat) {
    && |levels| == NUM_LEVELS
    && (forall l, f :: 0 <= l < NUM_LEVELS && f in added[l].addedFiles ==> f.number < nextFile)
    && (forall l, m, f, g :: 0 <= m < l < NUM_LEVELS && f in added[l].addedFiles && g in levels[m] ==> f.number != g.number)
  }

  // Adding a number at a level: it was never added there or deeper, and a file that has
  // it higher up is deleted by the same edit.
  ghost predicate SinksAt(added: BuilderState, levels: seq<Files>, deleted: set<(nat, nat)>, level: nat, number: nat, nextFile: nat)
    requires |levels| == NUM_LEVELS && level < NUM_LEVELS
  {
    && number < nextFile
    && (forall l, f :: level <= l < NUM_LEVELS && f in added[l].addedFiles ==> f.number != number)
    && (forall m, g :: 0 <= m < level && g in levels[m] && g.number == number ==> (m, number) in deleted)
  }

  ghost predicate Sinks(added: BuilderState, levels: seq<Files>, e: VersionEdit, nextFile: nat)
    requires |levels| == NUM_LEVELS && ValidEdit(e)
  {
    FreshAdds(levels, e) && forall i :: 0 <= i < |e.added| ==> SinksAt(added, levels, e.deleted, e.added[i].0, e.added[i].1.number, nextFile)
  }

  lemma EditSinks(added: BuilderState, levels: seq<Files>, e: VersionEdit, nextFile: nat, nextFile': nat)
    requires OrderedLevels(levels) && ValidEdit(e) && nextFile <= nextFile'
    requires NumbersSink(added, levels, nextFile) && Sinks(added, levels, e, nextFile')
    ensures AddsFresh(NoFiles(), added, e)
    ensures NumbersSink(Applied(added, e), Install(levels, e), nextFile')
  {
    hide Install, Applied, Ordered, NumbersSink;
    SinksIsFresh(added, levels, e, nextFile');
    InstallEdits(levels, e);
    forall l | 0 <= l < NUM_LEVELS
      ensures forall f :: f in Applied(added, e)[l].addedFiles <==> f in added[l].addedFiles || AddsFile(e.added, l, f)
    {
      ApplyContents(added, e, l);
    }
    StillSinks(added, levels, e, nextFile, nextFile', Applied(added, e), Install(levels, e));
  }

  lemma SinksIsFresh(added: BuilderState, levels: seq<Files>, e: VersionEdit, nextFile: nat)
    requires |levels| == NUM_LEVELS && ValidEdit(e) && Sinks(added, levels, e, nextFile)
    ensures AddsFresh(NoFiles(), added, e) && FreshAdds(levels, e)
  {
    forall i | 0 <= i < |e.added|
      ensures !HasNumber(NoFiles()[e.added[i].0], e.added[i].1.number) && !HasNumber(added[e.added[i].0].addedFiles, e.added[i].1.number)
    {
      assert SinksAt(added, levels, e.deleted, e.added[i].0, e.added[i].1.number, nextFile);
    }
  }

  lemma StillSinks(added: BuilderState, levels: seq<Files>, e: VersionEdit, nextFile: nat, nextFile': nat,
                   added': BuilderState, levels': seq<Files>)
    requires |levels| == NUM_LEVELS && ValidEdit(e) && nextFile <= nextFile' && |levels'| == NUM_LEVELS
    requires NumbersSink(added, levels, nextFile) && Sinks(added, levels, e, nextFile') && EditedTo(levels, e, levels')
    requires forall l :: 0 <= l < NUM_LEVELS ==>
      forall f :: f in added'[l].addedFiles <==> f in added[l].addedFiles || AddsFile(e.added, l, f)
    ensures NumbersSink(added', levels', nextFile')
  {
    hide OrderedLevels, FreshAdds;
    forall l, f | 0 <= l < NUM_LEVELS && f in added'[l].addedFiles ensures f.number < nextFile' {
      if AddsFile(e.added, l, f) {
        var i :| 0 <= i < |e.added| && e.added[i] == (l, f);
        assert SinksAt(added, levels, e.deleted, e.added[i].0, e.added[i].1.number, nextFile');
      }
    }
    forall l: int, m: int, f: FileMeta, g: FileMeta | 0 <= m < l < NUM_LEVELS && f in added'[l].addedFiles && g in levels'[m]
      ensures f.number != g.number
    {
      PairSinks(added, levels, e, nextFile, nextFile', l, m, f, g);
    }
  }

  lemma PairSinks(added: BuilderState, levels: seq<Files>, e: VersionEdit, nextFile: nat, nextFile': nat,
                  l: nat, m: nat, f: FileMeta, g: FileMeta)
    requires |levels| == NUM_LEVELS && ValidEdit(e) && NumbersSink(added, levels, nextFile) && Sinks(added, levels, e, nextFile')
    requires m < l < NUM_LEVELS && (f in added[l].addedFiles || AddsFile(e.added, l, f))
    requires (g in levels[m] && (m, g.number) !in e.deleted) || AddsFile(e.added, m, g)
    ensures f.number != g.number
  {
    hide FreshAdds, SinksAt;
    if AddsFile(e.added, l, f) {
      var i :| 0 <= i < |e.added| && e.added[i] == (l, f);
      if AddsFile(e.added, m, g) {
        var j :| 0 <= j < |e.added| && e.added[j] == (m, g);
        AddedApart(levels, e, i, j);
      } else {
        AddedNotAbove(added, levels, e.deleted, l, f.number, nextFile', m, g);
      }
    } else if AddsFile(e.added, m, g) {
      var j :| 0 <= j < |e.added| && e.added[j] == (m, g);
      AddedNotBelow(added, levels, e.deleted, m, g.number, nextFile', l, f);
    }
  }

  lemma AddedApart(levels: seq<Files>, e: VersionEdit, i: nat, j: nat)
    requires |levels| == NUM_LEVELS && ValidEdit(e) && FreshAdds(levels, e) && i < |e.added| && j < |e.added|
    ensures e.added[i].1.number == e.added[j].1.number ==> i == j
  {
  }

  lemma AddedNotAbove(added: BuilderState, levels: seq<Files>, deleted: set<(nat, nat)>, level: nat, number: nat, nextFile: nat, m: nat, g: FileMeta)
    requires |levels| == NUM_LEVELS && m < level < NUM_LEVELS && SinksAt(added, levels, deleted, level, number, nextFile)
    requires g in levels[m] && (m, g.number) !in deleted
    ensures g.number != number
  {
  }

  lemma AddedNotBelow(added: BuilderState, levels: seq<Files>, deleted: set<(nat, nat)>, level: nat, number: nat, nextFile: nat, l: nat, f: FileMeta)
    requires |levels| == NUM_LEVELS && level < l < NUM_LEVELS && SinksAt(added, levels, deleted, level, number, nextFile)
    requires f in added[l].addedFiles
    ensures f.number != number
  {
  }

  // ----- The edits of a run -----

  lemma NewNumberSinks(added: BuilderState, levels: seq<Files>, deleted: set<(nat, nat)>, level: nat, number: nat, nextFile: nat, nextFile': nat)
    requires NumbersSink(added, levels, nextFile) && NumbersUnique(levels, nextFile) && level < NUM_LEVELS && nextFile <= number < nextFile'
    ensures SinksAt(added, levels, deleted, level, number, nextFile')
  {
  }

  lemma FlushSinks(added: BuilderState, levels: seq<Files>, f: FileMeta, level: nat, nextFile: nat)
    requires NumbersSink(added, levels, nextFile) && NumbersUnique(levels, nextFile) && level < NUM_LEVELS && f.number == nextFile
    ensures ValidEdit(FlushEdit(f, level)) && Sinks(added, levels, FlushEdit(f, level), nextFile + 1)
  {
    FlushIsFresh(levels, f, level, nextFile);
    NewNumberSinks(added, levels, {}, level, nextFile, nextFile, nextFile + 1);
    hide FreshAdds, NumbersUnique, NumbersSink, SinksAt;
  }

  lemma MoveSinks(added: BuilderState, levels: seq<Files>, level: nat, f: FileMeta, nextFile: nat)
    requires NumbersSink(added, levels, nextFile) && NumbersUnique(levels, nextFile) && level + 1 < NUM_LEVELS && f in levels[level]
    ensures ValidEdit(CompactionEdit(level, [f], [], [f])) && Sinks(added, levels, CompactionEdit(level, [f], [], [f]), nextFile)
  {
    MoveIsFresh(levels, level, f, nextFile);
    var e := CompactionEdit(level, [f], [], [f]);
    assert f in [f];
    assert (level, f.number) in e.deleted;
    MovedNumberSinks(added, levels, e.deleted, level, f, nextFile);
    hide FreshAdds, NumbersUnique, NumbersSink, SinksAt;
  }

  lemma MovedNumberSinks(added: BuilderState, levels: seq<Files>, deleted: set<(nat, nat)>, level: nat, f: FileMeta, nextFile: nat)
    requires NumbersSink(added, levels, nextFile) && NumbersUnique(levels, nextFile) && level + 1 < NUM_LEVELS && f in levels[level]
    requires (level, f.number) in deleted
    ensures SinksAt(added, levels, deleted, level + 1, f.number, nextFile)
  {
  }

  lemma CompactionSinks(added: BuilderState, levels: seq<Files>, level: nat, in0: Files, in1: Files, outs: Files, nextFile: nat)
    requires NumbersSink(added, levels, nextFile) && NumbersUnique(levels, nextFile) && level + 1 < NUM_LEVELS
    requires NumberedFrom(outs, nextFile)
    requires (forall f :: f in in0 ==> f in levels[level]) && (forall f :: f in in1 ==> f in levels[level + 1])
    ensures var e := CompactionEdit(level, in0, in1, outs); ValidEdit(e) && Sinks(added, levels, e, nextFile + |outs|)
  {
    CompactionIsFresh(levels, level, in0, in1, outs, nextFile);
    hide FreshAdds, NumbersUnique, NumbersSink, SinksAt;
    var e := CompactionEdit(level, in0, in1, outs);
    forall i | 0 <= i < |e.added| ensures SinksAt(added, levels, e.deleted, e.added[i].0, e.added[i].1.number, nextFile + |outs|) {
      NewNumberSinks(added, levels, e.deleted, level + 1, outs[i].number, nextFile, nextFile + |outs|);
    }
  }

  lemma NothingSinks(added: BuilderState, levels: seq<Files>, nextFile: nat)
    requires NumbersSink(added, levels, nextFile)
    ensures ValidEdit(VersionEdit({}, [])) && Sinks(added, levels, VersionEdit({}, []), nextFile + 1)
  {
  }

  // What holds of the manifest and the state it describes.
  ghost predicate Described(edits: seq<VersionEdit>, st: State) {
    && ValidEdits(edits) && AddsOnce(NoFiles(), edits)
    && InstallAll(NoFiles(), edits) == st.levels
    && NumbersSink(Replay(edits), st.levels, st.nextFile)
  }

  lemma OneMoreEdit(edits: seq<VersionEdit>, st: State, e: VersionEdit, st': State)
    requires Described(edits, st) && OrderedLevels(st.levels) && ValidEdit(e) && st.nextFile <= st'.nextFile
    requires Sinks(Replay(edits), st.levels, e, st'.nextFile) && st'.levels == Install(st.levels, e)
    ensures Described(edits + [e], st')
  {
    hide Sinks, NumbersSink, Install, Applied, NoFiles;
    EditSinks(Replay(edits), st.levels, e, st.nextFile, st'.nextFile);
    assert (edits + [e])[..|edits|] == edits;
  }

  // Flushing nothing installs the version it found.
  lemma NothingInstalls(levels: seq<Files>)
    requires |levels| == NUM_LEVELS
    ensures Install(levels, VersionEdit({}, [])) == levels
  {
    var s := Applied(Fresh(), VersionEdit({}, []));
    assert s == DeleteFiles(Fresh(), {});
    forall l | 0 <= l < NUM_LEVELS ensures SaveLevel(levels[l], s[l]) == levels[l] {
      DeletedAtNone(l);
      assert s[l] == LevelState({}, []);
      UndeletedNothing(levels[l]);
    }
  }

  lemma ActionDescribed(edits: seq<VersionEdit>, st: State, a: Action, st': State)
    requires Described(edits, st) && Inv(st) && Next(st, a, st')
    ensures Described(edits + Listed(EditOf(st, a)), st')
  {
    hide Described, Faithful, Recorded, Install, Sinks;
    match a
    case Flush(level, size) => FlushDescribed(edits, st, level, size, st');
    case Move(level, f) => MoveDescribed(edits, st, level, f, st');
    case Compact(level, in0, in1, outs, snapshot) => CompactDescribed(edits, st, level, in0, in1, outs, snapshot, st');
    case Write(batch) => WriteLeavesFiles(st, batch); SameFiles(edits, st, st');
    case Switch => SameFiles(edits, st, st');
    case Snap => SameFiles(edits, st, st');
    case Release(i) => SameFiles(edits, st, st');
  }

  lemma {:induction false} WriteLeavesFiles(st: State, batch: seq<Op>)
    ensures WriteBatch(st, batch).levels == st.levels && WriteBatch(st, batch).nextFile == st.nextFile
  {
    if batch != [] {
      WriteLeavesFiles(st, batch[..|batch| - 1]);
    }
  }

  lemma MoveDescribed(edits: seq<VersionEdit>, st: State, level: nat, f: FileMeta, st': State)
    requires Described(edits, st) && Structured(st) && MoveStep(st, st', level, f)
    ensures Described(edits + [CompactionEdit(level, [f], [], [f])], st')
  {
    hide Described, Install, Sinks, NumbersSink, CompactionEdit, OlderClosed, TakesOverlaps, ValidVersion, NumbersUnique, LayersOrdered;
    AddedSoFar(edits, st);
    assert f in [f];
    MoveSinks(Replay(edits), st.levels, level, f, st.nextFile);
    OneMoreEdit(edits, st, CompactionEdit(level, [f], [], [f]), st');
  }

  lemma CompactDescribed(edits: seq<VersionEdit>, st: State, level: nat, in0: Files, in1: Files, outs: Files, snapshot: nat, st': State)
    requires Described(edits, st) && Structured(st) && CompactStep(st, st', level, in0, in1, outs, snapshot)
    ensures Described(edits + [CompactionEdit(level, in0, in1, outs)], st')
  {
    hide Described, Install, Sinks, NumbersSink, CompactionEdit, OlderClosed, ValidVersion, NumbersUnique, LayersOrdered, NumberedFrom, ValidFiles, SortedFiles, Dropped;
    AddedSoFar(edits, st);
    CompactionSinks(Replay(edits), st.levels, level, in0, in1, outs, st.nextFile);
    OneMoreEdit(edits, st, CompactionEdit(level, in0, in1, outs), st');
  }

  lemma AddedSoFar(edits: seq<VersionEdit>, st: State)
    requires Described(edits, st)
    ensures ValidEdits(edits) && NumbersSink(Replay(edits), st.levels, st.nextFile)
  {
  }

  lemma SameFiles(edits: seq<VersionEdit>, st: State, st': State)
    requires Described(edits, st) && st'.levels == st.levels && st'.nextFile == st.nextFile
    ensures Described(edits + [], st')
  {
    assert edits + [] == edits;
  }

  lemma FlushDescribed(edits: seq<VersionEdit>, st: State, level: nat, size: nat, st': State)
    requires Described(edits, st) && Structured(st) && FlushStep(st, st', level, size)
    ensures Described(edits + Listed(EditOf(st, Flush(level, size))), st')
  {
    hide Described, Install, Sinks;
    AddedSoFar(edits, st);
    if Imm(st) == [] {
      NothingSinks(Replay(edits), st.levels, st.nextFile);
      NothingInstalls(st.levels);
      OneMoreEdit(edits, st, VersionEdit({}, []), st');
    } else {
      var f := TableFor(Imm(st), st.nextFile, size);
      FlushSinks(Replay(edits), st.levels, f, level, st.nextFile);
      OneMoreEdit(edits, st, FlushEdit(f, level), st');
    }
  }

  // Over every run, at every state, no (level, number) has been logged twice, and
  // installing the logged edits one by one from nothing gives the current version.
  lemma {:induction false} RunsAddOnce(states: seq<State>, actions: seq<Action>, n: nat)
    requires Run(states, actions) && n <= |actions|
    ensures Described(EditsOf(states, actions, n), states[n])
  {
    hide Described, Inv, Next;
    if n == 0 {
      EmptyDescribed();
    } else {
      RunsAddOnce(states, actions, n - 1);
      RunKeepsInv(states, actions, n - 1);
      ActionDescribed(EditsOf(states, actions, n - 1), states[n - 1], actions[n - 1], states[n]);
    }
  }

  lemma EmptyDescribed()
    ensures Described([], Empty())
  {
    assert NoFiles() == Empty().levels;
  }

  // So the batched replay of the manifest of any run gives the version of its last state:
  // the input on which batched and one-by-one replay differ is never logged.
  lemma ManifestRebuilds(states: seq<State>, actions: seq<Action>, n: nat)
    requires Run(states, actions) && n <= |actions|
    ensures var edits := EditsOf(states, actions, n);
      ValidEdits(edits) && Save(NoFiles(), Replay(edits)) == states[n].levels
  {
    RunsAddOnce(states, actions, n);
    BatchedReplay(NoFiles(), EditsOf(states, actions, n));
  }

  // ----- A manifest that starts with a snapshot -----

  // The files of the first n levels, each with its level.
  function FilesUpTo(levels: seq<Files>, n: nat): seq<(nat, FileMeta)>
    requires n <= |levels|
  {
    if n == 0 then [] else FilesUpTo(levels, n - 1) + OnLevel(levels[n - 1], n - 1)
  }

  function OnLevel(files: Files, l: nat): (r: seq<(nat, FileMeta)>)
    ensures |r| == |files|
  {
    seq(|files|, i requires 0 <= i < |files| => (l, files[i]))
  }

  // WriteSnapshot, but for the compaction pointers: every file of the version.
  function SnapshotEdit(levels: seq<Files>): VersionEdit
    requires |levels| == NUM_LEVELS
  {
    VersionEdit({}, FilesUpTo(levels, NUM_LEVELS))
  }

  // The edits of a manifest that was opened after s actions, after n of them.
  function EditsSince(states: seq<State>, actions: seq<Action>, s: nat, n: nat): seq<VersionEdit>
    requires s <= n <= |actions| < |states| && |states[s].levels| == NUM_LEVELS
  {
    if n == s then [SnapshotEdit(states[s].levels)]
    else EditsSince(states, actions, s, n - 1) + Listed(EditOf(states[n - 1], actions[n - 1]))
  }

  lemma {:induction false} FilesListed(levels: seq<Files>, n: nat, l: nat, f: FileMeta)
    requires n <= |levels|
    ensures AddsFile(FilesUpTo(levels, n), l, f) <==> l < n && f in levels[l]
  {
    if n > 0 {
      FilesListed(levels, n - 1, l, f);
      var before, last := FilesUpTo(levels, n - 1), OnLevel(levels[n - 1], n - 1);
      if AddsFile(before + last, l, f) && !AddsFile(before, l, f) {
        var i :| 0 <= i < |before + last| && (before + last)[i] == (l, f);
        assert forall k :: 0 <= k < |before| ==> before[k] != (l, f);
        assert last[i - |before|] == (l, f);
      }
      if AddsFile(before, l, f) {
        var i :| 0 <= i < |before| && before[i] == (l, f);
        assert (before + last)[i] == (l, f);
      }
      if l == n - 1 && f in levels[l] {
        var i :| 0 <= i < |levels[l]| && levels[l][i] == f;
        assert (before + last)[|before| + i] == (l, f);
      }
    }
  }

  ghost predicate AllListed(r: seq<(nat, FileMeta)>, levels: seq<Files>, n: nat)
    requires n <= |levels|
  {
    forall i :: 0 <= i < |r| ==> r[i].0 < n && r[i].1 in levels[r[i].0]
  }

  ghost predicate NumberedOnce(r: seq<(nat, FileMeta)>) {
    forall i, j :: 0 <= i < j < |r| ==> r[i].1.number != r[j].1.number
  }

  lemma {:induction false} ListedLevels(levels: seq<Files>, n: nat)
    requires n <= |levels|
    ensures AllListed(FilesUpTo(levels, n), levels, n)
  {
    var r := FilesUpTo(levels, n);
    forall i | 0 <= i < |r| ensures r[i].0 < n && r[i].1 in levels[r[i].0] {
      assert r[i] == (r[i].0, r[i].1);
      FilesListed(levels, n, r[i].0, r[i].1);
      assert AddsFile(r, r[i].0, r[i].1);
    }
  }

  // No file is listed twice.
  lemma {:induction false} ListedOnce(levels: seq<Files>, nextFile: nat, n: nat)
    requires n <= |levels| && NumbersUnique(levels, nextFile) && forall l :: 0 <= l < |levels| ==> Ordered(levels[l])
    ensures NumberedOnce(FilesUpTo(levels, n))
  {
    hide NumbersUnique, Ordered, NumberedOnce, AllListed;
    if n == 0 {
      NothingNumbered();
    } else {
      ListedOnce(levels, nextFile, n - 1);
      ListedLevels(levels, n - 1);
      NextLevelOnce(FilesUpTo(levels, n - 1), levels, nextFile, n - 1);
    }
  }

  lemma NothingNumbered()
    ensures NumberedOnce([])
  {
  }

  lemma NextLevelOnce(before: seq<(nat, FileMeta)>, levels: seq<Files>, nextFile: nat, l: nat)
    requires l < |levels| && NumbersUnique(levels, nextFile) && Ordered(levels[l]) && AllListed(before, levels, l) && NumberedOnce(before)
    ensures NumberedOnce(before + OnLevel(levels[l], l))
  {
    hide NumbersUnique, Ordered;
    var last := OnLevel(levels[l], l);
    var r := before + last;
    forall i, j | 0 <= i < j < |r| ensures r[i].1.number != r[j].1.number {
      if |before| <= i {
        LaterNumberDiffers(levels, nextFile, l, i - |before|, j - |before|);
      } else if |before| <= j {
        OtherLevelDiffers(levels, nextFile, before[i].0, before[i].1, l, last[j - |before|].1);
      }
    }
  }

  lemma OtherLevelDiffers(levels: seq<Files>, nextFile: nat, l: nat, f: FileMeta, m: nat, g: FileMeta)
    requires l < m < |levels| && NumbersUnique(levels, nextFile) && f in levels[l] && g in levels[m]
    ensures f.number != g.number
  {
  }

  lemma LaterNumberDiffers(levels: seq<Files>, nextFile: nat, l: nat, i: nat, j: nat)
    requires l < |levels| && NumbersUnique(levels, nextFile) && Ordered(levels[l]) && i < j < |levels[l]|
    ensures levels[l][i].number != levels[l][j].number
  {
    assert levels[l][i] in levels[l] && levels[l][j] in levels[l] && BySmallest(levels[l][i], levels[l][j]);
  }

  lemma SnapshotIsFresh(levels: seq<Files>, nextFile: nat)
    requires OrderedLevels(levels) && NumbersUnique(levels, nextFile)
    ensures ValidEdit(SnapshotEdit(levels)) && FreshAdds(NoFiles(), SnapshotEdit(levels))
  {
    hide FilesUpTo, NumbersUnique;
    ListedLevels(levels, NUM_LEVELS);
    ListedOnce(levels, nextFile, NUM_LEVELS);
  }

  // Installing a snapshot where nothing was gives the version it was taken of.
  lemma SnapshotInstalls(levels: seq<Files>, nextFile: nat)
    requires OrderedLevels(levels) && NumbersUnique(levels, nextFile)
    ensures ValidEdit(SnapshotEdit(levels)) && Install(NoFiles(), SnapshotEdit(levels)) == levels
  {
    hide Install, NumbersUnique, FilesUpTo;
    var e := SnapshotEdit(levels);
    SnapshotIsFresh(levels, nextFile);
    InstallEdits(NoFiles(), e);
    forall l: nat | l < NUM_LEVELS ensures Install(NoFiles(), e)[l] == levels[l] {
      forall f ensures f in Install(NoFiles(), e)[l] <==> f in levels[l] {
        FilesListed(levels, NUM_LEVELS, l, f);
      }
      OrderedUnique(Install(NoFiles(), e)[l], levels[l]);
    }
  }

  // Nothing has been logged, then the snapshot is.
  lemma SnapshotDescribed(st: State)
    requires OrderedLevels(st.levels) && NumbersUnique(st.levels, st.nextFile)
    ensures Described([SnapshotEdit(st.levels)], st)
  {
    hide Install, Applied, FilesUpTo, NumbersUnique;
    var e := SnapshotEdit(st.levels);
    SnapshotIsFresh(st.levels, st.nextFile);
    SnapshotInstalls(st.levels, st.nextFile);
    SnapshotAdds(st.levels, st.nextFile);
    OneEdit(e);
    SnapshotSinks(st.levels, st.nextFile);
  }

  lemma OneEdit(e: VersionEdit)
    requires ValidEdit(e) && AddsFresh(NoFiles(), Fresh(), e)
    ensures ValidEdits([e]) && AddsOnce(NoFiles(), [e])
    ensures Replay([e]) == Applied(Fresh(), e) && InstallAll(NoFiles(), [e]) == Install(NoFiles(), e)
  {
    hide Install, Applied, AddsFresh;
    assert [e][..0] == [];
  }

  lemma SnapshotAdds(levels: seq<Files>, nextFile: nat)
    requires |levels| == NUM_LEVELS && ValidEdit(SnapshotEdit(levels)) && FreshAdds(NoFiles(), SnapshotEdit(levels))
    ensures AddsFresh(NoFiles(), Fresh(), SnapshotEdit(levels))
  {
  }

  lemma SnapshotSinks(levels: seq<Files>, nextFile: nat)
    requires |levels| == NUM_LEVELS && NumbersUnique(levels, nextFile)
    requires ValidEdit(SnapshotEdit(levels)) && FreshAdds(NoFiles(), SnapshotEdit(levels))
    ensures NumbersSink(Applied(Fresh(), SnapshotEdit(levels)), levels, nextFile)
  {
    hide Applied, FilesUpTo, NumbersUnique;
    var e := SnapshotEdit(levels);
    var t := Applied(Fresh(), e);
    SnapshotAdds(levels, nextFile);
    forall l: nat | l < NUM_LEVELS ensures forall f :: f in t[l].addedFiles <==> f in levels[l] {
      ApplyContents(Fresh(), e, l);
      forall f ensures f in t[l].addedFiles <==> f in levels[l] {
        FilesListed(levels, NUM_LEVELS, l, f);
      }
    }
    NumbersStay(t, levels, nextFile);
  }

  lemma NumbersStay(t: BuilderState, levels: seq<Files>, nextFile: nat)
    requires |levels| == NUM_LEVELS && NumbersUnique(levels, nextFile)
    requires forall l: nat :: l < NUM_LEVELS ==> forall f :: f in t[l].addedFiles <==> f in levels[l]
    ensures NumbersSink(t, levels, nextFile)
  {
  }

  // The same for a manifest opened in the middle of a run.
  lemma {:induction false} RunsAddOnceSince(states: seq<State>, actions: seq<Action>, s: nat, n: nat)
    requires Run(states, actions) && s <= n <= |actions|
    ensures |states[s].levels| == NUM_LEVELS && Described(EditsSince(states, actions, s, n), states[n])
  {
    hide Described, Inv, Next, SnapshotEdit;
    RunKeepsInv(states, actions, s);
    InvLevels(states[s]);
    if n == s {
      SnapshotDescribed(states[s]);
    } else {
      RunsAddOnceSince(states, actions, s, n - 1);
      RunKeepsInv(states, actions, n - 1);
      ActionDescribed(EditsSince(states, actions, s, n - 1), states[n - 1], actions[n - 1], states[n]);
    }
  }

  lemma InvLevels(st: State)
    requires Inv(st)
    ensures |st.levels| == NUM_LEVELS && OrderedLevels(st.levels) && NumbersUnique(st.levels, st.nextFile)
  {
  }

  // The batched replay of a manifest, opened whenever, is the version it describes.
  lemma ManifestSinceRebuilds(states: seq<State>, actions: seq<Action>, s: nat, n: nat)
    requires Run(states, actions) && s <= n <= |actions|
    ensures |states[s].levels| == NUM_LEVELS
    ensures var edits := EditsSince(states, actions, s, n); ValidEdits(edits) && Save(NoFiles(), Replay(edits)) == states[n].levels
  {
    RunsAddOnceSince(states, actions, s, n);
    BatchedReplay(NoFiles(), EditsSince(states, actions, s, n));
  }
}
