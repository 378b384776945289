// The merging iterator over the inputs of a compaction, and the loop that writes what
// it yields (VersionSet::MakeInputIterator, DBImpl::DoCompactionWork).
module CompactionWork {
  import opened Wrappers
  import opened InternalKeys
  import opened Versions
  import opened Compactions
  import opened OutputCuts
  import Mergers

  function Flatten(files: Files): seq<Entry> {
    if files == [] then [] else Flatten(files[..|files| - 1]) + files[|files| - 1].entries
  }

  lemma {:induction false} FlattenContents(files: Files)
    ensures forall e :: e in Flatten(files) <==> InFiles(files, e)
  {
    if files != [] {
      var n := |files| - 1;
      FlattenContents(files[..n]);
      forall e ensures InFiles(files, e) <==> InFiles(files[..n], e) || e in files[n].entries {
        if InFiles(files, e) {
          var i :| 0 <= i < |files| && e in files[i].entries;
          assert i < n ==> files[..n][i] == files[i];
        }
        if InFiles(files[..n], e) {
          var i :| 0 <= i < n && e in files[..n][i].entries;
          assert files[i] == files[..n][i];
        }
      }
    }
  }

  // Files cut one after another from a sorted run are sorted and disjoint.
  lemma {:induction false} CutsAreSorted(files: Files)
    requires ValidFiles(files) && Sorted(Flatten(files))
    ensures SortedFiles(files)
  {
    if files != [] {
      var n := |files| - 1;
      var front, back := Flatten(files[..n]), files[n].entries;
      forall i, j | 0 <= i < j < |front| ensures Less(front[i].key, front[j].key) {
        assert Flatten(files)[i] == front[i] && Flatten(files)[j] == front[j];
      }
      CutsAreSorted(files[..n]);
      FlattenContents(files[..n]);
      forall i | 0 <= i < n ensures Less(files[i].largest, files[n].smallest) {
        var e := files[i].entries[|files[i].entries| - 1];
        assert files[..n][i] == files[i] && InFiles(files[..n], e);
        var k :| 0 <= k < |front| && front[k] == e;
        assert Flatten(files)[k] == e && Flatten(files)[|front|] == back[0];
      }
      forall i, j | 0 <= i < j < |files| ensures Less(files[i].largest, files[j].smallest) {
        if j < n {
          assert files[..n][i] == files[i] && files[..n][j] == files[j];
        }
      }
    }
  }

  ghost function Survivors(levels: seq<Files>, level: nat, ins: iset<Entry>, snapshot: nat, es: seq<Entry>): seq<Entry>
    requires |levels| == NUM_LEVELS
  {
    if es == [] then []
    else
      var n := |es| - 1;
      Survivors(levels, level, ins, snapshot, es[..n])
      + (if Dropped(levels, level, ins, snapshot, es[n]) then [] else [es[n]])
  }

  lemma {:induction false} SurvivorsContents(levels: seq<Files>, level: nat, ins: iset<Entry>, snapshot: nat, es: seq<Entry>)
    requires |levels| == NUM_LEVELS && Sorted(es)
    ensures forall e :: e in Survivors(levels, level, ins, snapshot, es) <==> e in es && !Dropped(levels, level, ins, snapshot, e)
    ensures Sorted(Survivors(levels, level, ins, snapshot, es))
  {
    if es != [] {
      var n := |es| - 1;
      SurvivorsContents(levels, level, ins, snapshot, es[..n]);
      assert es == es[..n] + [es[n]];
      var front := Survivors(levels, level, ins, snapshot, es[..n]);
      forall i | 0 <= i < |front| ensures Less(front[i].key, es[n].key) {
        assert front[i] in es[..n];
      }
    }
  }

  // Rule (A) looks only at the previous entry; that is enough.
  lemma PreviousEntryDecides(es: seq<Entry>, pos: nat, snapshot: nat)
    requires Sorted(es) && Unique(Elems(es)) && pos < |es|
    ensures Shadowed(Elems(es), snapshot, es[pos]) <==>
              pos > 0 && es[pos - 1].key.user == es[pos].key.user && es[pos - 1].key.sn <= snapshot
  {
    var e := es[pos];
    if d :| d in Elems(es) && d.key.user == e.key.user && e.key.sn < d.key.sn <= snapshot {
      var j :| 0 <= j < |es| && es[j] == d;
      assert j < pos by {
        assert j > pos ==> Less(e.key, d.key);
      }
      assert j == pos - 1 || Less(d.key, es[pos - 1].key);
      assert Less(es[pos - 1].key, e.key);
    }
    if pos > 0 && es[pos - 1].key.user == e.key.user && es[pos - 1].key.sn <= snapshot {
      assert Less(es[pos - 1].key, e.key);
      assert es[pos - 1] in Elems(es) && es[pos] in Elems(es);
    }
  }

  // The output under construction: CompactionState's builder and current_output.
  datatype Builder = Closed | Open(number: nat, smallest: Key, largest: Key, entries: seq<Entry>)

  function Pending(b: Builder): seq<Entry> {
    if b.Closed? then [] else b.entries
  }

  ghost predicate ValidBuilder(b: Builder) {
    b.Open? ==>
      && b.entries != []
      && Sorted(b.entries)
      && b.smallest == b.entries[0].key
      && b.largest == b.entries[|b.entries| - 1].key
      && (forall e :: e in b.entries ==> e.key.sn <= MAX_SEQUENCE)
  }

  // OpenCompactionOutputFile when none is open, then TableBuilder::Add.
  method AddToOutput(b: Builder, e: Entry, nextFile: nat) returns (b': Builder, nextFile': nat)
    requires ValidBuilder(b) && e.key.sn <= MAX_SEQUENCE
    requires b.Open? ==> Less(b.largest, e.key)
    ensures b'.Open? && ValidBuilder(b') && Pending(b') == Pending(b) + [e]
    ensures b.Open? ==> b'.number == b.number && nextFile' == nextFile
    ensures b.Closed? ==> b'.number == nextFile && nextFile' == nextFile + 1
  {
    b', nextFile' := b, nextFile;
    if b.Closed? {
      b', nextFile' := Open(nextFile, e.key, e.key, []), nextFile + 1;
    }
    if |b'.entries| == 0 {
      b' := b'.(smallest := e.key);
    }
    ghost var es := b'.entries;
    forall i | 0 <= i < |es| ensures Less(es[i].key, e.key) {
      assert i == |es| - 1 || Less(es[i].key, es[|es| - 1].key);
    }
    b' := b'.(largest := e.key, entries := b'.entries + [e]);
  }

  // Output numbers are drawn in order from the file-number counter.
  ghost predicate Numbered(files: Files, b: Builder, first: nat, next: nat) {
    && (forall i :: 0 <= i < |files| ==> files[i].number == first + i)
    && (b.Open? ==> b.number == first + |files|)
    && next == first + |files| + if b.Open? then 1 else 0
  }

  ghost function EntryLists(files: Files): (r: seq<seq<Entry>>)
    ensures |r| == |files|
  {
    seq(|files|, i requires 0 <= i < |files| => files[i].entries)
  }

  // FinishCompactionOutputFile.
  method CloseOutput(outputs: Files, b: Builder, tableSize: (seq<Entry>, bool) -> nat, ghost first: nat, ghost next: nat)
    returns (outputs': Files)
    requires ValidFiles(outputs) && ValidBuilder(b) && b.Open? && Numbered(outputs, b, first, next)
    ensures ValidFiles(outputs') && Numbered(outputs', Closed, first, next)
    ensures Flatten(outputs') == Flatten(outputs) + Pending(b)
    ensures EntryLists(outputs') == EntryLists(outputs) + [Pending(b)]
  {
    var f := FileMeta(b.number, tableSize(b.entries, true), b.smallest, b.largest, b.entries);
    outputs' := outputs + [f];
    assert outputs'[..|outputs|] == outputs;
  }

  // Add one surviving entry, closing the output once it is big enough.
  method Emit(outputs: Files, b: Builder, e: Entry, nextFile: nat, tableSize: (seq<Entry>, bool) -> nat,
              maxOutputFileSize: nat, ghost first: nat)
    returns (outputs': Files, b': Builder, nextFile': nat)
    requires ValidFiles(outputs) && ValidBuilder(b) && Numbered(outputs, b, first, nextFile)
    requires e.key.sn <= MAX_SEQUENCE && (b.Open? ==> Less(b.largest, e.key))
    ensures ValidFiles(outputs') && ValidBuilder(b') && Numbered(outputs', b', first, nextFile')
    ensures Flatten(outputs') + Pending(b') == Flatten(outputs) + Pending(b) + [e]
    ensures Cut(EntryLists(outputs'), Pending(b')) ==
            WithEntry(Cut(EntryLists(outputs), Pending(b)), e, tableSize, maxOutputFileSize)
  {
    hide ValidFiles, Flatten, EntryLists, Sorted;
    outputs' := outputs;
    b', nextFile' := AddToOutput(b, e, nextFile);
    hide ValidBuilder, Numbered;
    if tableSize(b'.entries, false) >= maxOutputFileSize {
      outputs' := CloseOutput(outputs, b', tableSize, first, nextFile');
      b' := Closed;
    }
  }

  // Whether the entry at pos is thrown away: rules (A) and (B) of the merge loop.
  method DecideDrop(c: Compaction, e: Entry, snapshot: nat, lastSequenceForKey: nat, ghost merged: seq<Entry>, ghost pos: nat)
    returns (drop: bool)
    requires c.Valid() && pos < |merged| && e == merged[pos] && c.PtrsBelow(e.key.user)
    requires Sorted(merged) && Unique(Elems(merged)) && snapshot < MAX_SEQUENCE
    requires lastSequenceForKey ==
      if pos > 0 && merged[pos - 1].key.user == merged[pos].key.user then merged[pos - 1].key.sn else MAX_SEQUENCE
    modifies c.levelPtrs
    ensures c.PtrsBelow(merged[pos].key.user)
    ensures drop <==> Dropped(c.inputVersion, c.level, Elems(merged), snapshot, merged[pos])
  {
    PreviousEntryDecides(merged, pos, snapshot);
    drop := false;
    if lastSequenceForKey <= snapshot {
      drop := true;
    } else if e.key.kind == Deletion && e.key.sn <= snapshot {
      drop := c.IsBaseLevelForKey(e.key.user);
    }
  }

  // The variables of the merge loop.
  datatype MergeState = MergeState(outputs: Files, builder: Builder, nextFile: nat,
                                   currentUserKey: Option<UserKey>, lastSequenceForKey: nat)

  // Everything written so far, closed outputs first.
  ghost function Written(st: MergeState): seq<Entry> {
    Flatten(st.outputs) + Pending(st.builder)
  }

  ghost function CutOf(st: MergeState): Cut {
    Cut(EntryLists(st.outputs), Pending(st.builder))
  }

  // Where ShouldStopBefore stands after the first pos entries.
  ghost predicate HasFollowed(c: Compaction, merged: seq<Entry>, pos: nat)
    reads c`grandparents, c`grandparentIndex, c`seenKey, c`overlappedBytes
  {
    && pos <= |merged| && c.grandparentIndex <= |c.grandparents| && (c.seenKey <==> pos > 0)
    && c.grandparentIndex == (if pos == 0 then 0 else Passed(c.grandparents, merged[pos - 1].key))
    && c.overlappedBytes == if pos == 0 then 0 else LeftAt(c.grandparents, merged, pos - 1)
  }

  // Asked about the entries in turn, ShouldStopBefore answers as the bytes gone by say.
  method NextStop(c: Compaction, key: Key, ghost merged: seq<Entry>, ghost pos: nat) returns (stop: bool)
    requires pos < |merged| && key == merged[pos].key && Sorted(merged) && HasFollowed(c, merged, pos)
    modifies c`grandparentIndex, c`seenKey, c`overlappedBytes
    ensures stop == StopsBefore(c.grandparents, merged, pos) && HasFollowed(c, merged, pos + 1)
  {
    ghost var gs, start := c.grandparents, c.grandparentIndex;
    if pos > 0 {
      PassedBefore(gs, merged[pos - 1].key);
      assert Less(merged[pos - 1].key, key);
    }
    stop := c.ShouldStopBefore(key);
    PassedIs(gs, key, c.grandparentIndex);
    BytesBetween(gs, start, c.grandparentIndex);
  }

  ghost predicate ValidState(st: MergeState, merged: seq<Entry>, pos: nat, first: nat)
    requires pos <= |merged|
  {
    && ValidFiles(st.outputs) && ValidBuilder(st.builder)
    && Numbered(st.outputs, st.builder, first, st.nextFile)
    && (pos == 0 ==> st.currentUserKey == None)
    && (pos > 0 ==> st.currentUserKey == Some(merged[pos - 1].key.user) && st.lastSequenceForKey == merged[pos - 1].key.sn)
  }

  // The head of a turn: cut the output if told to, and notice a new user key.
  method StartEntry(st: MergeState, stop: bool, e: Entry, tableSize: (seq<Entry>, bool) -> nat,
                    ghost first: nat, ghost merged: seq<Entry>, ghost pos: nat)
    returns (st': MergeState)
    requires pos < |merged| && e == merged[pos] && ValidState(st, merged, pos, first)
    ensures ValidFiles(st'.outputs) && ValidBuilder(st'.builder)
    ensures Numbered(st'.outputs, st'.builder, first, st'.nextFile) && Written(st') == Written(st)
    ensures st'.builder == if stop then Closed else st.builder
    ensures CutOf(st') == Stopped(CutOf(st), stop)
    ensures st'.currentUserKey == Some(merged[pos].key.user)
    ensures st'.lastSequenceForKey ==
      if pos > 0 && merged[pos - 1].key.user == merged[pos].key.user then merged[pos - 1].key.sn else MAX_SEQUENCE
  {
    st' := st;
    if stop && st.builder.Open? {
      var closed := CloseOutput(st.outputs, st.builder, tableSize, first, st.nextFile);
      st' := st'.(outputs := closed, builder := Closed);
    }
    var user := e.key.user;
    if st'.currentUserKey != Some(user) {
      st' := st'.(currentUserKey := Some(user), lastSequenceForKey := MAX_SEQUENCE);
    }
  }

  // One turn of the loop writes the entry at pos unless it is dropped.
  method MergeEntry(c: Compaction, e: Entry, snapshot: nat, st: MergeState, tableSize: (seq<Entry>, bool) -> nat,
                    maxOutputFileSize: nat, ghost first: nat, ghost merged: seq<Entry>, ghost pos: nat)
    returns (st': MergeState)
    requires c.Valid() && HasFollowed(c, merged, pos)
    requires Sorted(merged) && Unique(Elems(merged)) && snapshot < MAX_SEQUENCE && pos < |merged| && e == merged[pos]
    requires merged[pos].key.sn <= MAX_SEQUENCE && c.PtrsBelow(merged[pos].key.user)
    requires ValidState(st, merged, pos, first) && (st.builder.Open? ==> Less(st.builder.largest, merged[pos].key))
    modifies c`grandparentIndex, c`seenKey, c`overlappedBytes, c.levelPtrs
    ensures ValidState(st', merged, pos + 1, first)
    ensures Written(st') == Written(st) +
      if Dropped(c.inputVersion, c.level, Elems(merged), snapshot, merged[pos]) then [] else [merged[pos]]
    ensures c.Valid() && c.PtrsBelow(merged[pos].key.user) && HasFollowed(c, merged, pos + 1)
    ensures CutOf(st') ==
      var cut := Stopped(CutOf(st), StopsBefore(c.grandparents, merged, pos));
      if Dropped(c.inputVersion, c.level, Elems(merged), snapshot, merged[pos]) then cut else WithEntry(cut, e, tableSize, maxOutputFileSize)
  {
    var stop := NextStop(c, e.key, merged, pos);
    st' := StartEntry(st, stop, e, tableSize, first, merged, pos);
    var drop := DecideDrop(c, e, snapshot, st'.lastSequenceForKey, merged, pos);
    st' := st'.(lastSequenceForKey := e.key.sn);
    if !drop {
      var outputs, builder, nextFile := Emit(st'.outputs, st'.builder, e, st'.nextFile, tableSize, maxOutputFileSize, first);
      st' := st'.(outputs := outputs, builder := builder, nextFile := nextFile);
    }
  }

  // The loop over what the merging iterator yields.
  method MergeAll(c: Compaction, input: Mergers.MergingIterator, snapshot: nat, nextFile: nat,
                  tableSize: (seq<Entry>, bool) -> nat, maxOutputFileSize: nat)
    returns (st: MergeState)
    requires c.Valid() && c.AtStart() && input.Good()
    requires snapshot < MAX_SEQUENCE
    requires Sorted(input.merged) && Unique(Elems(input.merged))
    requires forall i :: 0 <= i < |input.merged| ==> input.merged[i].key.sn <= MAX_SEQUENCE
    modifies input, c`grandparentIndex, c`seenKey, c`overlappedBytes, c.levelPtrs
    ensures ValidState(st, input.merged, |input.merged|, nextFile)
    ensures Written(st) == Survivors(c.inputVersion, c.level, Elems(input.merged), snapshot, input.merged)
    ensures CutOf(st) == CutAfter(c.grandparents, input.merged, |input.merged|,
                                  AllDropped(c.inputVersion, c.level, Elems(input.merged), snapshot), tableSize, maxOutputFileSize)
  {
    hide Mergers.MergingIterator.Good, ValidState, Written, Survivors, Dropped, Compaction.Valid, Sorted, Unique, CutOf, CutAfter,
      HasFollowed;
    ghost var merged := input.merged;
    StartState(c, merged, snapshot, nextFile);
    ghost var drop := AllDropped(c.inputVersion, c.level, Elems(merged), snapshot);
    NothingCut(c.grandparents, merged, drop, tableSize, maxOutputFileSize);
    st := MergeState([], Closed, nextFile, None, MAX_SEQUENCE);
    input.SeekToFirst();
    input.ValidMeans();
    while input.Valid()
      invariant input.Good() && input.at <= |merged| && (input.Valid() <==> input.at < |merged|)
      invariant c.Valid() && HasFollowed(c, merged, input.at)
      invariant CutOf(st) == CutAfter(c.grandparents, merged, input.at, drop, tableSize, maxOutputFileSize)
      invariant input.at < |merged| ==> c.PtrsBelow(merged[input.at].key.user)
      invariant ValidState(st, merged, input.at, nextFile)
      invariant Written(st) == Survivors(c.inputVersion, c.level, Elems(merged), snapshot, merged[..input.at])
      decreases |merged| - input.at
    {
      ghost var pos := input.at;
      WrittenPrecedes(c.inputVersion, c.level, Elems(merged), snapshot, merged, pos, st, nextFile);
      SurvivorsNext(c.inputVersion, c.level, Elems(merged), snapshot, merged, pos);
      CutNext(c.grandparents, merged, pos, c.inputVersion, c.level, Elems(merged), snapshot, tableSize, maxOutputFileSize);
      var e := input.Current();
      st := MergeEntry(c, e, snapshot, st, tableSize, maxOutputFileSize, nextFile, merged, pos);
      NextKeyNotBelow(c, merged, pos);
      input.Next();
      input.ValidMeans();
    }
    assert merged[..input.at] == merged;
  }

  ghost function AllDropped(levels: seq<Files>, level: nat, ins: iset<Entry>, snapshot: nat): iset<Entry>
    requires |levels| == NUM_LEVELS
  {
    iset e | Dropped(levels, level, ins, snapshot, e)
  }

  lemma NothingCut(gs: Files, merged: seq<Entry>, drop: iset<Entry>, tableSize: (seq<Entry>, bool) -> nat, max: nat)
    ensures CutAfter(gs, merged, 0, drop, tableSize, max) == Cut([], [])
  {
  }

  lemma CutNext(gs: Files, merged: seq<Entry>, pos: nat, levels: seq<Files>, level: nat, ins: iset<Entry>, snapshot: nat,
                tableSize: (seq<Entry>, bool) -> nat, max: nat)
    requires |levels| == NUM_LEVELS && pos < |merged|
    ensures var drop := AllDropped(levels, level, ins, snapshot);
      CutAfter(gs, merged, pos + 1, drop, tableSize, max) ==
      var cut := Stopped(CutAfter(gs, merged, pos, drop, tableSize, max), StopsBefore(gs, merged, pos));
      if Dropped(levels, level, ins, snapshot, merged[pos]) then cut else WithEntry(cut, merged[pos], tableSize, max)
  {
    hide Dropped;
  }

  lemma StartState(c: Compaction, merged: seq<Entry>, snapshot: nat, nextFile: nat)
    requires c.Valid() && c.AtStart()
    ensures |c.inputVersion| == NUM_LEVELS
    ensures var st := MergeState([], Closed, nextFile, None, MAX_SEQUENCE);
      ValidState(st, merged, 0, nextFile) && Written(st) == Survivors(c.inputVersion, c.level, Elems(merged), snapshot, merged[..0])
    ensures HasFollowed(c, merged, 0) && forall user :: c.PtrsBelow(user)
    ensures CutOf(MergeState([], Closed, nextFile, None, MAX_SEQUENCE)) == Cut([], [])
  {
  }

  // ----- The inputs as one sequence -----

  lemma {:induction false} FlattenSorted(files: Files)
    requires ValidFiles(files) && SortedFiles(files)
    ensures Sorted(Flatten(files))
  {
    if files != [] {
      var n := |files| - 1;
      var front, last := files[..n], files[n].entries;
      assert forall i :: 0 <= i < n ==> front[i] == files[i];
      FlattenSorted(front);
      FlattenContents(front);
      var all := Flatten(front);
      forall i, j | 0 <= i < |all| && 0 <= j < |last| ensures Less(all[i].key, last[j].key) {
        assert all[i] in all;
        var k :| 0 <= k < n && all[i] in front[k].entries;
        EntryInRange(files[k], all[i]);
        EntryInRange(files[n], last[j]);
        assert Less(files[k].largest, files[n].smallest);
      }
    }
  }

  // The children of the merging iterator: a file of level 0 is one, and so are all
  // files of another level together.
  function Children(level: nat, in0: Files, in1: Files): Mergers.Children {
    (if level == 0 then EachFile(in0) else [Flatten(in0)]) + (if in1 == [] then [] else [Flatten(in1)])
  }

  function EachFile(files: Files): (r: Mergers.Children)
    ensures |r| == |files|
  {
    seq(|files|, i requires 0 <= i < |files| => files[i].entries)
  }

  // No key is in two of the children.
  ghost predicate NoSharedKey(a: seq<Entry>, b: seq<Entry>) {
    forall d, e :: d in a && e in b ==> d.key != e.key
  }

  lemma FileNewerNoShared(f: FileMeta, g: FileMeta)
    requires FileNewer(f, g) || FileNewer(g, f)
    ensures NoSharedKey(f.entries, g.entries)
  {
  }

  lemma DistinctChildren(children: Mergers.Children)
    requires forall i :: 0 <= i < |children| ==> Sorted(children[i])
    requires forall i, k :: 0 <= i < k < |children| ==> NoSharedKey(children[i], children[k])
    ensures Mergers.DistinctKeys(children)
  {
    forall i, j, k, l | 0 <= i < |children| && 0 <= j < |children[i]| && 0 <= k < |children| && 0 <= l < |children[k]|
      && children[i][j].key == children[k][l].key
      ensures i == k && j == l
    {
      assert children[i][j] in children[i] && children[k][l] in children[k];
    }
  }

  // The files that make up child i.
  function GroupOf(level: nat, in0: Files, in1: Files, i: nat): Files {
    if level == 0 && i < |in0| then [in0[i]] else if level > 0 && i == 0 then in0 else in1
  }

  lemma ChildIsGroup(level: nat, in0: Files, in1: Files, i: nat)
    requires i < |Children(level, in0, in1)|
    ensures Children(level, in0, in1)[i] == Flatten(GroupOf(level, in0, in1, i))
  {
    if level == 0 && i < |in0| {
      assert Flatten([in0[i]][..0]) == [] && Flatten([in0[i]]) == [] + in0[i].entries;
    }
  }

  lemma GroupSorted(c: Compaction, i: nat)
    requires c.Picked() && i < |Children(c.level, c.inputs0, c.inputs1)|
    ensures var g := GroupOf(c.level, c.inputs0, c.inputs1, i); ValidFiles(g) && SortedFiles(g)
  {
    if c.level > 0 {
      PickedSorted(c.inputs0, c.inputVersion[c.level]);
    }
    PickedSorted(c.inputs1, c.inputVersion[c.level + 1]);
  }

  lemma GroupsApart(c: Compaction, i: nat, k: nat)
    requires c.Picked() && ValidVersion(c.inputVersion) && i < k < |Children(c.level, c.inputs0, c.inputs1)|
    ensures var g, h := GroupOf(c.level, c.inputs0, c.inputs1, i), GroupOf(c.level, c.inputs0, c.inputs1, k);
      forall a, b :: 0 <= a < |g| && 0 <= b < |h| ==> FileNewer(g[a], h[b]) || FileNewer(h[b], g[a])
  {
    hide ValidVersion, FileNewer, Compaction.Picked;
    var g, h := GroupOf(c.level, c.inputs0, c.inputs1, i), GroupOf(c.level, c.inputs0, c.inputs1, k);
    if c.level == 0 && k < |c.inputs0| {
      LevelZeroApart(c, i, k);
    } else {
      forall a, b | 0 <= a < |g| && 0 <= b < |h| ensures FileNewer(g[a], h[b]) {
        assert g[a] in c.inputs0 && h[b] in c.inputs1;
        UpperIsNewer(c, g[a], h[b]);
      }
    }
  }

  lemma LevelZeroApart(c: Compaction, i: nat, k: nat)
    requires c.Picked() && ValidVersion(c.inputVersion) && c.level == 0 && i < k < |c.inputs0|
    ensures FileNewer(c.inputs0[i], c.inputs0[k]) || FileNewer(c.inputs0[k], c.inputs0[i])
  {
    hide FileNewer;
    PickedApart(c.inputs0, c.inputVersion[0], i, k);
  }

  lemma UpperIsNewer(c: Compaction, f: FileMeta, g: FileMeta)
    requires c.Picked() && ValidVersion(c.inputVersion) && f in c.inputs0 && g in c.inputs1
    ensures FileNewer(f, g)
  {
    assert f in c.inputVersion[c.level] && g in c.inputVersion[c.level + 1];
    var i :| 0 <= i < |c.inputVersion[c.level]| && c.inputVersion[c.level][i] == f;
    var j :| 0 <= j < |c.inputVersion[c.level + 1]| && c.inputVersion[c.level + 1][j] == g;
    assert LevelNewer(c.inputVersion[c.level], c.inputVersion[c.level + 1]);
  }

  lemma ChildrenMerge(c: Compaction)
    requires c.Picked() && ValidVersion(c.inputVersion)
    ensures var children := Children(c.level, c.inputs0, c.inputs1);
      && (forall i :: 0 <= i < |children| ==> Sorted(children[i])) && Mergers.DistinctKeys(children)
      && forall e :: Mergers.InChildren(children, e) <==> InFiles(c.inputs0, e) || InFiles(c.inputs1, e)
  {
    hide Children, GroupOf, ValidVersion, Compaction.Picked, Mergers.InChildren, Mergers.DistinctKeys;
    var children := Children(c.level, c.inputs0, c.inputs1);
    forall i | 0 <= i < |children| ensures Sorted(children[i]) {
      ChildIsGroup(c.level, c.inputs0, c.inputs1, i);
      GroupSorted(c, i);
      FlattenSorted(GroupOf(c.level, c.inputs0, c.inputs1, i));
    }
    forall i, k | 0 <= i < k < |children| ensures NoSharedKey(children[i], children[k]) {
      ChildIsGroup(c.level, c.inputs0, c.inputs1, i);
      ChildIsGroup(c.level, c.inputs0, c.inputs1, k);
      GroupsApart(c, i, k);
      GroupsNoShared(GroupOf(c.level, c.inputs0, c.inputs1, i), GroupOf(c.level, c.inputs0, c.inputs1, k));
    }
    DistinctChildren(children);
    forall e ensures Mergers.InChildren(children, e) <==> InFiles(c.inputs0, e) || InFiles(c.inputs1, e) {
      ChildrenContents(c.level, c.inputs0, c.inputs1, e);
    }
  }

  lemma GroupsNoShared(g: Files, h: Files)
    requires forall a, b :: 0 <= a < |g| && 0 <= b < |h| ==> FileNewer(g[a], h[b]) || FileNewer(h[b], g[a])
    ensures NoSharedKey(Flatten(g), Flatten(h))
  {
    hide FileNewer;
    FlattenContents(g);
    FlattenContents(h);
    forall d, e | d in Flatten(g) && e in Flatten(h) ensures d.key != e.key {
      var a :| 0 <= a < |g| && d in g[a].entries;
      var b :| 0 <= b < |h| && e in h[b].entries;
      FileNewerNoShared(g[a], h[b]);
    }
  }

  lemma ChildrenContents(level: nat, in0: Files, in1: Files, e: Entry)
    ensures Mergers.InChildren(Children(level, in0, in1), e) <==> InFiles(in0, e) || InFiles(in1, e)
  {
    var children := Children(level, in0, in1);
    FlattenContents(in0);
    FlattenContents(in1);
    var n := if level == 0 then |in0| else 1;
    if InFiles(in0, e) {
      var i :| 0 <= i < |in0| && e in in0[i].entries;
      assert e in children[if level == 0 then i else 0];
    }
    if InFiles(in1, e) {
      assert in1 != [] && e in children[n];
    }
    if Mergers.InChildren(children, e) {
      var i :| 0 <= i < |children| && e in children[i];
      assert level == 0 && i < n ==> e in in0[i].entries;
    }
  }

  // MakeInputIterator.
  method MakeInputIterator(c: Compaction) returns (input: Mergers.MergingIterator)
    requires c.Picked() && ValidVersion(c.inputVersion)
    ensures fresh(input) && input.Good() && Sorted(input.merged)
    ensures forall e :: e in input.merged <==> InFiles(c.inputs0, e) || InFiles(c.inputs1, e)
  {
    hide Children, ValidVersion, Compaction.Picked, Mergers.DistinctKeys, Mergers.MergingIterator.Good;
    ChildrenMerge(c);
    var children := Children(c.level, c.inputs0, c.inputs1);
    ghost var merged, rank, owner := Mergers.MergeExists(children);
    input := new Mergers.MergingIterator(children, merged, rank, owner);
  }

  // DoCompactionWork: the outputs hold exactly the input entries that are not dropped, and
  // end where they have to.
  method DoCompactionWork(c: Compaction, snapshot: nat, nextFile: nat,
                          tableSize: (seq<Entry>, bool) -> nat, maxOutputFileSize: nat)
    returns (outputs: Files, nextFile': nat, ghost merged: seq<Entry>)
    requires c.Picked() && c.AtStart() && ValidVersion(c.inputVersion)
    requires snapshot < MAX_SEQUENCE
    requires Unique(LevelEntries(c.inputs0) + LevelEntries(c.inputs1))
    modifies c`grandparentIndex, c`seenKey, c`overlappedBytes, c.levelPtrs
    ensures ValidFiles(outputs) && SortedFiles(outputs)
    ensures var ins := LevelEntries(c.inputs0) + LevelEntries(c.inputs1);
      forall e :: InFiles(outputs, e) <==> e in ins && !Dropped(c.inputVersion, c.level, ins, snapshot, e)
    ensures Numbered(outputs, Closed, nextFile, nextFile')
    ensures Sorted(merged) && Elems(merged) == LevelEntries(c.inputs0) + LevelEntries(c.inputs1)
    ensures WellCut(c.grandparents, merged, EntryLists(outputs), tableSize, maxOutputFileSize)
  {
    hide CutAfter, WellCut, CutOf, OutputCuts.Outputs;
    hide ValidVersion, Mergers.MergingIterator.Good, Dropped, Compaction.Picked, Survivors, Numbered;
    ghost var ins := LevelEntries(c.inputs0) + LevelEntries(c.inputs1);
    c.PickedIsValid();
    var input := MakeInputIterator(c);
    merged := input.merged;
    assert Elems(merged) == ins;
    InputsBounded(c, input.merged);
    var st := MergeAll(c, input, snapshot, nextFile, tableSize, maxOutputFileSize);
    outputs, nextFile' := CloseLast(st, tableSize, nextFile, input.merged);
    OutputsAreSurvivors(c.inputVersion, c.level, input.merged, snapshot, outputs);
    OutputsAreWellCut(c.grandparents, merged, AllDropped(c.inputVersion, c.level, Elems(merged), snapshot), tableSize, maxOutputFileSize);
  }

  // The output that is open when the input has ended.
  method CloseLast(st: MergeState, tableSize: (seq<Entry>, bool) -> nat, ghost first: nat, ghost merged: seq<Entry>)
    returns (outputs: Files, nextFile': nat)
    requires ValidState(st, merged, |merged|, first)
    ensures ValidFiles(outputs) && Flatten(outputs) == Written(st) && Numbered(outputs, Closed, first, nextFile')
    ensures EntryLists(outputs) == Outputs(CutOf(st))
  {
    outputs, nextFile' := st.outputs, st.nextFile;
    if st.builder.Open? {
      outputs := CloseOutput(st.outputs, st.builder, tableSize, first, st.nextFile);
    }
  }

  lemma SurvivorsNext(version: seq<Files>, level: nat, ins: iset<Entry>, snapshot: nat, merged: seq<Entry>, pos: nat)
    requires |version| == NUM_LEVELS && pos < |merged|
    ensures Survivors(version, level, ins, snapshot, merged[..pos + 1]) ==
            Survivors(version, level, ins, snapshot, merged[..pos])
            + if Dropped(version, level, ins, snapshot, merged[pos]) then [] else [merged[pos]]
  {
    assert merged[..pos + 1][..pos] == merged[..pos];
  }

  lemma OutputsAreSurvivors(version: seq<Files>, level: nat, merged: seq<Entry>, snapshot: nat, outputs: Files)
    requires |version| == NUM_LEVELS && Sorted(merged) && ValidFiles(outputs)
    requires Flatten(outputs) == Survivors(version, level, Elems(merged), snapshot, merged)
    ensures SortedFiles(outputs)
    ensures forall e :: InFiles(outputs, e) <==> e in merged && !Dropped(version, level, Elems(merged), snapshot, e)
  {
    SurvivorsContents(version, level, Elems(merged), snapshot, merged);
    FlattenContents(outputs);
    CutsAreSorted(outputs);
  }

  lemma NextKeyNotBelow(c: Compaction, merged: seq<Entry>, pos: nat)
    requires Sorted(merged) && pos < |merged| && c.PtrsBelow(merged[pos].key.user)
    ensures pos + 1 < |merged| ==> c.PtrsBelow(merged[pos + 1].key.user)
  {
    if pos + 1 < |merged| {
      assert Less(merged[pos].key, merged[pos + 1].key);
    }
  }

  lemma InputsBounded(c: Compaction, merged: seq<Entry>)
    requires c.Valid() && forall e :: e in merged <==> InFiles(c.inputs0, e) || InFiles(c.inputs1, e)
    ensures forall i :: 0 <= i < |merged| ==> merged[i].key.sn <= MAX_SEQUENCE
  {
    forall i | 0 <= i < |merged| ensures merged[i].key.sn <= MAX_SEQUENCE {
      assert merged[i] in merged;
    }
  }

  lemma WrittenPrecedes(version: seq<Files>, level: nat, ins: iset<Entry>, snapshot: nat, merged: seq<Entry>, pos: nat,
                        st: MergeState, first: nat)
    requires |version| == NUM_LEVELS && Sorted(merged) && pos < |merged| && ValidState(st, merged, pos, first)
    requires Written(st) == Survivors(version, level, ins, snapshot, merged[..pos])
    ensures st.builder.Open? ==> Less(st.builder.largest, merged[pos].key)
  {
    if st.builder.Open? {
      SurvivorsContents(version, level, ins, snapshot, merged[..pos]);
      var last := st.builder.entries[|st.builder.entries| - 1];
      assert Written(st)[|Written(st)| - 1] == last;
      assert last in merged[..pos];
    }
  }
}
