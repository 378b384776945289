// The version edits that flushes, moves and compactions install keep a version valid.
module Installs {
  import opened Wrappers
  import opened InternalKeys
  import opened Versions
  import opened Compactions
  import opened VersionEdits

  // ----- A version described by membership -----

  ghost predicate Apart(f: FileMeta, g: FileMeta) {
    Less(f.largest, g.smallest) || Less(g.largest, f.smallest)
  }

  ghost predicate ZeroCompatible(f: FileMeta, g: FileMeta) {
    f.number != g.number && (f.number > g.number ==> FileNewer(f, g)) && (g.number > f.number ==> FileNewer(g, f))
  }

  // Two files may stand in levels l <= m of one version.
  ghost predicate Compatible(l: nat, f: FileMeta, m: nat, g: FileMeta) {
    if l < m then FileNewer(f, g)
    else if l == 0 then ZeroCompatible(f, g)
    else Apart(f, g)
  }

  ghost predicate AllCompatible(levels: seq<Files>) {
    forall l: nat, m: nat, f, g :: (l <= m < |levels| && f in levels[l] && g in levels[m] && (l < m || f != g)) ==> Compatible(l, f, m, g)
  }

  ghost predicate AllValid(levels: seq<Files>) {
    forall l: nat, f :: l < |levels| && f in levels[l] ==> ValidFile(f)
  }

  lemma OrderedApartSorted(files: Files)
    requires ValidFiles(files) && Ordered(files)
    requires forall i, j :: 0 <= i < j < |files| ==> Apart(files[i], files[j])
    ensures SortedFiles(files)
  {
    forall i, j | 0 <= i < j < |files| ensures Less(files[i].largest, files[j].smallest) {
      EntryInRange(files[j], files[j].entries[0]);
      assert BySmallest(files[i], files[j]);
    }
  }

  lemma VersionFromMembers(levels: seq<Files>)
    requires OrderedLevels(levels) && AllValid(levels) && AllCompatible(levels)
    ensures ValidVersion(levels)
  {
    forall l | 0 <= l < NUM_LEVELS ensures ValidFiles(levels[l]) {
      forall i | 0 <= i < |levels[l]| ensures ValidFile(levels[l][i]) {
        assert levels[l][i] in levels[l];
      }
    }
    forall l | 1 <= l < NUM_LEVELS ensures SortedFiles(levels[l]) {
      forall i, j | 0 <= i < j < |levels[l]| ensures Apart(levels[l][i], levels[l][j]) {
        assert BySmallest(levels[l][i], levels[l][j]);
        assert Compatible(l, levels[l][i], l, levels[l][j]);
      }
      OrderedApartSorted(levels[l]);
    }
    forall i, j | 0 <= i < |levels[0]| && 0 <= j < |levels[0]| && i != j
      ensures ZeroCompatible(levels[0][i], levels[0][j])
    {
      assert BySmallest(levels[0][i], levels[0][j]) || BySmallest(levels[0][j], levels[0][i]);
      assert Compatible(0, levels[0][i], 0, levels[0][j]);
    }
    forall l, m | 0 <= l < m < NUM_LEVELS ensures LevelNewer(levels[l], levels[m]) {
      forall i, j | 0 <= i < |levels[l]| && 0 <= j < |levels[m]| ensures FileNewer(levels[l][i], levels[m][j]) {
        assert Compatible(l, levels[l][i], m, levels[m][j]);
      }
    }
  }

  lemma MembersFromVersion(levels: seq<Files>)
    requires ValidVersion(levels)
    ensures AllValid(levels) && AllCompatible(levels)
  {
    forall l: nat, m: nat, f, g | l <= m < |levels| && f in levels[l] && g in levels[m] && (l < m || f != g)
      ensures Compatible(l, f, m, g)
    {
      var i :| 0 <= i < |levels[l]| && levels[l][i] == f;
      var j :| 0 <= j < |levels[m]| && levels[m][j] == g;
      if l < m {
        assert LevelNewer(levels[l], levels[m]);
      }
    }
  }

  // ----- File numbers -----

  // Every file of the version has its own number, all drawn from the counter.
  ghost predicate NumbersUnique(levels: seq<Files>, nextFile: nat) {
    && (forall l: nat, f :: l < |levels| && f in levels[l] ==> f.number < nextFile)
    && (forall l: nat, m: nat, f, g :: (l < |levels| && m < |levels| && f in levels[l] && g in levels[m] && f.number == g.number) ==>
          l == m && f == g)
  }

  // ----- An edit by membership -----

  ghost predicate EditedTo(levels: seq<Files>, e: VersionEdit, levels': seq<Files>) {
    && OrderedLevels(levels')
    && |levels| == NUM_LEVELS
    && forall l: nat, f :: l < NUM_LEVELS ==>
         (f in levels'[l] <==> (f in levels[l] && (l, f.number) !in e.deleted) || AddsFile(e.added, l, f))
  }

  // The added files carry new numbers, or the number of a file deleted elsewhere.
  ghost predicate FreshAdds(levels: seq<Files>, e: VersionEdit)
    requires |levels| == NUM_LEVELS && ValidEdit(e)
  {
    && (forall i, j :: 0 <= i < j < |e.added| ==> e.added[i].1.number != e.added[j].1.number)
    && (forall i :: 0 <= i < |e.added| ==> !HasNumber(levels[e.added[i].0], e.added[i].1.number))
  }

  lemma InstallEdits(levels: seq<Files>, e: VersionEdit)
    requires OrderedLevels(levels) && ValidEdit(e) && FreshAdds(levels, e)
    ensures EditedTo(levels, e, Install(levels, e))
  {
    forall l: nat | l < NUM_LEVELS
      ensures Ordered(Install(levels, e)[l])
      ensures forall f :: f in Install(levels, e)[l] <==>
                (f in levels[l] && (l, f.number) !in e.deleted) || AddsFile(e.added, l, f)
    {
      InstallContents(levels, e, l);
      forall n ensures n in DeletedAt(e.deleted, l) <==> (l, n) in e.deleted {
      }
    }
  }

  // ----- Flush -----

  function FlushEdit(f: FileMeta, level: nat): VersionEdit {
    VersionEdit({}, [(level, f)])
  }

  ghost predicate ClearDownTo(levels: seq<Files>, level: nat, f: FileMeta)
    requires |levels| == NUM_LEVELS
  {
    level > 0 ==> forall l :: 0 <= l <= level && l < NUM_LEVELS ==> !SomeOverlap(levels[l], Some(f.smallest.user), Some(f.largest.user))
  }

  lemma NoOverlapNoSharedKey(files: Files, f: FileMeta, g: FileMeta)
    requires ValidFile(f) && ValidFile(g) && g in files && !SomeOverlap(files, Some(f.smallest.user), Some(f.largest.user))
    ensures Apart(f, g) && FileNewer(f, g) && FileNewer(g, f)
  {
    var i :| 0 <= i < |files| && files[i] == g;
    assert !Overlaps(files[i], Some(f.smallest.user), Some(f.largest.user));
    forall d, e | d in f.entries && e in g.entries ensures d.key.user != e.key.user {
      EntryInRange(f, d);
      EntryInRange(g, e);
    }
  }

  lemma FlushKeepsVersion(levels: seq<Files>, f: FileMeta, level: nat, levels': seq<Files>, nextFile: nat)
    requires ValidVersion(levels) && NumbersUnique(levels, nextFile) && ValidFile(f) && f.number == nextFile && level < NUM_LEVELS
    requires Newer(Elems(f.entries), VersionEntries(levels)) && ClearDownTo(levels, level, f)
    requires EditedTo(levels, FlushEdit(f, level), levels')
    ensures ValidVersion(levels') && NumbersUnique(levels', nextFile + 1)
    ensures VersionEntries(levels') == VersionEntries(levels) + Elems(f.entries)
  {
    FlushMembers(levels, f, level, levels');
    FlushMembersValid(levels, f, level, levels', nextFile);
    FlushNumbers(levels, f, level, levels', nextFile);
    AddedEntries(levels, f, level, levels');
    VersionFromMembers(levels');
  }

  // levels' is levels with f put into one level.
  ghost predicate WithFile(levels: seq<Files>, f: FileMeta, level: nat, levels': seq<Files>) {
    && |levels| == |levels'| == NUM_LEVELS && level < NUM_LEVELS
    && forall l: nat, g :: l < NUM_LEVELS ==> (g in levels'[l] <==> g in levels[l] || (l == level && g == f))
  }

  lemma FlushMembers(levels: seq<Files>, f: FileMeta, level: nat, levels': seq<Files>)
    requires level < NUM_LEVELS && EditedTo(levels, FlushEdit(f, level), levels')
    ensures WithFile(levels, f, level, levels')
  {
    forall l: nat, g | l < NUM_LEVELS ensures g in levels'[l] <==> g in levels[l] || (l == level && g == f) {
      FlushAdds(f, level, l, g);
    }
  }

  lemma FlushMembersValid(levels: seq<Files>, f: FileMeta, level: nat, levels': seq<Files>, nextFile: nat)
    requires ValidVersion(levels) && NumbersUnique(levels, nextFile) && ValidFile(f) && f.number == nextFile
    requires Newer(Elems(f.entries), VersionEntries(levels)) && WithFile(levels, f, level, levels') && ClearDownTo(levels, level, f)
    ensures AllValid(levels') && AllCompatible(levels')
  {
    MembersFromVersion(levels);
    forall l: nat, m: nat, g, h | l <= m < |levels'| && g in levels'[l] && h in levels'[m] && (l < m || g != h)
      ensures Compatible(l, g, m, h)
    {
      PairAfterFlush(levels, f, level, levels', l, g, m, h);
    }
  }

  lemma PairAfterFlush(levels: seq<Files>, f: FileMeta, level: nat, levels': seq<Files>, l: nat, g: FileMeta, m: nat, h: FileMeta)
    requires WithFile(levels, f, level, levels') && AllValid(levels) && AllCompatible(levels) && ValidFile(f)
    requires Newer(Elems(f.entries), VersionEntries(levels)) && ClearDownTo(levels, level, f)
    requires forall k: nat, d :: k < |levels| && d in levels[k] ==> d.number < f.number
    requires l <= m < NUM_LEVELS && g in levels'[l] && h in levels'[m] && (l < m || g != h)
    ensures Compatible(l, g, m, h)
  {
    if g in levels[l] && h in levels[m] {
    } else if l == level && g == f {
      FlushedIsNewer(levels, f, m, h);
      if m == level && level > 0 {
        NoOverlapNoSharedKey(levels[m], f, h);
      }
    } else {
      FlushedIsNewer(levels, f, l, g);
      if level > 0 {
        NoOverlapNoSharedKey(levels[l], f, g);
      }
    }
  }

  lemma FlushNumbers(levels: seq<Files>, f: FileMeta, level: nat, levels': seq<Files>, nextFile: nat)
    requires WithFile(levels, f, level, levels') && NumbersUnique(levels, nextFile) && f.number == nextFile
    ensures NumbersUnique(levels', nextFile + 1)
  {
  }

  lemma AddedEntries(levels: seq<Files>, f: FileMeta, level: nat, levels': seq<Files>)
    requires WithFile(levels, f, level, levels')
    ensures VersionEntries(levels') == VersionEntries(levels) + Elems(f.entries)
  {
    forall e ensures InLevels(levels', e) <==> InLevels(levels, e) || e in f.entries {
      InLevelsMembers(levels, e);
      InLevelsMembers(levels', e);
      if e in f.entries {
        assert f in levels'[level];
      }
    }
  }

  ghost predicate InSomeFile(levels: seq<Files>, e: Entry) {
    exists l: nat, f :: l < |levels| && f in levels[l] && e in f.entries
  }

  lemma InLevelsMembers(levels: seq<Files>, e: Entry)
    ensures InLevels(levels, e) <==> InSomeFile(levels, e)
  {
    if InLevels(levels, e) {
      var l :| 0 <= l < |levels| && InFiles(levels[l], e);
      var i :| 0 <= i < |levels[l]| && e in levels[l][i].entries;
      assert levels[l][i] in levels[l];
    }
    if l: nat, f :| l < |levels| && f in levels[l] && e in f.entries {
      var i :| 0 <= i < |levels[l]| && levels[l][i] == f;
      assert InFiles(levels[l], e);
    }
  }

  lemma FlushAdds(f: FileMeta, level: nat, l: nat, g: FileMeta)
    ensures AddsFile(FlushEdit(f, level).added, l, g) <==> l == level && g == f
  {
    if l == level && g == f {
      assert FlushEdit(f, level).added[0] == (l, g);
    }
  }

  lemma FlushedIsNewer(levels: seq<Files>, f: FileMeta, m: nat, h: FileMeta)
    requires m < |levels| && h in levels[m] && Newer(Elems(f.entries), VersionEntries(levels))
    ensures FileNewer(f, h)
  {
    var j :| 0 <= j < |levels[m]| && levels[m][j] == h;
    forall d, e | d in f.entries && e in h.entries && d.key.user == e.key.user ensures d.key.sn > e.key.sn {
      assert InFiles(levels[m], e) && InLevels(levels, e);
      assert d in Elems(f.entries) && e in VersionEntries(levels);
    }
  }

  // ----- Moves and compactions -----

  function InputDeletions(level: nat, in0: Files, in1: Files): set<(nat, nat)> {
    (set f | f in in0 :: (level, f.number)) + (set f | f in in1 :: (level + 1, f.number))
  }

  // InstallCompactionResults; a trivial move is the same edit with outs == in0.
  function CompactionEdit(level: nat, in0: Files, in1: Files, outs: Files): VersionEdit {
    VersionEdit(InputDeletions(level, in0, in1), seq(|outs|, i requires 0 <= i < |outs| => (level + 1, outs[i])))
  }

  ghost predicate Replaced(levels: seq<Files>, level: nat, in0: Files, in1: Files, outs: Files, levels': seq<Files>) {
    && |levels| == |levels'| == NUM_LEVELS && level + 1 < NUM_LEVELS
    && forall l: nat, f :: l < NUM_LEVELS ==> (f in levels'[l] <==> InReplaced(levels, level, in0, in1, outs, l, f))
  }

  ghost predicate InReplaced(levels: seq<Files>, level: nat, in0: Files, in1: Files, outs: Files, l: nat, f: FileMeta)
    requires l < |levels|
  {
    || (f in levels[l] && !(l == level && f in in0) && !(l == level + 1 && f in in1))
    || (l == level + 1 && f in outs)
  }

  lemma ReplaceMembers(levels: seq<Files>, level: nat, in0: Files, in1: Files, outs: Files, levels': seq<Files>, nextFile: nat)
    requires level + 1 < NUM_LEVELS && NumbersUnique(levels, nextFile)
    requires EditedTo(levels, CompactionEdit(level, in0, in1, outs), levels')
    requires (forall f :: f in in0 ==> f in levels[level]) && (forall f :: f in in1 ==> f in levels[level + 1])
    ensures Replaced(levels, level, in0, in1, outs, levels')
  {
    var e := CompactionEdit(level, in0, in1, outs);
    forall l: nat, f | l < NUM_LEVELS
      ensures f in levels'[l] <==> InReplaced(levels, level, in0, in1, outs, l, f)
    {
      EditAdds(level, in0, in1, outs, l, f);
      if f in levels[l] {
        EditDeletes(levels, level, in0, in1, l, f, nextFile);
      }
    }
  }

  lemma EditAdds(level: nat, in0: Files, in1: Files, outs: Files, l: nat, f: FileMeta)
    ensures AddsFile(CompactionEdit(level, in0, in1, outs).added, l, f) <==> l == level + 1 && f in outs
  {
    var e := CompactionEdit(level, in0, in1, outs);
    if l == level + 1 && f in outs {
      var i :| 0 <= i < |outs| && outs[i] == f;
      assert e.added[i] == (l, f);
    }
  }

  lemma EditDeletes(levels: seq<Files>, level: nat, in0: Files, in1: Files, l: nat, f: FileMeta, nextFile: nat)
    requires level + 1 < |levels| && NumbersUnique(levels, nextFile) && l < |levels| && f in levels[l]
    requires (forall f :: f in in0 ==> f in levels[level]) && (forall f :: f in in1 ==> f in levels[level + 1])
    ensures (l, f.number) in InputDeletions(level, in0, in1) <==> (l == level && f in in0) || (l == level + 1 && f in in1)
  {
    if (l, f.number) in InputDeletions(level, in0, in1) {
      if g :| g in in0 && (level, g.number) == (l, f.number) {
        assert g == f;
      } else {
        var g :| g in in1 && (level + 1, g.number) == (l, f.number);
        assert g == f;
      }
    }
  }

  ghost predicate MadeOf(outs: Files, in0: Files, in1: Files) {
    forall e :: InFiles(outs, e) ==> InFiles(in0, e) || InFiles(in1, e)
  }

  lemma MemberHolds(files: Files, f: FileMeta, e: Entry)
    requires f in files && e in f.entries
    ensures InFiles(files, e)
  {
    var i :| 0 <= i < |files| && files[i] == f;
  }

  lemma HolderOf(files: Files, e: Entry) returns (f: FileMeta)
    requires InFiles(files, e)
    ensures f in files && e in f.entries
  {
    var i :| 0 <= i < |files| && e in files[i].entries;
    f := files[i];
  }

  // A file left in the output level lies entirely on one side of every input.
  lemma LeftFileIsAside(levels: seq<Files>, level: nat, in0: Files, in1: Files, h: FileMeta, o: FileMeta)
    requires AllValid(levels) && AllCompatible(levels) && level + 1 < |levels|
    requires (forall f :: f in in0 ==> f in levels[level]) && TakesOverlaps(levels[level + 1], in0, in1)
    requires h in levels[level + 1] && h !in in1 && ValidFile(o)
    requires forall e :: e in o.entries ==> InFiles(in0, e) || InFiles(in1, e)
    ensures Apart(o, h)
  {
    EntryInRange(h, h.entries[0]);
    var first, last := o.entries[0], o.entries[|o.entries| - 1];
    if BeforeAll(h, in0) {
      AsideBefore(levels, level, in0, in1, h, first);
    } else {
      AsideAfter(levels, level, in0, in1, h, last);
    }
  }

  lemma AsideBefore(levels: seq<Files>, level: nat, in0: Files, in1: Files, h: FileMeta, e: Entry)
    requires AllValid(levels) && AllCompatible(levels) && level + 1 < |levels|
    requires (forall f :: f in in0 ==> f in levels[level]) && TakesOverlaps(levels[level + 1], in0, in1)
    requires h in levels[level + 1] && h !in in1 && BeforeAll(h, in0)
    requires InFiles(in0, e) || InFiles(in1, e)
    ensures Less(h.largest, e.key)
  {
    EntryInRange(h, h.entries[0]);
    if InFiles(in0, e) {
      var f := HolderOf(in0, e);
      EntryInRange(f, e);
    } else {
      var k := HolderOf(in1, e);
      EntryInRange(k, e);
      assert Compatible(level + 1, k, level + 1, h);
      assert !BeforeAll(k, in0);
      var f :| f in in0 && k.largest.user >= f.smallest.user;
    }
  }

  lemma AsideAfter(levels: seq<Files>, level: nat, in0: Files, in1: Files, h: FileMeta, e: Entry)
    requires AllValid(levels) && AllCompatible(levels) && level + 1 < |levels|
    requires (forall f :: f in in0 ==> f in levels[level]) && TakesOverlaps(levels[level + 1], in0, in1)
    requires h in levels[level + 1] && h !in in1 && AfterAll(h, in0)
    requires InFiles(in0, e) || InFiles(in1, e)
    ensures Less(e.key, h.smallest)
  {
    EntryInRange(h, h.entries[0]);
    if InFiles(in0, e) {
      var f := HolderOf(in0, e);
      EntryInRange(f, e);
    } else {
      var k := HolderOf(in1, e);
      EntryInRange(k, e);
      assert Compatible(level + 1, k, level + 1, h);
      assert !AfterAll(k, in0);
      var f :| f in in0 && f.largest.user >= k.smallest.user;
    }
  }

  // Outputs stand to the rest of the version as the inputs did.
  lemma OutputBelow(levels: seq<Files>, level: nat, in0: Files, in1: Files, o: FileMeta, m: nat, h: FileMeta)
    requires AllCompatible(levels) && level + 1 < m < |levels| && h in levels[m]
    requires (forall f :: f in in0 ==> f in levels[level]) && (forall f :: f in in1 ==> f in levels[level + 1])
    requires forall e :: e in o.entries ==> InFiles(in0, e) || InFiles(in1, e)
    ensures FileNewer(o, h)
  {
    forall d, e | d in o.entries && e in h.entries && d.key.user == e.key.user ensures d.key.sn > e.key.sn {
      if InFiles(in0, d) {
        var f := HolderOf(in0, d);
        assert Compatible(level, f, m, h);
      } else {
        var f := HolderOf(in1, d);
        assert Compatible(level + 1, f, m, h);
      }
    }
  }

  lemma OutputAbove(levels: seq<Files>, level: nat, in0: Files, in1: Files, o: FileMeta, l: nat, g: FileMeta)
    requires AllCompatible(levels) && l <= level && level + 1 < |levels| && g in levels[l] && (l == level ==> g !in in0)
    requires (forall f :: f in in0 ==> f in levels[level]) && (forall f :: f in in1 ==> f in levels[level + 1])
    requires OlderClosed(levels[level], in0)
    requires forall e :: e in o.entries ==> InFiles(in0, e) || InFiles(in1, e)
    ensures FileNewer(g, o)
  {
    forall d, e | d in g.entries && e in o.entries && d.key.user == e.key.user ensures d.key.sn > e.key.sn {
      if InFiles(in0, e) {
        var f := HolderOf(in0, e);
        assert l < level ==> Compatible(l, g, level, f);
        assert FileNewer(g, f);
      } else {
        var f := HolderOf(in1, e);
        assert Compatible(l, g, level + 1, f);
      }
    }
  }

  lemma PairAfterReplace(levels: seq<Files>, level: nat, in0: Files, in1: Files, outs: Files, levels': seq<Files>,
                         l: nat, g: FileMeta, m: nat, h: FileMeta)
    requires Replaced(levels, level, in0, in1, outs, levels') && AllValid(levels) && AllCompatible(levels)
    requires forall f :: f in in0 ==> f in levels[level]
    requires TakesOverlaps(levels[level + 1], in0, in1) && OlderClosed(levels[level], in0)
    requires ValidFiles(outs) && SortedFiles(outs) && MadeOf(outs, in0, in1)
    requires l <= m < NUM_LEVELS && g in levels'[l] && h in levels'[m] && (l < m || g != h)
    ensures Compatible(l, g, m, h)
  {
    var gOld := g in levels[l] && !(l == level && g in in0) && !(l == level + 1 && g in in1);
    var hOld := h in levels[m] && !(m == level && h in in0) && !(m == level + 1 && h in in1);
    if gOld && hOld {
    } else if gOld {
      MadeOfMember(outs, in0, in1, h);
      if l == m {
        LeftFileIsAside(levels, level, in0, in1, g, h);
      } else {
        OutputAbove(levels, level, in0, in1, h, l, g);
      }
    } else if hOld {
      MadeOfMember(outs, in0, in1, g);
      if l == m {
        LeftFileIsAside(levels, level, in0, in1, h, g);
      } else {
        OutputBelow(levels, level, in0, in1, g, m, h);
      }
    } else {
      OutputsApart(outs, g, h);
    }
  }

  lemma MadeOfMember(outs: Files, in0: Files, in1: Files, o: FileMeta)
    requires o in outs && MadeOf(outs, in0, in1) && ValidFiles(outs)
    ensures ValidFile(o) && forall e :: e in o.entries ==> InFiles(in0, e) || InFiles(in1, e)
  {
    forall e | e in o.entries ensures InFiles(in0, e) || InFiles(in1, e) {
      MemberHolds(outs, o, e);
    }
  }

  lemma OutputsApart(outs: Files, g: FileMeta, h: FileMeta)
    requires g in outs && h in outs && g != h && SortedFiles(outs)
    ensures Apart(g, h)
  {
    var i :| 0 <= i < |outs| && outs[i] == g;
    var j :| 0 <= j < |outs| && outs[j] == h;
  }

  // Replacing the inputs by files made of their entries keeps the version valid.
  lemma ReplaceKeepsVersion(levels: seq<Files>, level: nat, in0: Files, in1: Files, outs: Files, levels': seq<Files>)
    requires ValidVersion(levels) && OrderedLevels(levels') && Replaced(levels, level, in0, in1, outs, levels')
    requires forall f :: f in in0 ==> f in levels[level]
    requires TakesOverlaps(levels[level + 1], in0, in1) && OlderClosed(levels[level], in0)
    requires ValidFiles(outs) && SortedFiles(outs) && MadeOf(outs, in0, in1)
    ensures ValidVersion(levels')
  {
    MembersFromVersion(levels);
    forall l: nat, m: nat, g, h | l <= m < |levels'| && g in levels'[l] && h in levels'[m] && (l < m || g != h)
      ensures Compatible(l, g, m, h)
    {
      PairAfterReplace(levels, level, in0, in1, outs, levels', l, g, m, h);
    }
    VersionFromMembers(levels');
  }

  // ----- What a replacement does to the entries -----

  lemma SoleHolder(levels: seq<Files>, l: nat, f: FileMeta, m: nat, g: FileMeta, e: Entry)
    requires AllValid(levels) && AllCompatible(levels) && l <= m < |levels|
    requires f in levels[l] && g in levels[m] && e in f.entries && e in g.entries
    ensures l == m && f == g
  {
    EntryInRange(f, e);
    EntryInRange(g, e);
    assert l < m || f != g ==> Compatible(l, f, m, g);
  }

  ghost function InputEntries(in0: Files, in1: Files): iset<Entry> {
    LevelEntries(in0) + LevelEntries(in1)
  }

  lemma ReplacedEntries(levels: seq<Files>, level: nat, in0: Files, in1: Files, outs: Files, levels': seq<Files>, e: Entry)
    requires ValidVersion(levels) && Replaced(levels, level, in0, in1, outs, levels')
    requires (forall f :: f in in0 ==> f in levels[level]) && (forall f :: f in in1 ==> f in levels[level + 1])
    ensures InLevels(levels', e) <==> (InLevels(levels, e) && e !in InputEntries(in0, in1)) || InFiles(outs, e)
  {
    InLevelsMembers(levels, e);
    InLevelsMembers(levels', e);
    if InSomeFile(levels', e) {
      EntryAfter(levels, level, in0, in1, outs, levels', e);
    }
    if InLevels(levels, e) && e !in InputEntries(in0, in1) {
      EntrySurvives(levels, level, in0, in1, outs, levels', e);
    }
    if InFiles(outs, e) {
      var f := HolderOf(outs, e);
      assert f in levels'[level + 1];
    }
  }

  lemma EntryAfter(levels: seq<Files>, level: nat, in0: Files, in1: Files, outs: Files, levels': seq<Files>, e: Entry)
    requires ValidVersion(levels) && Replaced(levels, level, in0, in1, outs, levels') && InSomeFile(levels', e)
    requires (forall f :: f in in0 ==> f in levels[level]) && (forall f :: f in in1 ==> f in levels[level + 1])
    ensures (InSomeFile(levels, e) && e !in InputEntries(in0, in1)) || InFiles(outs, e)
  {
    var l: nat, f :| l < |levels'| && f in levels'[l] && e in f.entries;
    if l == level + 1 && f in outs {
      MemberHolds(outs, f, e);
    } else {
      MembersFromVersion(levels);
      NotFromInputs(levels, level, in0, in1, l, f, e);
    }
  }

  lemma EntrySurvives(levels: seq<Files>, level: nat, in0: Files, in1: Files, outs: Files, levels': seq<Files>, e: Entry)
    requires Replaced(levels, level, in0, in1, outs, levels') && InSomeFile(levels, e) && e !in InputEntries(in0, in1)
    ensures InSomeFile(levels', e)
  {
    var l: nat, f :| l < |levels| && f in levels[l] && e in f.entries;
    if f in in0 { MemberHolds(in0, f, e); }
    if f in in1 { MemberHolds(in1, f, e); }
    assert f in levels'[l];
  }

  lemma NotFromInputs(levels: seq<Files>, level: nat, in0: Files, in1: Files, l: nat, f: FileMeta, e: Entry)
    requires AllValid(levels) && AllCompatible(levels) && l < |levels| && level + 1 < |levels|
    requires (forall f :: f in in0 ==> f in levels[level]) && (forall f :: f in in1 ==> f in levels[level + 1])
    requires f in levels[l] && e in f.entries && !(l == level && f in in0) && !(l == level + 1 && f in in1)
    ensures e !in InputEntries(in0, in1)
  {
    if InFiles(in0, e) {
      var g := HolderOf(in0, e);
      if l <= level { SoleHolder(levels, l, f, level, g, e); } else { SoleHolder(levels, level, g, l, f, e); }
    }
    if InFiles(in1, e) {
      var g := HolderOf(in1, e);
      if l <= level + 1 { SoleHolder(levels, l, f, level + 1, g, e); } else { SoleHolder(levels, level + 1, g, l, f, e); }
    }
  }
}
