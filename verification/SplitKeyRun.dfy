// A run of the store that leaves two versions of one key in adjacent files.
module SplitKeyRuns {
  import opened Wrappers
  import opened InternalKeys
  import opened Versions
  import opened Compactions
  import opened VersionEdits
  import opened Installs
  import opened Store
  import opened SplitKeys

  const FLUSHED := FileMeta(2, 1, NEW_ENTRY.key, OLD_ENTRY.key, [NEW_ENTRY, OLD_ENTRY])

  // Two writes of key 7 with a snapshot between them, a flush, and a compaction of
  // level 0 whose output is cut between the two versions.
  function Actions(): seq<Action> {
    [Write([Op(7, Put, "old")]), Snap, Write([Op(7, Put, "new")]), Switch, Flush(0, 1),
     Compact(0, [FLUSHED], [], [NEW_FILE, OLD_FILE], 1)]
  }

  function NoLevels(): seq<Files> {
    seq(NUM_LEVELS, _ => [])
  }

  function LevelZero(): seq<Files> {
    seq(NUM_LEVELS, l => if l == 0 then [FLUSHED] else [])
  }

  function States(): seq<State> {
    var first, second := Op(7, Put, "old"), Op(7, Put, "new");
    var history := [first, second];
    [Empty(),
     State([OLD_ENTRY], None, NoLevels(), 1, 2, [], [first]),
     State([OLD_ENTRY], None, NoLevels(), 1, 2, [1], [first]),
     State([NEW_ENTRY, OLD_ENTRY], None, NoLevels(), 2, 2, [1], history),
     State([], Some([NEW_ENTRY, OLD_ENTRY]), NoLevels(), 2, 2, [1], history),
     State([], None, LevelZero(), 2, 3, [1], history),
     State([], None, Levels([NEW_FILE, OLD_FILE], []), 2, 5, [1], history)]
  }

  lemma SameLevels(a: seq<Files>, b: seq<Files>)
    requires OrderedLevels(a) && OrderedLevels(b) && forall l: nat, f :: l < NUM_LEVELS ==> (f in a[l] <==> f in b[l])
    ensures a == b
  {
    forall l: nat | l < NUM_LEVELS ensures a[l] == b[l] {
      OrderedUnique(a[l], b[l]);
    }
  }

  lemma Writes()
    ensures var s := States(); Next(s[0], Actions()[0], s[1]) && Next(s[1], Actions()[1], s[2])
    ensures var s := States(); Next(s[2], Actions()[2], s[3]) && Next(s[3], Actions()[3], s[4])
  {
    var s := States();
    OneWrite(s[0], Op(7, Put, "old"));
    OneWrite(s[2], Op(7, Put, "new"));
    assert NoLevels() == Empty().levels;
    assert AddToTable([], OLD_ENTRY) == [OLD_ENTRY];
    assert AddToTable([OLD_ENTRY], NEW_ENTRY) == [NEW_ENTRY, OLD_ENTRY];
    assert [Op(7, Put, "old")] + [Op(7, Put, "new")] == s[3].history;
  }

  lemma OneWrite(st: State, op: Op)
    ensures WriteBatch(st, [op]) == WriteOne(st, op)
  {
    assert [op][..0] == [];
  }

  lemma EditGives(levels: seq<Files>, e: VersionEdit, target: seq<Files>)
    requires OrderedLevels(levels) && ValidEdit(e) && FreshAdds(levels, e) && OrderedLevels(target)
    requires forall l: nat, f :: l < NUM_LEVELS ==>
      (f in target[l] <==> (f in levels[l] && (l, f.number) !in e.deleted) || AddsFile(e.added, l, f))
    ensures Install(levels, e) == target
  {
    hide FreshAdds, Install;
    InstallEdits(levels, e);
    forall l: nat, f | l < NUM_LEVELS ensures f in Install(levels, e)[l] <==> f in target[l] {
      assert f in Install(levels, e)[l] <==> (f in levels[l] && (l, f.number) !in e.deleted) || AddsFile(e.added, l, f);
    }
    SameLevels(Install(levels, e), target);
  }

  lemma FlushGives()
    ensures ValidEdit(FlushEdit(FLUSHED, 0)) && Install(NoLevels(), FlushEdit(FLUSHED, 0)) == LevelZero()
  {
    hide Install, FreshAdds, NumbersUnique, OrderedLevels;
    var e := FlushEdit(FLUSHED, 0);
    EmptyVersion();
    assert NoLevels() == Empty().levels;
    LevelZeroNumbers();
    FlushIsFresh(NoLevels(), FLUSHED, 0, 2);
    forall l: nat, f | l < NUM_LEVELS ensures f in LevelZero()[l] <==> AddsFile(e.added, l, f) {
      assert e.added[0] == (0, FLUSHED);
    }
    EditGives(NoLevels(), e, LevelZero());
  }

  lemma FlushInstallsIt()
    ensures var s := States(); Next(s[4], Actions()[4], s[5])
  {
    hide Install;
    FlushGives();
    assert TableFor([NEW_ENTRY, OLD_ENTRY], 2, 1) == FLUSHED;
  }

  lemma LevelZeroMembers(l: nat, f: FileMeta)
    requires l < NUM_LEVELS
    ensures f in LevelZero()[l] <==> l == 0 && f == FLUSHED
  {
  }

  lemma LevelZeroNumbers()
    ensures NumbersUnique(LevelZero(), 3) && OrderedLevels(LevelZero()) && OrderedLevels(Levels([NEW_FILE, OLD_FILE], []))
  {
    hide OrderedLevels, LevelZero, NumbersUnique;
    UniqueThere();
    OrderedThere();
    OrderedHere();
  }

  lemma UniqueThere()
    ensures NumbersUnique(LevelZero(), 3)
  {
    assert |LevelZero()| == NUM_LEVELS;
    hide LevelZero;
    forall l: nat, f | l < NUM_LEVELS && f in LevelZero()[l] ensures l == 0 && f == FLUSHED {
      LevelZeroMembers(l, f);
    }
  }

  lemma OrderedThere()
    ensures OrderedLevels(LevelZero())
  {
    assert forall l: nat :: l < NUM_LEVELS ==> |LevelZero()[l]| <= 1;
  }

  lemma OrderedHere()
    ensures OrderedLevels(Levels([NEW_FILE, OLD_FILE], []))
  {
    assert BySmallest(NEW_FILE, OLD_FILE);
  }

  lemma CompactionInstallsIt()
    ensures Install(LevelZero(), CompactionEdit(0, [FLUSHED], [], [NEW_FILE, OLD_FILE])) == Levels([NEW_FILE, OLD_FILE], [])
  {
    hide Install, NumbersUnique, FreshAdds, OrderedLevels;
    var e, target := CompactionEdit(0, [FLUSHED], [], [NEW_FILE, OLD_FILE]), Levels([NEW_FILE, OLD_FILE], []);
    LevelZeroNumbers();
    assert LevelZero()[0] == [FLUSHED];
    CompactionIsFresh(LevelZero(), 0, [FLUSHED], [], [NEW_FILE, OLD_FILE], 3);
    forall l: nat, f | l < NUM_LEVELS
      ensures f in target[l] <==> (f in LevelZero()[l] && (l, f.number) !in e.deleted) || AddsFile(e.added, l, f)
    {
      CompactedAt(l, f);
    }
    EditGives(LevelZero(), e, target);
  }

  lemma CompactedAt(l: nat, f: FileMeta)
    requires l < NUM_LEVELS
    ensures var e, target := CompactionEdit(0, [FLUSHED], [], [NEW_FILE, OLD_FILE]), Levels([NEW_FILE, OLD_FILE], []);
      f in target[l] <==> (f in LevelZero()[l] && (l, f.number) !in e.deleted) || AddsFile(e.added, l, f)
  {
    var e := CompactionEdit(0, [FLUSHED], [], [NEW_FILE, OLD_FILE]);
    assert FLUSHED in [FLUSHED] && (0, FLUSHED.number) in e.deleted;
    assert e.added[0] == (1, NEW_FILE) && e.added[1] == (1, OLD_FILE);
  }

  // Neither version may be dropped: the snapshot still sees the old one.
  lemma BothSurvive()
    ensures MergedInto(LevelZero(), 0, [FLUSHED], [], 1, [NEW_FILE, OLD_FILE], 3)
  {
    var ins := InputEntries([FLUSHED], []);
    var outs := [NEW_FILE, OLD_FILE];
    assert ValidFile(NEW_FILE) && ValidFile(OLD_FILE) && SortedFiles(outs);
    assert [FLUSHED][0] == FLUSHED && outs[0] == NEW_FILE && outs[1] == OLD_FILE;
    assert FLUSHED.entries[0] == NEW_ENTRY && FLUSHED.entries[1] == OLD_ENTRY;
    forall e ensures InFiles(outs, e) <==> e == NEW_ENTRY || e == OLD_ENTRY {
    }
    forall e ensures e in ins <==> e == NEW_ENTRY || e == OLD_ENTRY {
    }
    assert !Dropped(LevelZero(), 0, ins, 1, NEW_ENTRY) && !Dropped(LevelZero(), 0, ins, 1, OLD_ENTRY);
  }

  lemma Compacts()
    ensures var s := States(); Next(s[5], Actions()[5], s[6])
  {
    hide Install, MergedInto;
    CompactionInstallsIt();
    BothSurvive();
    assert [FLUSHED][0] == FLUSHED;
  }

  // The run reaches the version of SplitKeyGoesStale: the move that a size-triggered
  // compaction of its first file makes turns the read of the last write into one of
  // the write before it.
  lemma SplitKeyIsReached()
    ensures Run(States(), Actions()) && States()[6].levels == Levels([NEW_FILE, OLD_FILE], [])
    ensures Inv(States()[6]) && Answers(Requested(Actions()), 7, 2, Some("new"))
    ensures Meaning(Lookup(States()[6], 7, 2)) == Some("new")
    ensures Movable(States()[6].levels, 1, NEW_FILE, Levels([OLD_FILE], [NEW_FILE]))
    ensures Readable(Levels([OLD_FILE], [NEW_FILE]))
    ensures Meaning(Lookup(States()[6].(levels := Levels([OLD_FILE], [NEW_FILE])), 7, 2)) == Some("old")
  {
    Writes();
    FlushInstallsIt();
    Compacts();
    hide Next, Install, Answers, Lookup, Requested, Live;
    var states, actions := States(), Actions();
    forall i | 0 <= i < |actions| ensures Next(states[i], actions[i], states[i + 1]) {
      assert i == 0 || i == 1 || i == 2 || i == 3 || i == 4 || i == 5;
    }
    assert Run(states, actions);
    assert actions[..6] == actions;
    RunRequested(states, actions, 6);
    RunsReadLastWrites(states, actions, 6, 7, 2);
    SecondWriteCounts(Requested(actions), Meaning(Lookup(states[6], 7, 2)));
    SplitKeyGoesStale();
    NothingInMemory(states[6].(levels := Levels([OLD_FILE], [NEW_FILE])), 7, 2);
  }

  lemma SecondWriteCounts(ops: seq<Op>, r: Option<Value>)
    requires ops == [Op(7, Put, "old"), Op(7, Put, "new")]
    ensures Answers(ops, 7, 2, r) <==> r == Some("new")
  {
    assert IsLastOn(ops, 7, 2, 1);
  }

  lemma NothingInMemory(st: State, user: UserKey, s: nat)
    requires st.mem == [] && st.imm == None && Readable(st.levels)
    ensures Lookup(st, user, s) == Walk(st.levels, user, s)
  {
    hide Walk;
    assert TableGet(st.mem, user, s) == None && TableGet(Imm(st), user, s) == None;
    ThirdLayer(Walk(st.levels, user, s));
  }

  lemma ThirdLayer(hit: Option<Entry>)
    ensures FirstSome([None, None, hit]) == hit
  {
    FirstSomeIndex([None, None, hit]);
    assert [None, None, hit][2] == hit;
  }
}
