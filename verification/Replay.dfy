// When one builder that takes every edit of a manifest gives what installing the
// edits one at a time gave (VersionSet::Recover, leveldb/db/version_set.cc).
module Replays {
  import opened InternalKeys
  import opened Versions
  import opened VersionEdits

  // ----- The files under one smallest key and number -----

  predicate IsUnder(f: FileMeta, k: Key, n: nat) {
    f.smallest == k && f.number == n
  }

  function Under(files: Files, k: Key, n: nat): Files {
    if files == [] then [] else (if IsUnder(files[0], k, n) then [files[0]] else []) + Under(files[1..], k, n)
  }

  // Equivalent files may stand next to each other.
  ghost predicate InOrder(files: Files) {
    forall i, j :: 0 <= i < j < |files| ==> !BySmallest(files[j], files[i])
  }

  lemma OrderedInOrder(files: Files)
    requires Ordered(files)
    ensures InOrder(files)
  {
  }

  lemma {:induction false} UnderMember(files: Files, k: Key, n: nat, i: nat)
    requires i < |files| && IsUnder(files[i], k, n)
    ensures Under(files, k, n) != []
  {
    if i > 0 {
      UnderMember(files[1..], k, n, i - 1);
    }
  }

  lemma {:induction false} UnderSome(files: Files, k: Key, n: nat) returns (i: nat)
    requires Under(files, k, n) != []
    ensures i < |files| && IsUnder(files[i], k, n)
  {
    if IsUnder(files[0], k, n) {
      i := 0;
    } else {
      i := UnderSome(files[1..], k, n);
      i := i + 1;
    }
  }

  lemma NoneUnder(files: Files, k: Key, n: nat)
    requires forall i :: 0 <= i < |files| ==> !IsUnder(files[i], k, n)
    ensures Under(files, k, n) == []
  {
    if Under(files, k, n) != [] {
      var i := UnderSome(files, k, n);
    }
  }

  // A list in order is determined by what is under each key and number.
  lemma {:induction false} SameUnder(a: Files, b: Files)
    requires InOrder(a) && InOrder(b) && forall k, n :: Under(a, k, n) == Under(b, k, n)
    ensures a == b
  {
    if a == [] {
      if b != [] {
        UnderMember(b, b[0].smallest, b[0].number, 0);
      }
    } else {
      var k, n := a[0].smallest, a[0].number;
      UnderMember(a, k, n, 0);
      var i := UnderSome(b, k, n);
      UnderMember(b, b[0].smallest, b[0].number, 0);
      var j := UnderSome(a, b[0].smallest, b[0].number);
      FirstOfBoth(a, b, i, j);
      assert Under(a, k, n)[0] == a[0] && Under(b, k, n)[0] == b[0];
      forall k', n' ensures Under(a[1..], k', n') == Under(b[1..], k', n') {
        UnderTail(a, k', n');
        UnderTail(b, k', n');
      }
      SameUnder(a[1..], b[1..]);
      assert a == [a[0]] + a[1..] && b == [b[0]] + b[1..];
    }
  }

  lemma FirstOfBoth(a: Files, b: Files, i: nat, j: nat)
    requires InOrder(a) && InOrder(b) && i < |b| && j < |a| && Equivalent(b[i], a[0]) && Equivalent(a[j], b[0])
    ensures Equivalent(a[0], b[0])
  {
    assert !BySmallest(a[j], a[0]) && !BySmallest(b[i], b[0]);
  }

  lemma UnderTail(a: Files, k: Key, n: nat)
    requires a != []
    ensures Under(a[1..], k, n) == if IsUnder(a[0], k, n) then Under(a, k, n)[1..] else Under(a, k, n)
  {
  }

  // ----- One level saved -----

  lemma {:induction false} MergeMembers(base: Files, added: Files)
    ensures forall f :: f in Merge(base, added) ==> f in base || f in added
    decreases |base| + |added|
  {
    if added != [] && base != [] {
      if BySmallest(added[0], base[0]) {
        MergeMembers(base, added[1..]);
      } else {
        MergeMembers(base[1..], added);
      }
    }
  }

  lemma {:induction false} MergeInOrder(base: Files, added: Files)
    requires InOrder(base) && InOrder(added)
    ensures InOrder(Merge(base, added))
    decreases |base| + |added|
  {
    if added != [] && base != [] {
      var first, rest;
      if BySmallest(added[0], base[0]) {
        first, rest := added[0], Merge(base, added[1..]);
        MergeInOrder(base, added[1..]);
        MergeMembers(base, added[1..]);
      } else {
        first, rest := base[0], Merge(base[1..], added);
        MergeInOrder(base[1..], added);
        MergeMembers(base[1..], added);
      }
      forall j | 0 <= j < |rest| ensures !BySmallest(rest[j], first) {
        assert rest[j] in rest;
      }
    }
  }

  lemma {:induction false} UnderMerge(base: Files, added: Files, k: Key, n: nat)
    requires InOrder(base)
    ensures Under(Merge(base, added), k, n) == Under(base, k, n) + Under(added, k, n)
    decreases |base| + |added|
  {
    if added != [] && base != [] {
      UnderFirst(added[0], added[1..], k, n);
      UnderFirst(base[0], base[1..], k, n);
      assert added == [added[0]] + added[1..] && base == [base[0]] + base[1..];
      if BySmallest(added[0], base[0]) {
        UnderMerge(base, added[1..], k, n);
        UnderFirst(added[0], Merge(base, added[1..]), k, n);
        NoneAfter(added[0], base, k, n);
      } else {
        UnderMerge(base[1..], added, k, n);
        UnderFirst(base[0], Merge(base[1..], added), k, n);
      }
    }
  }

  lemma NoneAfter(f: FileMeta, files: Files, k: Key, n: nat)
    requires InOrder(files) && files != [] && BySmallest(f, files[0])
    ensures IsUnder(f, k, n) ==> Under(files, k, n) == []
  {
    if IsUnder(f, k, n) {
      forall i | 0 <= i < |files| ensures !IsUnder(files[i], k, n) {
        assert i == 0 || !BySmallest(files[i], files[0]);
      }
      NoneUnder(files, k, n);
    }
  }

  lemma UnderFirst(f: FileMeta, rest: Files, k: Key, n: nat)
    ensures Under([f] + rest, k, n) == (if IsUnder(f, k, n) then [f] else []) + Under(rest, k, n)
  {
    assert ([f] + rest)[1..] == rest;
  }

  lemma {:induction false} UndeletedMembers(files: Files, deleted: set<nat>)
    ensures forall f :: f in Undeleted(files, deleted) ==> f in files
  {
    if files != [] {
      UndeletedMembers(files[1..], deleted);
    }
  }

  lemma {:induction false} UndeletedInOrder(files: Files, deleted: set<nat>)
    requires InOrder(files)
    ensures InOrder(Undeleted(files, deleted))
  {
    if files != [] {
      UndeletedInOrder(files[1..], deleted);
      UndeletedMembers(files[1..], deleted);
      var rest := Undeleted(files[1..], deleted);
      forall j | 0 <= j < |rest| ensures !BySmallest(rest[j], files[0]) {
        assert rest[j] in rest;
      }
    }
  }

  lemma {:induction false} UnderUndeleted(files: Files, deleted: set<nat>, k: Key, n: nat)
    ensures Under(Undeleted(files, deleted), k, n) == if n in deleted then [] else Under(files, k, n)
  {
    if files != [] {
      UnderUndeleted(files[1..], deleted, k, n);
      var rest := Undeleted(files[1..], deleted);
      assert [] + rest == rest && ([files[0]] + rest)[1..] == rest;
    }
  }

  lemma UnderSaved(base: Files, s: LevelState, k: Key, n: nat)
    requires InOrder(base) && Ordered(s.addedFiles)
    ensures InOrder(SaveLevel(base, s))
    ensures Under(SaveLevel(base, s), k, n) ==
            if n in s.deletedFiles then [] else Under(base, k, n) + Under(s.addedFiles, k, n)
  {
    OrderedInOrder(s.addedFiles);
    MergeInOrder(base, s.addedFiles);
    UndeletedInOrder(Merge(base, s.addedFiles), s.deletedFiles);
    UnderMerge(base, s.addedFiles, k, n);
    UnderUndeleted(Merge(base, s.addedFiles), s.deletedFiles, k, n);
  }

  lemma {:induction false} UnderInserted(f: FileMeta, files: Files, k: Key, n: nat)
    requires Ordered(files)
    ensures Under(InsertFile(f, files), k, n) ==
            if IsUnder(f, k, n) && Under(files, k, n) == [] then [f] else Under(files, k, n)
  {
    if files != [] {
      if Equivalent(f, files[0]) {
      } else if BySmallest(f, files[0]) {
        if IsUnder(f, k, n) {
          NoneUnder(files, k, n);
        }
      } else {
        UnderInserted(f, files[1..], k, n);
      }
    }
  }

  // ----- One edit -----

  // The first file of the list that goes to the level under this key and number.
  function FirstAdded(added: seq<(nat, FileMeta)>, l: nat, k: Key, n: nat): Files {
    if added == [] then []
    else
      var before, last := FirstAdded(added[..|added| - 1], l, k, n), added[|added| - 1];
      if before == [] && last.0 == l && IsUnder(last.1, k, n) then [last.1] else before
  }

  // The edit takes the number out of the level.
  ghost predicate Kills(e: VersionEdit, l: nat, n: nat) {
    (l, n) in e.deleted && !AddsNumber(e.added, l, n)
  }

  lemma {:induction false} AddsNext(added: seq<(nat, FileMeta)>, l: nat, n: nat)
    requires added != []
    ensures AddsNumber(added, l, n) <==>
            AddsNumber(added[..|added| - 1], l, n) || (added[|added| - 1].0 == l && added[|added| - 1].1.number == n)
  {
    var front := added[..|added| - 1];
    if AddsNumber(front, l, n) {
      var i :| 0 <= i < |front| && front[i].0 == l && front[i].1.number == n;
      assert added[i].0 == l;
    }
    if AddsNumber(added, l, n) {
      var i :| 0 <= i < |added| && added[i].0 == l && added[i].1.number == n;
      assert i < |front| ==> front[i].0 == l;
    }
  }

  lemma {:induction false} FirstAddedNumber(added: seq<(nat, FileMeta)>, l: nat, k: Key, n: nat)
    ensures FirstAdded(added, l, k, n) != [] ==> AddsNumber(added, l, n) && |FirstAdded(added, l, k, n)| == 1
  {
    if added != [] {
      FirstAddedNumber(added[..|added| - 1], l, k, n);
      AddsNext(added, l, n);
    }
  }

  lemma {:induction false} AddedUnderSome(added: seq<(nat, FileMeta)>, l: nat, n: nat) returns (k: Key)
    requires AddsNumber(added, l, n)
    ensures FirstAdded(added, l, k, n) != []
  {
    AddsNext(added, l, n);
    var last := added[|added| - 1];
    if last.0 == l && last.1.number == n {
      k := last.1.smallest;
    } else {
      k := AddedUnderSome(added[..|added| - 1], l, n);
    }
  }

  lemma {:induction false} UnderAddFiles(s: BuilderState, added: seq<(nat, FileMeta)>, l: nat, k: Key, n: nat)
    requires l < NUM_LEVELS && forall i :: 0 <= i < |added| ==> added[i].0 < NUM_LEVELS
    ensures var t := AddFiles(s, added)[l];
      && Under(t.addedFiles, k, n) == (if Under(s[l].addedFiles, k, n) != [] then Under(s[l].addedFiles, k, n) else FirstAdded(added, l, k, n))
      && (n in t.deletedFiles <==> n in s[l].deletedFiles && !AddsNumber(added, l, n))
  {
    if added != [] {
      var front := added[..|added| - 1];
      var (level, f) := added[|added| - 1];
      UnderAddFiles(s, front, l, k, n);
      AddsNext(added, l, n);
      var t := AddFiles(s, front);
      UnderInserted(f, t[level].addedFiles, k, n);
    }
  }

  lemma UnderApplied(s: BuilderState, e: VersionEdit, l: nat, k: Key, n: nat)
    requires ValidEdit(e) && l < NUM_LEVELS
    ensures var t := Applied(s, e)[l];
      && Under(t.addedFiles, k, n) == (if Under(s[l].addedFiles, k, n) != [] then Under(s[l].addedFiles, k, n) else FirstAdded(e.added, l, k, n))
      && (n in t.deletedFiles <==> Kills(e, l, n) || (n in s[l].deletedFiles && !AddsNumber(e.added, l, n)))
  {
    UnderAddFiles(DeleteFiles(s, e.deleted), e.added, l, k, n);
    assert n in DeletedAt(e.deleted, l) <==> (l, n) in e.deleted;
  }

  lemma UnderInstalled(levels: seq<Files>, e: VersionEdit, l: nat, k: Key, n: nat)
    requires |levels| == NUM_LEVELS && ValidEdit(e) && l < NUM_LEVELS && InOrder(levels[l])
    ensures InOrder(Install(levels, e)[l])
    ensures Under(Install(levels, e)[l], k, n) ==
            if Kills(e, l, n) then [] else Under(levels[l], k, n) + FirstAdded(e.added, l, k, n)
  {
    UnderApplied(Fresh(), e, l, k, n);
    UnderSaved(levels[l], Applied(Fresh(), e)[l], k, n);
  }

  // ----- All edits -----

  // The first file ever added under this key and number.
  ghost function FirstEver(edits: seq<VersionEdit>, l: nat, k: Key, n: nat): Files {
    if edits == [] then []
    else
      var before := FirstEver(edits[..|edits| - 1], l, k, n);
      if before != [] then before else FirstAdded(edits[|edits| - 1].added, l, k, n)
  }

  // The number was taken out of the level and not added since.
  ghost predicate KilledLast(edits: seq<VersionEdit>, l: nat, n: nat) {
    edits != [] &&
    (Kills(edits[|edits| - 1], l, n) || (KilledLast(edits[..|edits| - 1], l, n) && !AddsNumber(edits[|edits| - 1].added, l, n)))
  }

  // The files named under this key and number since the number was last taken out,
  // one for each edit that adds one; if it never was, the base's file comes first.
  ghost function SinceKill(base: Files, edits: seq<VersionEdit>, l: nat, k: Key, n: nat): Files {
    if edits == [] then Under(base, k, n)
    else
      var e := edits[|edits| - 1];
      if Kills(e, l, n) then [] else SinceKill(base, edits[..|edits| - 1], l, k, n) + FirstAdded(e.added, l, k, n)
  }

  lemma {:induction false} UnderReplay(edits: seq<VersionEdit>, l: nat, k: Key, n: nat)
    requires ValidEdits(edits) && l < NUM_LEVELS
    ensures Under(Replay(edits)[l].addedFiles, k, n) == FirstEver(edits, l, k, n)
    ensures n in Replay(edits)[l].deletedFiles <==> KilledLast(edits, l, n)
  {
    if edits != [] {
      UnderReplay(edits[..|edits| - 1], l, k, n);
      UnderApplied(Replay(edits[..|edits| - 1]), edits[|edits| - 1], l, k, n);
    }
  }

  lemma {:induction false} UnderInstallAll(base: seq<Files>, edits: seq<VersionEdit>, l: nat, k: Key, n: nat)
    requires |base| == NUM_LEVELS && ValidEdits(edits) && l < NUM_LEVELS && InOrder(base[l])
    ensures InOrder(InstallAll(base, edits)[l])
    ensures Under(InstallAll(base, edits)[l], k, n) == SinceKill(base[l], edits, l, k, n)
  {
    if edits != [] {
      UnderInstallAll(base, edits[..|edits| - 1], l, k, n);
      UnderInstalled(InstallAll(base, edits[..|edits| - 1]), edits[|edits| - 1], l, k, n);
    }
  }

  lemma {:induction false} KilledIsGone(base: Files, edits: seq<VersionEdit>, l: nat, k: Key, n: nat)
    requires KilledLast(edits, l, n)
    ensures SinceKill(base, edits, l, k, n) == []
  {
    var e := edits[|edits| - 1];
    if !Kills(e, l, n) {
      KilledIsGone(base, edits[..|edits| - 1], l, k, n);
      FirstAddedNumber(e.added, l, k, n);
    }
  }

  // Either the number is out in the end, or the files named under the key since it was
  // last taken out are just the base's and the first one ever added.
  ghost predicate SameFiles(base: Files, edits: seq<VersionEdit>, l: nat, k: Key, n: nat) {
    KilledLast(edits, l, n) || SinceKill(base, edits, l, k, n) == Under(base, k, n) + FirstEver(edits, l, k, n)
  }

  // For every manifest: one builder that takes all edits and saves once gives the
  // version that installing them one at a time gave exactly if for every level, key
  // and number these are the same files.
  lemma ReplayIsExactIff(base: seq<Files>, edits: seq<VersionEdit>)
    requires OrderedLevels(base) && ValidEdits(edits)
    ensures Save(base, Replay(edits)) == InstallAll(base, edits) <==>
            forall l: nat, k, n :: l < NUM_LEVELS ==> SameFiles(base[l], edits, l, k, n)
  {
    hide Save, Replay, InstallAll, SameFiles, SinceKill, FirstEver, KilledLast;
    var a, b := Save(base, Replay(edits)), InstallAll(base, edits);
    forall l: nat, k, n | l < NUM_LEVELS
      ensures Under(a[l], k, n) == Under(b[l], k, n) <==> SameFiles(base[l], edits, l, k, n)
    {
      SameLevel(base, edits, l, k, n);
    }
    if forall l: nat, k, n :: l < NUM_LEVELS ==> SameFiles(base[l], edits, l, k, n) {
      forall l: nat | l < NUM_LEVELS ensures a[l] == b[l] {
        forall k, n ensures InOrder(a[l]) && InOrder(b[l]) && Under(a[l], k, n) == Under(b[l], k, n) {
          SameLevel(base, edits, l, k, n);
        }
        SameLevel(base, edits, l, Key(0, 0, Put), 0);
        SameUnder(a[l], b[l]);
      }
    }
  }

  lemma SameLevel(base: seq<Files>, edits: seq<VersionEdit>, l: nat, k: Key, n: nat)
    requires OrderedLevels(base) && ValidEdits(edits) && l < NUM_LEVELS
    ensures var a, b := Save(base, Replay(edits))[l], InstallAll(base, edits)[l];
      && InOrder(a) && InOrder(b)
      && (Under(a, k, n) == Under(b, k, n) <==> SameFiles(base[l], edits, l, k, n))
  {
    OrderedInOrder(base[l]);
    UnderReplay(edits, l, k, n);
    UnderSaved(base[l], Replay(edits)[l], k, n);
    UnderInstallAll(base, edits, l, k, n);
    if KilledLast(edits, l, n) {
      KilledIsGone(base[l], edits, l, k, n);
    }
  }

  // ----- Manifests that name no file twice -----

  // How often a file is named under the key: by the base, or by an edit that adds one.
  ghost function Namings(base: Files, edits: seq<VersionEdit>, l: nat, k: Key, n: nat): nat {
    if edits == [] then |Under(base, k, n)|
    else Namings(base, edits[..|edits| - 1], l, k, n) + |FirstAdded(edits[|edits| - 1].added, l, k, n)|
  }

  ghost predicate NamedOnce(base: seq<Files>, edits: seq<VersionEdit>)
    requires |base| == NUM_LEVELS
  {
    forall l: nat, k, n :: l < NUM_LEVELS ==> Namings(base[l], edits, l, k, n) <= 1
  }

  ghost predicate NamesNumber(base: Files, edits: seq<VersionEdit>, l: nat, n: nat) {
    if edits == [] then HasNumber(base, n)
    else NamesNumber(base, edits[..|edits| - 1], l, n) || AddsNumber(edits[|edits| - 1].added, l, n)
  }

  // Some edit takes out a number that was there or had been added.
  ghost predicate KillsNamed(base: Files, edits: seq<VersionEdit>, l: nat, n: nat) {
    edits != [] &&
    (KillsNamed(base, edits[..|edits| - 1], l, n) ||
     (Kills(edits[|edits| - 1], l, n) && NamesNumber(base, edits[..|edits| - 1], l, n)))
  }

  // The number is taken out and comes back.
  ghost predicate ComesBack(base: Files, edits: seq<VersionEdit>, l: nat, n: nat) {
    KillsNamed(base, edits, l, n) && !KilledLast(edits, l, n)
  }

  lemma {:induction false} NamingsSplit(base: Files, edits: seq<VersionEdit>, l: nat, k: Key, n: nat)
    ensures |SinceKill(base, edits, l, k, n)| <= Namings(base, edits, l, k, n)
    ensures Namings(base, edits, l, k, n) == 0 <==> Under(base, k, n) + FirstEver(edits, l, k, n) == []
    ensures Namings(base, edits, l, k, n) == 1 ==> |Under(base, k, n) + FirstEver(edits, l, k, n)| == 1
    ensures Namings(base, edits, l, k, n) == 1 && SinceKill(base, edits, l, k, n) != [] ==>
            SinceKill(base, edits, l, k, n) == Under(base, k, n) + FirstEver(edits, l, k, n)
  {
    if edits != [] {
      NamingsSplit(base, edits[..|edits| - 1], l, k, n);
      FirstAddedNumber(edits[|edits| - 1].added, l, k, n);
    }
  }

  lemma {:induction false} GoneWasKilled(base: Files, edits: seq<VersionEdit>, l: nat, k: Key, n: nat)
    ensures Namings(base, edits, l, k, n) > 0 ==> NamesNumber(base, edits, l, n)
    ensures Namings(base, edits, l, k, n) > 0 && SinceKill(base, edits, l, k, n) == [] ==> KillsNamed(base, edits, l, n)
  {
    if edits == [] {
      if Under(base, k, n) != [] {
        var i := UnderSome(base, k, n);
      }
    } else {
      GoneWasKilled(base, edits[..|edits| - 1], l, k, n);
      FirstAddedNumber(edits[|edits| - 1].added, l, k, n);
    }
  }

  lemma {:induction false} NamedUnderSome(base: Files, edits: seq<VersionEdit>, l: nat, n: nat) returns (k: Key)
    requires NamesNumber(base, edits, l, n)
    ensures Namings(base, edits, l, k, n) > 0
  {
    if edits == [] {
      var i :| 0 <= i < |base| && base[i].number == n;
      k := base[i].smallest;
      UnderMember(base, k, n, i);
    } else if NamesNumber(base, edits[..|edits| - 1], l, n) {
      k := NamedUnderSome(base, edits[..|edits| - 1], l, n);
    } else {
      k := AddedUnderSome(edits[|edits| - 1].added, l, n);
    }
  }

  lemma {:induction false} KilledStaysAway(base: Files, edits: seq<VersionEdit>, l: nat, n: nat) returns (k: Key)
    requires KillsNamed(base, edits, l, n) && forall k :: Namings(base, edits, l, k, n) <= 1
    ensures Namings(base, edits, l, k, n) > 0 && SinceKill(base, edits, l, k, n) == []
  {
    var front := edits[..|edits| - 1];
    if KillsNamed(base, front, l, n) {
      assert forall k :: Namings(base, front, l, k, n) <= Namings(base, edits, l, k, n);
      k := KilledStaysAway(base, front, l, n);
    } else {
      k := NamedUnderSome(base, front, l, n);
    }
  }

  // When no file is named twice: the two agree exactly if no number that is taken out
  // of a level comes back to it to stay.
  lemma ReplayIsExactIffNoneComesBack(base: seq<Files>, edits: seq<VersionEdit>)
    requires OrderedLevels(base) && ValidEdits(edits) && NamedOnce(base, edits)
    ensures Save(base, Replay(edits)) == InstallAll(base, edits) <==>
            forall l: nat, n :: l < NUM_LEVELS ==> !ComesBack(base[l], edits, l, n)
  {
    hide Save, Replay, InstallAll, SinceKill, FirstEver, KilledLast, KillsNamed, Namings;
    ReplayIsExactIff(base, edits);
    if forall l: nat, n :: l < NUM_LEVELS ==> !ComesBack(base[l], edits, l, n) {
      forall l: nat, k, n | l < NUM_LEVELS ensures SameFiles(base[l], edits, l, k, n) {
        assert !ComesBack(base[l], edits, l, n) && Namings(base[l], edits, l, k, n) <= 1;
        GoneWasKilled(base[l], edits, l, k, n);
        NamingsSplit(base[l], edits, l, k, n);
      }
    }
    forall l: nat, n | l < NUM_LEVELS && ComesBack(base[l], edits, l, n)
      ensures exists k :: !SameFiles(base[l], edits, l, k, n)
    {
      var k := KilledStaysAway(base[l], edits, l, n);
      NamingsSplit(base[l], edits, l, k, n);
      assert !SameFiles(base[l], edits, l, k, n);
    }
  }

  // ----- Numbers added once -----

  lemma NotHere(files: Files, k: Key, n: nat)
    requires !HasNumber(files, n)
    ensures Under(files, k, n) == []
  {
    NoneUnder(files, k, n);
  }

  lemma {:induction false} AddsOnceSame(base: seq<Files>, edits: seq<VersionEdit>, l: nat, k: Key, n: nat)
    requires OrderedLevels(base) && ValidEdits(edits) && AddsOnce(base, edits) && l < NUM_LEVELS
    ensures SameFiles(base[l], edits, l, k, n)
    ensures Under(base[l], k, n) == [] || FirstEver(edits, l, k, n) == []
  {
    if edits != [] {
      var front, e := edits[..|edits| - 1], edits[|edits| - 1];
      AddsOnceSame(base, front, l, k, n);
      FirstAddedNumber(e.added, l, k, n);
      if AddsNumber(e.added, l, n) {
        var i :| 0 <= i < |e.added| && e.added[i].0 == l && e.added[i].1.number == n;
        assert !HasNumber(base[e.added[i].0], e.added[i].1.number) && !HasNumber(Replay(front)[e.added[i].0].addedFiles, e.added[i].1.number);
        NotHere(base[l], k, n);
        NotHere(Replay(front)[l].addedFiles, k, n);
        UnderReplay(front, l, k, n);
        if KilledLast(front, l, n) {
          KilledIsGone(base[l], front, l, k, n);
        }
      }
    }
  }

  // Replaying a manifest in one batch gives the version that installing its
  // edits one at a time gave.
  lemma BatchedReplay(base: seq<Files>, edits: seq<VersionEdit>)
    requires OrderedLevels(base) && ValidEdits(edits) && AddsOnce(base, edits)
    ensures Save(base, Replay(edits)) == InstallAll(base, edits)
    ensures forall l :: 0 <= l < NUM_LEVELS ==> NoTies(base[l], Replay(edits)[l].addedFiles)
  {
    hide Save, Replay, InstallAll, SinceKill, FirstEver, KilledLast, AddsOnce, SameFiles;
    ReplayIsExactIff(base, edits);
    forall l: nat, k, n | l < NUM_LEVELS ensures SameFiles(base[l], edits, l, k, n) {
      AddsOnceSame(base, edits, l, k, n);
    }
    forall l: nat, i, j | l < NUM_LEVELS && 0 <= i < |base[l]| && 0 <= j < |Replay(edits)[l].addedFiles|
      ensures !Equivalent(base[l][i], Replay(edits)[l].addedFiles[j])
    {
      var f, added := base[l][i], Replay(edits)[l].addedFiles;
      if Equivalent(f, added[j]) {
        UnderMember(base[l], f.smallest, f.number, i);
        UnderMember(added, f.smallest, f.number, j);
        UnderReplay(edits, l, f.smallest, f.number);
        AddsOnceSame(base, edits, l, f.smallest, f.number);
      }
    }
  }

  // ----- A number that comes back -----

  function Readd(f: FileMeta, g: FileMeta): seq<VersionEdit> {
    [VersionEdit({}, [(1, f)]), VersionEdit({(1, f.number)}, []), VersionEdit({}, [(1, g)])]
  }

  lemma ReaddPieces(f: FileMeta, g: FileMeta, k: Key)
    requires f.number == g.number
    ensures ValidEdits(Readd(f, g)) && (SameFiles([], Readd(f, g), 1, k, f.number) <==> (f.smallest == k ==> f == g))
  {
    var edits, n := Readd(f, g), f.number;
    var e0, e1, e2 := edits[0], edits[1], edits[2];
    assert edits[..2] == [e0, e1] && edits[..2][..1] == [e0] && edits[..2][..1][..0] == [];
    assert e2.added[0].1.number == n && AddsNumber(e2.added, 1, n);
    assert e0.added[..0] == [] && e2.added[..0] == [];
    assert FirstAdded(e0.added, 1, k, n) == if f.smallest == k then [f] else [];
    assert FirstAdded(e2.added, 1, k, n) == if g.smallest == k then [g] else [];
    assert FirstEver([e0], 1, k, n) == FirstAdded(e0.added, 1, k, n);
    assert FirstEver([e0, e1], 1, k, n) == FirstAdded(e0.added, 1, k, n);
    assert Kills(e1, 1, n) && SinceKill([], [e0, e1], 1, k, n) == [];
    assert !KilledLast(edits, 1, n) && Under([], k, n) == [];
    assert SinceKill([], edits, 1, k, n) == if g.smallest == k then [g] else [];
    assert [] + FirstEver(edits, 1, k, n) == if f.smallest == k then [f] else if g.smallest == k then [g] else [];
  }

  // A number added, deleted and added again: the replays differ unless the file added
  // again is the very same one.
  lemma ReaddedNumberDiffers(f: FileMeta, g: FileMeta)
    requires f.number == g.number
    ensures ValidEdits(Readd(f, g))
    ensures Save(NoFiles(), Replay(Readd(f, g))) == InstallAll(NoFiles(), Readd(f, g)) <==> f == g
  {
    hide Save, Replay, InstallAll, Readd;
    var edits, n := Readd(f, g), f.number;
    forall k ensures ValidEdits(edits) && (SameFiles([], edits, 1, k, n) <==> (f.smallest == k ==> f == g)) {
      ReaddPieces(f, g, k);
    }
    ReaddPieces(f, g, f.smallest);
    ReplayIsExactIff(NoFiles(), edits);
    assert NoFiles()[1] == [];
    if f == g {
      forall l: nat, k, m | l < NUM_LEVELS ensures SameFiles(NoFiles()[l], edits, l, k, m) {
        if l == 1 && m == n {
          ReaddPieces(f, g, k);
        } else {
          ReaddElsewhere(f, k, m, l);
        }
      }
    } else {
      assert !SameFiles(NoFiles()[1], edits, 1, f.smallest, n);
    }
  }

  lemma ReaddElsewhere(f: FileMeta, k: Key, m: nat, l: nat)
    requires l != 1 || m != f.number
    ensures SameFiles([], Readd(f, f), l, k, m)
  {
    var edits := Readd(f, f);
    var e0, e1, e2 := edits[0], edits[1], edits[2];
    assert edits[..2] == [e0, e1];
    assert edits[..2][..1] == [e0];
    assert edits[..2][..1][..0] == [];
    assert e0.added[..0] == [] && e2.added[..0] == [] && e1.added == [];
    assert FirstAdded(e0.added, l, k, m) == [] && FirstAdded(e1.added, l, k, m) == [];
    assert SinceKill([], [e0], l, k, m) == [] && FirstEver([e0], l, k, m) == [];
    assert SinceKill([], [e0, e1], l, k, m) == [] && FirstEver([e0, e1], l, k, m) == [];
  }
}
