// Where a compaction ends one output file and begins the next (the merge loop of
// DBImpl::DoCompactionWork and Compaction::ShouldStopBefore).
module OutputCuts {
  import opened InternalKeys
  import opened Versions

  // ----- The files two levels down that end before a key -----

  function Passed(gs: Files, key: Key): (n: nat)
    ensures n <= |gs|
  {
    if gs == [] || !Less(gs[0].largest, key) then 0 else 1 + Passed(gs[1..], key)
  }

  function BytesBefore(gs: Files, key: Key): nat {
    TotalFileSize(gs[..Passed(gs, key)])
  }

  lemma {:induction false} PassedIs(gs: Files, key: Key, n: nat)
    requires n <= |gs| && (forall i :: 0 <= i < n ==> Less(gs[i].largest, key)) && (n < |gs| ==> !Less(gs[n].largest, key))
    ensures Passed(gs, key) == n
  {
    if n > 0 {
      PassedIs(gs[1..], key, n - 1);
    }
  }

  lemma {:induction false} PassedBefore(gs: Files, key: Key)
    ensures forall i :: 0 <= i < Passed(gs, key) ==> Less(gs[i].largest, key)
  {
    if gs != [] && Less(gs[0].largest, key) {
      PassedBefore(gs[1..], key);
      assert forall i :: 1 <= i < |gs| ==> gs[i] == gs[1..][i - 1];
    }
  }

  lemma {:induction false} PassedAscends(gs: Files, a: Key, b: Key)
    requires a == b || Less(a, b)
    ensures Passed(gs, a) <= Passed(gs, b)
  {
    if gs != [] && Less(gs[0].largest, a) {
      PassedAscends(gs[1..], a, b);
    }
  }

  lemma {:induction false} SizeOfTwo(a: Files, b: Files)
    ensures TotalFileSize(a + b) == TotalFileSize(a) + TotalFileSize(b)
  {
    if a == [] {
      assert a + b == b;
    } else {
      assert (a + b)[1..] == a[1..] + b;
      SizeOfTwo(a[1..], b);
    }
  }

  lemma BytesBetween(gs: Files, i: nat, j: nat)
    requires i <= j <= |gs|
    ensures TotalFileSize(gs[..j]) == TotalFileSize(gs[..i]) + TotalFileSize(gs[i..j])
  {
    assert gs[..j] == gs[..i] + gs[i..j];
    SizeOfTwo(gs[..i], gs[i..j]);
  }

  lemma BytesAscend(gs: Files, a: Key, b: Key)
    requires a == b || Less(a, b)
    ensures BytesBefore(gs, a) <= BytesBefore(gs, b)
  {
    PassedAscends(gs, a, b);
    BytesBetween(gs, Passed(gs, a), Passed(gs, b));
  }

  // ----- When to stop -----

  // Their bytes gone by since the last stop, or since the first entry, at entry n.
  function GoneAt(gs: Files, es: seq<Entry>, n: nat): int
    requires n < |es|
    decreases n, 0
  {
    if n == 0 then 0
    else LeftAt(gs, es, n - 1) + BytesBefore(gs, es[n].key) - BytesBefore(gs, es[n - 1].key)
  }

  predicate StopsBefore(gs: Files, es: seq<Entry>, n: nat)
    requires n < |es|
    decreases n, 1
  {
    GoneAt(gs, es, n) > MAX_GRAND_PARENT_OVERLAP_BYTES
  }

  function LeftAt(gs: Files, es: seq<Entry>, n: nat): int
    requires n < |es|
    decreases n, 2
  {
    if StopsBefore(gs, es, n) then 0 else GoneAt(gs, es, n)
  }

  lemma {:induction false} LeftIsSmall(gs: Files, es: seq<Entry>, n: nat)
    requires n < |es| && Sorted(es)
    ensures 0 <= LeftAt(gs, es, n) <= MAX_GRAND_PARENT_OVERLAP_BYTES
  {
    if n > 0 {
      LeftIsSmall(gs, es, n - 1);
      BytesAscend(gs, es[n - 1].key, es[n].key);
    }
  }

  // ----- The outputs -----

  // The entries of the outputs that are finished, and of the one that is open.
  datatype Cut = Cut(closed: seq<seq<Entry>>, open: seq<Entry>)

  function Stopped(c: Cut, stop: bool): Cut {
    if stop && c.open != [] then Cut(c.closed + [c.open], []) else c
  }

  function WithEntry(c: Cut, e: Entry, tableSize: (seq<Entry>, bool) -> nat, max: nat): Cut {
    if tableSize(c.open + [e], false) >= max then Cut(c.closed + [c.open + [e]], []) else Cut(c.closed, c.open + [e])
  }

  // After the first n entries, those in drop left out.
  ghost function CutAfter(gs: Files, es: seq<Entry>, n: nat, drop: iset<Entry>, tableSize: (seq<Entry>, bool) -> nat, max: nat): Cut
    requires n <= |es|
  {
    if n == 0 then Cut([], [])
    else
      var c := Stopped(CutAfter(gs, es, n - 1, drop, tableSize, max), StopsBefore(gs, es, n - 1));
      if es[n - 1] in drop then c else WithEntry(c, es[n - 1], tableSize, max)
  }

  function Outputs(c: Cut): seq<seq<Entry>> {
    if c.open == [] then c.closed else c.closed + [c.open]
  }

  // ----- What that means for the outputs -----

  // Before its last entry the output was below the size limit.
  ghost predicate StaysSmall(out: seq<Entry>, tableSize: (seq<Entry>, bool) -> nat, max: nat) {
    out != [] && forall n :: 0 < n < |out| ==> tableSize(out[..n], false) < max
  }

  // Little two levels down ends within it.
  ghost predicate OverlapsLittle(gs: Files, out: seq<Entry>) {
    out != [] && BytesBefore(gs, out[|out| - 1].key) - BytesBefore(gs, out[0].key) <= MAX_GRAND_PARENT_OVERLAP_BYTES
  }

  // Told to stop at an entry behind one key and not behind another.
  ghost predicate StopBetween(gs: Files, es: seq<Entry>, from: Key, to: Key) {
    exists i :: 0 <= i < |es| && StopsBefore(gs, es, i) && Less(from, es[i].key) && !Less(to, es[i].key)
  }

  // The output was full, or there was a stop between it and the next.
  ghost predicate HadToEnd(gs: Files, es: seq<Entry>, out: seq<Entry>, to: Key, tableSize: (seq<Entry>, bool) -> nat, max: nat) {
    out != [] && (tableSize(out, false) >= max || StopBetween(gs, es, out[|out| - 1].key, to))
  }

  ghost predicate WellCut(gs: Files, es: seq<Entry>, outs: seq<seq<Entry>>, tableSize: (seq<Entry>, bool) -> nat, max: nat) {
    && (forall i :: 0 <= i < |outs| ==> StaysSmall(outs[i], tableSize, max) && OverlapsLittle(gs, outs[i]))
    && forall i :: 0 <= i < |outs| - 1 ==> HadToEnd(gs, es, outs[i], outs[i + 1][0].key, tableSize, max)
  }

  // While the loop runs: with the open output there is room left, and without one the
  // last output had to end before whatever comes next.
  ghost predicate CutWell(gs: Files, es: seq<Entry>, key: Key, left: int, c: Cut, tableSize: (seq<Entry>, bool) -> nat, max: nat) {
    && WellCut(gs, es, Outputs(c), tableSize, max)
    && (c.open != [] ==>
          && tableSize(c.open, false) < max
          && (forall i :: 0 <= i < |c.open| ==> !Less(key, c.open[i].key))
          && BytesBefore(gs, key) - BytesBefore(gs, c.open[0].key) <= left)
    && (c.open == [] && c.closed != [] ==> HadToEnd(gs, es, c.closed[|c.closed| - 1], key, tableSize, max))
  }

  lemma HadToEndLater(gs: Files, es: seq<Entry>, out: seq<Entry>, to: Key, later: Key, tableSize: (seq<Entry>, bool) -> nat, max: nat)
    requires HadToEnd(gs, es, out, to, tableSize, max) && (to == later || Less(to, later))
    ensures HadToEnd(gs, es, out, later, tableSize, max)
  {
  }

  lemma StopKeeps(gs: Files, es: seq<Entry>, n: nat, c: Cut, tableSize: (seq<Entry>, bool) -> nat, max: nat)
    requires 0 < n < |es| && Sorted(es)
    requires CutWell(gs, es, es[n - 1].key, LeftAt(gs, es, n - 1), c, tableSize, max)
    ensures CutWell(gs, es, es[n].key, LeftAt(gs, es, n), Stopped(c, StopsBefore(gs, es, n)), tableSize, max)
  {
    hide StaysSmall, OverlapsLittle, HadToEnd;
    var key, next := es[n - 1].key, es[n].key;
    assert Less(key, next);
    if c.open != [] && StopsBefore(gs, es, n) {
      StoppedHere(gs, es, n, c.open, tableSize, max);
    }
    if c.open == [] && c.closed != [] {
      HadToEndLater(gs, es, c.closed[|c.closed| - 1], key, next, tableSize, max);
    }
  }

  lemma StoppedHere(gs: Files, es: seq<Entry>, n: nat, open: seq<Entry>, tableSize: (seq<Entry>, bool) -> nat, max: nat)
    requires 0 < n < |es| && Sorted(es) && StopsBefore(gs, es, n)
    requires open != [] && !Less(es[n - 1].key, open[|open| - 1].key)
    ensures HadToEnd(gs, es, open, es[n].key, tableSize, max)
  {
    assert Less(es[n - 1].key, es[n].key);
    assert Less(open[|open| - 1].key, es[n].key);
  }

  lemma GrownOutput(gs: Files, open: seq<Entry>, e: Entry, tableSize: (seq<Entry>, bool) -> nat, max: nat)
    requires open != [] ==> StaysSmall(open, tableSize, max) && tableSize(open, false) < max
    requires open != [] ==> BytesBefore(gs, e.key) - BytesBefore(gs, open[0].key) <= MAX_GRAND_PARENT_OVERLAP_BYTES
    ensures StaysSmall(open + [e], tableSize, max) && OverlapsLittle(gs, open + [e])
  {
    var out := open + [e];
    forall n | 0 < n < |out| ensures tableSize(out[..n], false) < max {
      assert out[..n] == open[..n];
      assert n == |open| ==> out[..n] == open;
    }
  }

  lemma EntryKeeps(gs: Files, es: seq<Entry>, e: Entry, left: int, c: Cut, tableSize: (seq<Entry>, bool) -> nat, max: nat)
    requires 0 <= left <= MAX_GRAND_PARENT_OVERLAP_BYTES && CutWell(gs, es, e.key, left, c, tableSize, max)
    ensures CutWell(gs, es, e.key, left, WithEntry(c, e, tableSize, max), tableSize, max)
  {
    hide BytesBefore, OverlapsLittle, StopBetween;
    var out, k := c.open + [e], |c.closed|;
    if c.open != [] {
      assert Outputs(c)[k] == c.open;
    }
    GrownOutput(gs, c.open, e, tableSize, max);
    var outs: seq<seq<Entry>> := c.closed + [out];
    forall i | 0 <= i < |outs| ensures outs[i] != [] {
      assert i < k ==> Outputs(c)[i] == outs[i] && StaysSmall(outs[i], tableSize, max);
    }
    hide StaysSmall;
    assert out[0] == if c.open == [] then e else c.open[0];
    forall i: nat | i < |outs| - 1 ensures HadToEnd(gs, es, outs[i], outs[i + 1][0].key, tableSize, max) {
      assert Outputs(c)[i] == outs[i];
      assert i < |outs| - 2 ==> Outputs(c)[i + 1] == outs[i + 1];
    }
    forall i | 0 <= i < |outs| ensures StaysSmall(outs[i], tableSize, max) && OverlapsLittle(gs, outs[i]) {
      assert i < k ==> Outputs(c)[i] == outs[i];
    }
  }

  lemma FirstKeeps(gs: Files, es: seq<Entry>, key: Key, tableSize: (seq<Entry>, bool) -> nat, max: nat)
    ensures CutWell(gs, es, key, 0, Cut([], []), tableSize, max)
  {
  }

  lemma {:induction false} RunCutsWell(gs: Files, es: seq<Entry>, n: nat, drop: iset<Entry>, tableSize: (seq<Entry>, bool) -> nat, max: nat)
    requires 0 < n <= |es| && Sorted(es)
    ensures CutWell(gs, es, es[n - 1].key, LeftAt(gs, es, n - 1), CutAfter(gs, es, n, drop, tableSize, max), tableSize, max)
  {
    hide CutWell, StopsBefore, LeftAt, WithEntry;
    LeftIsSmall(gs, es, n - 1);
    var c := CutAfter(gs, es, n - 1, drop, tableSize, max);
    if n == 1 {
      FirstKeeps(gs, es, es[0].key, tableSize, max);
      NoneLeft(gs, es);
    } else {
      RunCutsWell(gs, es, n - 1, drop, tableSize, max);
      StopKeeps(gs, es, n - 1, c, tableSize, max);
    }
    if es[n - 1] !in drop {
      EntryKeeps(gs, es, es[n - 1], LeftAt(gs, es, n - 1), Stopped(c, StopsBefore(gs, es, n - 1)), tableSize, max);
    }
  }

  lemma NoneLeft(gs: Files, es: seq<Entry>)
    requires es != []
    ensures LeftAt(gs, es, 0) == 0
  {
  }

  // The outputs of a merge: each was below the size limit before its last entry, within
  // each little ends two levels down, and each but the last was full or ended at a stop.
  lemma OutputsAreWellCut(gs: Files, es: seq<Entry>, drop: iset<Entry>, tableSize: (seq<Entry>, bool) -> nat, max: nat)
    requires Sorted(es)
    ensures WellCut(gs, es, Outputs(CutAfter(gs, es, |es|, drop, tableSize, max)), tableSize, max)
  {
    if es != [] {
      RunCutsWell(gs, es, |es|, drop, tableSize, max);
      hide CutAfter;
    }
  }
}
