// MergingIterator: one cursor over the sorted union of its children (merger.cc).
module Mergers {
  import opened Wrappers
  import opened InternalKeys
  import opened Cursors
  import Versions

  type Children = seq<seq<Entry>>

  // ----- The sorted union -----

  // merged lists the entries of all children in key order. rank says where each
  // child's entry ends up, owner where each merged entry came from.
  ghost predicate IsMerge(children: Children, merged: seq<Entry>, rank: seq<seq<nat>>, owner: seq<(nat, nat)>) {
    && Sorted(merged)
    && |rank| == |children| && |owner| == |merged|
    && (forall i :: 0 <= i < |children| ==> |rank[i]| == |children[i]|)
    && (forall i, j :: 0 <= i < |children| && 0 <= j < |children[i]| ==>
          rank[i][j] < |merged| && merged[rank[i][j]] == children[i][j] && owner[rank[i][j]] == (i, j))
    && (forall k :: 0 <= k < |merged| ==>
          owner[k].0 < |children| && owner[k].1 < |children[owner[k].0]| && rank[owner[k].0][owner[k].1] == k)
    && (forall i, j, k :: 0 <= i < |children| && 0 <= j < k < |children[i]| ==> rank[i][j] < rank[i][k])
  }

  // Every position splits its child at the merged index k: what it has passed
  // ranks below k, what is ahead ranks at k or above.
  ghost predicate Ahead(rank: seq<nat>, pos: nat, k: nat) {
    && pos <= |rank|
    && (forall j :: 0 <= j < pos ==> rank[j] < k)
    && (forall j :: pos <= j < |rank| ==> rank[j] >= k)
  }

  // The mirror image for moving backward: the position is the last entry ranking
  // below k, or invalid when there is none.
  ghost predicate Behind(rank: seq<nat>, pos: nat, k: nat) {
    && pos <= |rank|
    && (pos < |rank| ==> rank[pos] < k && forall j :: pos < j < |rank| ==> rank[j] >= k)
    && (pos == |rank| ==> forall j :: 0 <= j < |rank| ==> rank[j] >= k)
  }

  lemma AheadNext(rank: seq<nat>, pos: nat, k: nat)
    requires pos < |rank| && Ahead(rank, pos, k) && rank[pos] == k
    requires forall i, j :: 0 <= i < j < |rank| ==> rank[i] < rank[j]
    ensures Ahead(rank, pos + 1, k + 1)
  {
  }

  lemma AheadSkip(rank: seq<nat>, pos: nat, k: nat)
    requires Ahead(rank, pos, k) && forall j :: 0 <= j < |rank| ==> rank[j] != k
    ensures Ahead(rank, pos, k + 1)
  {
  }

  lemma SeekIsAhead(child: seq<Entry>, rank: seq<nat>, merged: seq<Entry>, target: Key, pos: nat, k: nat)
    requires Sorted(merged) && |rank| == |child|
    requires forall j :: 0 <= j < |child| ==> rank[j] < |merged| && merged[rank[j]] == child[j]
    requires IsLowerBound(child, target, pos) && IsLowerBound(merged, target, k)
    ensures Ahead(rank, pos, k)
  {
  }

  datatype Direction = Forward | Reverse

  class MergingIterator {
    const children: Children
    var positions: seq<nat>
    var current: Option<nat>
    var direction: Direction
    // The merged sequence and the index the iterator stands at; |merged| is "not valid".
    ghost const merged: seq<Entry>
    ghost const rank: seq<seq<nat>>
    ghost const owner: seq<(nat, nat)>
    ghost var at: nat

    constructor (children: Children, ghost merged: seq<Entry>, ghost rank: seq<seq<nat>>, ghost owner: seq<(nat, nat)>)
      requires IsMerge(children, merged, rank, owner)
      requires forall i :: 0 <= i < |children| ==> Sorted(children[i])
      ensures this.children == children && this.merged == merged
      ensures Good() && at == |merged| && Sorted(this.merged)
    {
      this.children, this.merged, this.rank, this.owner := children, merged, rank, owner;
      positions := seq(|children|, i requires 0 <= i < |children| => |children[i]|);
      current, direction, at := None, Forward, |merged|;
    }

    ghost predicate Shape()
      reads `positions
    {
      && IsMerge(children, merged, rank, owner)
      && (forall i :: 0 <= i < |children| ==> Sorted(children[i]))
      && |positions| == |children|
      && (forall i :: 0 <= i < |children| ==> positions[i] <= |children[i]|)
    }

    ghost predicate Good()
      reads this
    {
      && Shape() && at <= |merged|
      && (current.None? <==> at == |merged|)
      && (current.Some? ==>
            && current.value < |children|
            && positions[current.value] < |children[current.value]|
            && rank[current.value][positions[current.value]] == at
            && forall i :: 0 <= i < |children| ==>
                 if direction == Forward then Ahead(rank[i], positions[i], at) else Behind(rank[i], positions[i], at + 1))
    }

    predicate Valid()
      reads this
    {
      current.Some?
    }

    lemma ValidMeans()
      requires Good()
      ensures at <= |merged| && (Valid() <==> at < |merged|)
    {
    }

    method Current() returns (e: Entry)
      requires Good() && Valid()
      ensures at < |merged| && e == merged[at]
    {
      e := children[current.value][positions[current.value]];
    }

    // FindSmallest: with every child at its first entry ranking k or above, the
    // smallest child holds merged[k].
    method FindSmallest(ghost k: nat)
      requires Shape() && k <= |merged|
      requires forall i :: 0 <= i < |children| ==> Ahead(rank[i], positions[i], k)
      modifies `current, `at
      ensures at == k
      ensures current.None? <==> k == |merged|
      ensures current.Some? ==> current.value < |children| && positions[current.value] < |children[current.value]|
                                && rank[current.value][positions[current.value]] == k
    {
      var smallest: Option<nat> := None;
      var i := 0;
      while i < |children|
        invariant i <= |children|
        invariant smallest.None? ==> forall j :: 0 <= j < i ==> positions[j] == |children[j]|
        invariant smallest.Some? ==> smallest.value < i && positions[smallest.value] < |children[smallest.value]|
        invariant smallest.Some? ==> forall j :: 0 <= j < i && positions[j] < |children[j]| ==>
                    rank[smallest.value][positions[smallest.value]] <= rank[j][positions[j]]
      {
        if positions[i] < |children[i]| {
          if smallest.None? {
            smallest := Some(i);
          } else {
            var a, b := children[i][positions[i]], children[smallest.value][positions[smallest.value]];
            CompareRanks(merged, rank[i][positions[i]], rank[smallest.value][positions[smallest.value]]);
            if Compare(a.key, b.key) < 0 {
              smallest := Some(i);
            }
          }
        }
        i := i + 1;
      }
      current := smallest;
      at := k;
      if k < |merged| {
        var (c, j) := owner[k];
        assert Ahead(rank[c], positions[c], k);
        assert positions[c] <= j;
        assert rank[c][positions[c]] <= rank[c][j];
      }
    }

    // FindLargest: scanned from the last child down.
    method FindLargest(ghost k: nat)
      requires Shape() && k <= |merged|
      requires forall i :: 0 <= i < |children| ==> Behind(rank[i], positions[i], k)
      modifies `current, `at
      ensures at == if k == 0 then |merged| else k - 1
      ensures current.None? <==> k == 0
      ensures current.Some? ==> current.value < |children| && positions[current.value] < |children[current.value]|
                                && rank[current.value][positions[current.value]] == k - 1
    {
      var largest: Option<nat> := None;
      var i: int := |children|;
      while i > 0
        invariant 0 <= i <= |children|
        invariant largest.None? ==> forall j :: i <= j < |children| ==> positions[j] == |children[j]|
        invariant largest.Some? ==> i <= largest.value < |children| && positions[largest.value] < |children[largest.value]|
        invariant largest.Some? ==> forall j :: i <= j < |children| && positions[j] < |children[j]| ==>
                    rank[largest.value][positions[largest.value]] >= rank[j][positions[j]]
      {
        i := i - 1;
        if positions[i] < |children[i]| {
          if largest.None? {
            largest := Some(i);
          } else {
            var a, b := children[i][positions[i]], children[largest.value][positions[largest.value]];
            CompareRanks(merged, rank[i][positions[i]], rank[largest.value][positions[largest.value]]);
            if Compare(a.key, b.key) > 0 {
              largest := Some(i);
            }
          }
        }
      }
      current := largest;
      at := if k == 0 then |merged| else k - 1;
      if k > 0 {
        var (c, j) := owner[k - 1];
        assert Behind(rank[c], positions[c], k);
        assert positions[c] < |children[c]| && positions[c] >= j;
      }
    }

    method SeekToFirst()
      requires Good()
      modifies this
      ensures Good() && at == 0
    {
      positions := seq(|children|, i => 0);
      FindSmallest(0);
      direction := Forward;
    }

    method SeekToLast()
      requires Good()
      modifies this
      ensures Good() && at == LastPosition(merged)
    {
      positions := seq(|children|, i requires 0 <= i < |children| => LastPosition(children[i]));
      LastIsBehind();
      FindLargest(|merged|);
      direction := Reverse;
    }

    lemma LastIsBehind()
      requires Shape() && forall i :: 0 <= i < |children| ==> positions[i] == LastPosition(children[i])
      ensures forall i :: 0 <= i < |children| ==> Behind(rank[i], positions[i], |merged|)
    {
    }

    method Seek(target: Key)
      requires Good()
      modifies this
      ensures Good() && IsLowerBound(merged, target, at)
    {
      ghost var k := Versions.SeekPosition(merged, target);
      positions := seq(|children|, i requires 0 <= i < |children| => Versions.SeekPosition(children[i], target));
      forall i | 0 <= i < |children| ensures Ahead(rank[i], positions[i], k) {
        SeekIsAhead(children[i], rank[i], merged, target, positions[i], k);
      }
      FindSmallest(k);
      direction := Forward;
    }

    method Next()
      requires Good() && Valid()
      modifies this
      ensures Good() && at == old(at) + 1
    {
      var c := current.value;
      if direction != Forward {
        TurnForward();
      }
      ghost var before := positions;
      positions := positions[c := positions[c] + 1];
      forall i | 0 <= i < |children| ensures Ahead(rank[i], positions[i], at + 1) {
        if i == c {
          AheadNext(rank[i], before[i], at);
        } else {
          NotOwner(i, at);
          AheadSkip(rank[i], before[i], at);
        }
      }
      FindSmallest(at + 1);
    }

    // Only the current child holds the current entry.
    lemma NotOwner(i: nat, k: nat)
      requires Shape() && i < |children| && k < |merged| && i != owner[k].0
      ensures forall j :: 0 <= j < |rank[i]| ==> rank[i][j] != k
    {
      forall j | 0 <= j < |rank[i]| ensures rank[i][j] != k {
        assert owner[rank[i][j]] == (i, j);
      }
    }

    // The switch to forward: put every other child just after the current key.
    method TurnForward()
      requires Good() && Valid() && direction == Reverse
      modifies `positions, `direction
      ensures Good() && direction == Forward
    {
      hide IsMerge, Ahead, Behind, IsLowerBound, Sorted;
      var c := current.value;
      CurrentKey();
      var key := children[c][positions[c]].key;
      var i := 0;
      while i < |children|
        invariant i <= |children| && Shape() && positions[c] == old(positions[c])
        invariant forall j :: 0 <= j < i ==> Ahead(rank[j], positions[j], at)
      {
        if i != c {
          var p: int := Versions.SeekPosition(children[i], key);
          SoughtAround(i, p);
          if p < |children[i]| && Compare(key, children[i][p].key) == 0 {
            p := p + 1;
          }
          positions := positions[i := p];
        } else {
          AheadAtRank(rank[c], positions[c], at);
        }
        i := i + 1;
      }
      direction := Forward;
    }

    lemma CurrentKey()
      requires Good() && Valid()
      ensures at < |merged| && children[current.value][positions[current.value]] == merged[at]
      ensures |rank| == |children| && |rank[current.value]| == |children[current.value]| && owner[at].0 == current.value
      ensures forall i, j :: 0 <= i < j < |rank[current.value]| ==> rank[current.value][i] < rank[current.value][j]
    {
    }

    // Seeking the current key in another child stops just after it: keys are distinct.
    lemma SoughtAround(i: nat, p: nat)
      requires Shape() && at < |merged| && i < |children| && i != owner[at].0
      requires IsLowerBound(children[i], merged[at].key, p)
      ensures |rank[i]| == |children[i]| && p <= |children[i]| && Ahead(rank[i], p, at)
      ensures p < |children[i]| ==> Compare(merged[at].key, children[i][p].key) != 0
      ensures Behind(rank[i], if p < |children[i]| then PrevPosition(children[i], p) else LastPosition(children[i]), at + 1)
    {
      KeyIsBound();
      SeekIsAhead(children[i], rank[i], merged, merged[at].key, p, at);
      NotOwner(i, at);
      if p < |children[i]| {
        CompareRanks(merged, at, rank[i][p]);
      }
    }

    lemma KeyIsBound()
      requires Shape() && at < |merged|
      ensures IsLowerBound(merged, merged[at].key, at)
    {
    }

    method Prev()
      requires Good() && Valid()
      modifies this
      ensures Good() && at == PrevPosition(merged, old(at))
    {
      hide Ahead, Sorted;
      var c := current.value;
      if direction != Reverse {
        TurnReverse();
      }
      ghost var before := positions;
      positions := positions[c := PrevPosition(children[c], positions[c])];
      forall i | 0 <= i < |children| ensures Behind(rank[i], positions[i], at) {
        if i == c {
          BehindPrev(rank[i], before[i], at);
        } else {
          NotOwner(i, at);
          BehindSkip(rank[i], before[i], at);
        }
      }
      FindLargest(at);
    }

    // The switch to reverse: put every other child just before the current key.
    method TurnReverse()
      requires Good() && Valid() && direction == Forward
      modifies `positions, `direction
      ensures Good() && direction == Reverse
    {
      hide IsMerge, Ahead, Behind, IsLowerBound, Sorted;
      var c := current.value;
      CurrentKey();
      var key := children[c][positions[c]].key;
      var i := 0;
      while i < |children|
        invariant i <= |children| && Shape() && positions[c] == old(positions[c])
        invariant forall j :: 0 <= j < i ==> Behind(rank[j], positions[j], at + 1)
      {
        if i != c {
          var p := Versions.SeekPosition(children[i], key);
          SoughtAround(i, p);
          if p < |children[i]| {
            positions := positions[i := PrevPosition(children[i], p)];
          } else {
            positions := positions[i := LastPosition(children[i])];
          }
        } else {
          BehindAtRank(rank[c], positions[c], at);
        }
        i := i + 1;
      }
      direction := Reverse;
    }
  }

  lemma BehindPrev(rank: seq<nat>, pos: nat, k: nat)
    requires pos < |rank| && rank[pos] == k
    requires forall i, j :: 0 <= i < j < |rank| ==> rank[i] < rank[j]
    ensures Behind(rank, if pos == 0 then |rank| else pos - 1, k)
  {
  }

  lemma BehindSkip(rank: seq<nat>, pos: nat, k: nat)
    requires Behind(rank, pos, k + 1) && forall j :: 0 <= j < |rank| ==> rank[j] != k
    ensures Behind(rank, pos, k)
  {
  }

  lemma BehindAtRank(rank: seq<nat>, pos: nat, k: nat)
    requires pos < |rank| && rank[pos] == k && forall i, j :: 0 <= i < j < |rank| ==> rank[i] < rank[j]
    ensures Behind(rank, pos, k + 1)
  {
  }

  lemma AheadAtRank(rank: seq<nat>, pos: nat, k: nat)
    requires pos < |rank| && rank[pos] == k && forall i, j :: 0 <= i < j < |rank| ==> rank[i] < rank[j]
    ensures Ahead(rank, pos, k)
  {
  }

  lemma CompareRanks(merged: seq<Entry>, i: nat, j: nat)
    requires Sorted(merged) && i < |merged| && j < |merged|
    ensures Compare(merged[i].key, merged[j].key) < 0 <==> i < j
    ensures Compare(merged[i].key, merged[j].key) > 0 <==> i > j
    ensures Compare(merged[i].key, merged[j].key) == 0 <==> i == j
  {
    CompareIsLess(merged[i].key, merged[j].key);
  }

  // ----- Children with distinct keys always have a merge -----

  ghost predicate InChildren(children: Children, e: Entry) {
    exists i :: 0 <= i < |children| && e in children[i]
  }

  ghost predicate DistinctKeys(children: Children) {
    forall i, j, k, l :: (0 <= i < |children| && 0 <= j < |children[i]| && 0 <= k < |children| && 0 <= l < |children[k]|
      && children[i][j].key == children[k][l].key) ==> i == k && j == l
  }

  ghost function Insert(es: seq<Entry>, e: Entry): seq<Entry> {
    if es == [] || Less(e.key, es[0].key) then [e] + es else [es[0]] + Insert(es[1..], e)
  }

  lemma {:induction false} InsertContents(es: seq<Entry>, e: Entry)
    requires Sorted(es) && forall d :: d in es ==> d.key != e.key
    ensures Sorted(Insert(es, e))
    ensures forall d :: d in Insert(es, e) <==> d == e || d in es
  {
    if es != [] {
      assert es == [es[0]] + es[1..] && es[0] in es;
      if Less(e.key, es[0].key) {
        assert forall i :: 0 < i < |es| ==> Less(es[0].key, es[i].key);
      } else {
        InsertContents(es[1..], e);
        var r := Insert(es[1..], e);
        forall i | 0 <= i < |r| ensures Less(es[0].key, r[i].key) {
          assert r[i] in r;
        }
      }
    }
  }

  ghost function InsertAll(es: seq<Entry>, more: seq<Entry>): seq<Entry> {
    if more == [] then es else Insert(InsertAll(es, more[..|more| - 1]), more[|more| - 1])
  }

  lemma {:induction false} InsertAllContents(es: seq<Entry>, more: seq<Entry>)
    requires Sorted(es) && Sorted(more) && forall d, e :: d in es && e in more ==> d.key != e.key
    ensures Sorted(InsertAll(es, more))
    ensures forall d :: d in InsertAll(es, more) <==> d in es || d in more
  {
    if more != [] {
      var n := |more| - 1;
      assert more == more[..n] + [more[n]];
      InsertAllContents(es, more[..n]);
      forall d | d in InsertAll(es, more[..n]) ensures d.key != more[n].key {
        if d in more[..n] {
          var i :| 0 <= i < n && more[..n][i] == d;
          assert Less(more[i].key, more[n].key);
        }
      }
      InsertContents(InsertAll(es, more[..n]), more[n]);
    }
  }

  ghost function Merged(children: Children): seq<Entry> {
    if children == [] then [] else InsertAll(Merged(children[..|children| - 1]), children[|children| - 1])
  }

  lemma {:induction false} MergedContents(children: Children)
    requires DistinctKeys(children) && forall i :: 0 <= i < |children| ==> Sorted(children[i])
    ensures Sorted(Merged(children))
    ensures forall e :: e in Merged(children) <==> InChildren(children, e)
  {
    if children != [] {
      var n := |children| - 1;
      var front, last := children[..n], children[n];
      assert forall i :: 0 <= i < n ==> front[i] == children[i];
      MergedContents(front);
      forall d, e | d in Merged(front) && e in last ensures d.key != e.key {
        var i :| 0 <= i < n && d in front[i];
        var j :| 0 <= j < |front[i]| && front[i][j] == d;
        var l :| 0 <= l < |last| && last[l] == e;
        assert children[i][j] == d && children[n][l] == e;
      }
      InsertAllContents(Merged(front), last);
      forall e ensures InChildren(children, e) <==> InChildren(front, e) || e in last {
        if InChildren(front, e) {
          var i :| 0 <= i < n && e in front[i];
          assert e in children[i];
        }
      }
    }
  }

  ghost function IndexOf(es: seq<Entry>, e: Entry): (i: nat)
    requires e in es
    ensures i < |es| && es[i] == e
  {
    var i :| 0 <= i < |es| && es[i] == e;
    i
  }

  ghost function HolderOf(children: Children, e: Entry): (o: (nat, nat))
    requires InChildren(children, e)
    ensures o.0 < |children| && o.1 < |children[o.0]| && children[o.0][o.1] == e
  {
    var i :| 0 <= i < |children| && e in children[i];
    (i, IndexOf(children[i], e))
  }

  lemma SamePlace(es: seq<Entry>, i: nat, j: nat)
    requires Sorted(es) && i < |es| && j < |es| && es[i] == es[j]
    ensures i == j
  {
  }

  lemma OrderOfPlaces(es: seq<Entry>, i: nat, j: nat)
    requires Sorted(es) && i < |es| && j < |es| && Less(es[i].key, es[j].key)
    ensures i < j
  {
  }

  // Every family of sorted children with pairwise distinct keys has a merge, so
  // the iterator can be built over it.
  lemma MergeExists(children: Children) returns (merged: seq<Entry>, rank: seq<seq<nat>>, owner: seq<(nat, nat)>)
    requires DistinctKeys(children) && forall i :: 0 <= i < |children| ==> Sorted(children[i])
    ensures IsMerge(children, merged, rank, owner)
    ensures forall e :: e in merged <==> InChildren(children, e)
  {
    merged := Merged(children);
    MergedContents(children);
    forall i, j | 0 <= i < |children| && 0 <= j < |children[i]| ensures children[i][j] in merged {
      assert InChildren(children, children[i][j]);
    }
    rank := seq(|children|, i requires 0 <= i < |children| =>
      seq(|children[i]|, j requires 0 <= j < |children[i]| => IndexOf(merged, children[i][j])));
    forall k | 0 <= k < |merged| ensures InChildren(children, merged[k]) {
      assert merged[k] in merged;
    }
    owner := seq(|merged|, k requires 0 <= k < |merged| => HolderOf(children, merged[k]));
    forall i, j, k | 0 <= i < |children| && 0 <= j < k < |children[i]| ensures rank[i][j] < rank[i][k] {
      assert Less(children[i][j].key, children[i][k].key);
      OrderOfPlaces(merged, rank[i][j], rank[i][k]);
    }
    forall k | 0 <= k < |merged| ensures rank[owner[k].0][owner[k].1] == k {
      var r := rank[owner[k].0][owner[k].1];
      SamePlace(merged, r, k);
    }
  }
}
