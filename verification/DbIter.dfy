// DBIter: the user-visible iterator over an internal iterator (db_iter.cc).
module DbIters {
  import opened Wrappers
  import opened InternalKeys
  import opened Cursors

  // ----- The map visible at a sequence number -----

  // The entry at i is what a reader at s sees for its user key: a value, with no
  // newer visible entry of the key.
  ghost predicate Winner(es: seq<Entry>, s: nat, i: int) {
    && 0 <= i < |es| && es[i].key.sn <= s && es[i].key.kind == Put
    && forall h :: 0 <= h < i && es[h].key.user == es[i].key.user ==> es[h].key.sn > s
  }

  // w is the first winner at or after from; |es| when there is none.
  ghost predicate FirstWinner(es: seq<Entry>, s: nat, from: int, w: int) {
    && from <= w <= |es| && (w < |es| ==> Winner(es, s, w))
    && forall i :: from <= i < w ==> !Winner(es, s, i)
  }

  // w is the last winner before to; -1 when there is none.
  ghost predicate LastWinner(es: seq<Entry>, s: nat, to: int, w: int) {
    && -1 <= w < to && (0 <= w ==> Winner(es, s, w))
    && forall i :: w < i < to ==> !Winner(es, s, i)
  }

  // Winners are the visible map: one per user key, in key order, each carrying the
  // value a read at s returns.
  lemma WinnersAreTheMap(es: seq<Entry>, s: nat)
    requires Sorted(es)
    ensures forall i, j :: Winner(es, s, i) && Winner(es, s, j) && i < j ==> es[i].key.user < es[j].key.user
    ensures forall i :: Winner(es, s, i) ==> Reads(Elems(es), es[i].key.user, s, Some(es[i].value))
    ensures forall user, v :: Reads(Elems(es), user, s, Some(v)) && Unique(Elems(es)) ==>
              exists i :: Winner(es, s, i) && es[i].key.user == user && es[i].value == v
  {
    forall i, j | Winner(es, s, i) && Winner(es, s, j) && i < j ensures es[i].key.user < es[j].key.user {
      assert Less(es[i].key, es[j].key);
    }
    forall i | Winner(es, s, i) ensures Reads(Elems(es), es[i].key.user, s, Some(es[i].value)) {
      forall f | Visible(Elems(es), es[i].key.user, s, f) ensures f.key.sn <= es[i].key.sn {
        var k :| 0 <= k < |es| && es[k] == f;
        assert i < k ==> Less(es[i].key, es[k].key);
      }
      assert IsNewest(Elems(es), es[i].key.user, s, es[i]);
    }
    forall user, v | Reads(Elems(es), user, s, Some(v)) && Unique(Elems(es))
      ensures exists i :: Winner(es, s, i) && es[i].key.user == user && es[i].value == v
    {
      var e :| IsNewest(Elems(es), user, s, e) && Some(v) == Meaning(Some(e));
      var i :| 0 <= i < |es| && es[i] == e;
      forall h | 0 <= h < i && es[h].key.user == user ensures es[h].key.sn > s {
        assert Less(es[h].key, es[i].key);
        assert es[h].key.sn <= s ==> Visible(Elems(es), user, s, es[h]);
      }
      assert Winner(es, s, i);
    }
  }

  // ----- Scanning forward -----

  // The state of FindNextUserEntry's loop at pos when it looks for the first
  // winner at or after first: earlier winners all fall under the key to skip.
  ghost predicate Scanning(es: seq<Entry>, s: nat, first: int, pos: int, skipping: bool, skip: UserKey) {
    && 0 <= pos <= |es| && 0 <= first
    && (forall i :: first <= i < pos ==> !Winner(es, s, i))
    && (forall i :: pos <= i && Winner(es, s, i) ==> (i < first <==> skipping && es[i].key.user <= skip))
    && (forall i :: pos <= i < |es| && es[i].key.sn <= s && skipping ==> es[i].key.user >= skip)
    && (forall h, i :: 0 <= h < pos <= i < |es| && es[h].key.sn <= s && es[h].key.user == es[i].key.user ==>
          skipping && es[h].key.user <= skip)
  }

  lemma ScanHidden(es: seq<Entry>, s: nat, first: int, pos: int, skipping: bool, skip: UserKey)
    requires Sorted(es) && Scanning(es, s, first, pos, skipping, skip) && pos < |es|
    requires es[pos].key.sn > s || (es[pos].key.kind == Put && skipping && es[pos].key.user <= skip)
    ensures Scanning(es, s, first, pos + 1, skipping, skip)
  {
    assert first <= pos ==> !Winner(es, s, pos);
  }

  lemma ScanDeletion(es: seq<Entry>, s: nat, first: int, pos: int, skipping: bool, skip: UserKey)
    requires Sorted(es) && Scanning(es, s, first, pos, skipping, skip) && pos < |es|
    requires es[pos].key.sn <= s && es[pos].key.kind == Deletion
    ensures Scanning(es, s, first, pos + 1, true, es[pos].key.user)
  {
    assert forall i :: pos < i < |es| ==> Less(es[pos].key, es[i].key);
    assert !Winner(es, s, pos);
    forall i | pos < i && Winner(es, s, i) ensures i >= first && es[i].key.user > es[pos].key.user {
    }
    forall h, i | 0 <= h < pos + 1 <= i < |es| && es[h].key.sn <= s && es[h].key.user == es[i].key.user
      ensures es[h].key.user <= es[pos].key.user
    {
      assert h < pos ==> Less(es[h].key, es[pos].key);
    }
  }

  lemma ScanHit(es: seq<Entry>, s: nat, first: int, pos: int, skipping: bool, skip: UserKey)
    requires Sorted(es) && Scanning(es, s, first, pos, skipping, skip) && pos < |es|
    requires es[pos].key.sn <= s && es[pos].key.kind == Put && !(skipping && es[pos].key.user <= skip)
    ensures FirstWinner(es, s, first, pos)
  {
    assert Winner(es, s, pos);
  }

  lemma ScanEnd(es: seq<Entry>, s: nat, first: int, skipping: bool, skip: UserKey)
    requires Scanning(es, s, first, |es|, skipping, skip) && first <= |es|
    ensures FirstWinner(es, s, first, |es|)
  {
  }

  // ----- Scanning backward -----

  // No visible entry lies strictly between the inner position p and w; the entry
  // at p, when there is one, is of an earlier key.
  ghost predicate JustBefore(es: seq<Entry>, s: nat, p: nat, w: int) {
    && 0 <= w < |es|
    && (p < |es| ==> p < w && es[p].key.user < es[w].key.user)
    && forall i :: Below(es, p) < i < w ==> es[i].key.sn > s
  }

  // The index an inner position stands for when moving backward: invalid is -1.
  function Below(es: seq<Entry>, p: nat): int {
    if p < |es| then p else -1
  }

  // The state of FindPrevUserEntry's loop when it looks for the last winner
  // before to and has taken in every entry above q: either nothing there can be
  // it, or the newest visible entry taken in, at v, still may.
  ghost predicate Backing(es: seq<Entry>, s: nat, to: int, q: int, put: bool, v: int) {
    && -1 <= q < to <= |es|
    && (!put ==> forall i :: q < i < to ==> !Winner(es, s, i))
    && (put ==>
          && q < v < to && es[v].key.sn <= s && es[v].key.kind == Put
          && (forall i :: v < i < to ==> !Winner(es, s, i))
          && (forall i :: q < i < v ==> es[i].key.sn > s))
  }

  lemma BackOver(es: seq<Entry>, s: nat, to: int, q: int, put: bool, v: int)
    requires Sorted(es) && Backing(es, s, to, q, put, v) && 0 <= q
    requires es[q].key.sn <= s ==> !(put && es[q].key.user < es[v].key.user)
    ensures
      if es[q].key.sn > s then Backing(es, s, to, q - 1, put, v)
      else Backing(es, s, to, q - 1, es[q].key.kind == Put, q)
  {
    assert put ==> Less(es[q].key, es[v].key);
  }

  lemma BackStops(es: seq<Entry>, s: nat, to: int, q: int, v: int)
    requires Sorted(es) && Backing(es, s, to, q, true, v)
    requires q == -1 || (es[q].key.sn <= s && es[q].key.user < es[v].key.user)
    ensures LastWinner(es, s, to, v) && JustBefore(es, s, if q == -1 then |es| else q, v)
  {
    forall h | 0 <= h < v && es[h].key.user == es[v].key.user ensures es[h].key.sn > s {
      assert h < q ==> Less(es[h].key, es[q].key);
    }
  }

  datatype Direction = Forward | Reverse

  class DBIter {
    const iter: Cursor
    const sequence: nat
    var direction: Direction
    var valid: bool
    var savedKey: UserKey
    var savedValue: Value
    // The winner the iterator stands on while valid.
    ghost var at: int

    constructor (iter: Cursor, s: nat)
      requires Sorted(iter.es)
      ensures this.iter == iter && sequence == s && Good() && !valid
    {
      this.iter, sequence := iter, s;
      direction, valid, savedKey, savedValue, at := Forward, false, 0, "", 0;
    }

    ghost predicate Good()
      reads this, iter
    {
      && Sorted(iter.es)
      && (valid ==> Winner(iter.es, sequence, at))
      && (valid && direction == Forward ==> iter.pos == at)
      && (valid && direction == Reverse ==>
            && savedKey == iter.es[at].key.user && savedValue == iter.es[at].value
            && JustBefore(iter.es, sequence, iter.pos, at))
    }

    // Where the iterator stands, with |es| for "not valid" past the end.
    ghost predicate StandsAtFirst(from: int)
      reads this, iter
    {
      && Good() && direction == Forward
      && FirstWinner(iter.es, sequence, from, if valid then at else |iter.es|)
      && (valid ==> at < |iter.es|)
    }

    ghost predicate StandsAtLast(to: int)
      reads this, iter
    {
      && Good()
      && LastWinner(iter.es, sequence, to, if valid then at else -1)
      && (valid ==> direction == Reverse && 0 <= at)
    }

    method Key() returns (user: UserKey)
      requires Good() && valid
      ensures user == iter.es[at].key.user
    {
      user := if direction == Forward then iter.es[iter.pos].key.user else savedKey;
    }

    method Value() returns (v: Value)
      requires Good() && valid
      ensures v == iter.es[at].value
    {
      v := if direction == Forward then iter.es[iter.pos].value else savedValue;
    }

    method FindNextUserEntry(skipping0: bool, skip0: UserKey, ghost first: int)
      requires Sorted(iter.es) && iter.Valid() && direction == Forward && first <= |iter.es|
      requires Scanning(iter.es, sequence, first, iter.pos, skipping0, skip0)
      modifies this, iter
      ensures StandsAtFirst(first)
    {
      var skipping, skip := skipping0, skip0;
      while true
        invariant iter.Valid() && direction == Forward
        invariant Scanning(iter.es, sequence, first, iter.pos, skipping, skip)
        decreases |iter.es| - iter.pos
      {
        var e := iter.es[iter.pos];
        if e.key.sn <= sequence {
          if e.key.kind == Deletion {
            ScanDeletion(iter.es, sequence, first, iter.pos, skipping, skip);
            skip := e.key.user;
            skipping := true;
          } else if skipping && e.key.user <= skip {
            ScanHidden(iter.es, sequence, first, iter.pos, skipping, skip);
          } else {
            ScanHit(iter.es, sequence, first, iter.pos, skipping, skip);
            valid := true;
            at := iter.pos;
            return;
          }
        } else {
          ScanHidden(iter.es, sequence, first, iter.pos, skipping, skip);
        }
        iter.Next();
        if !iter.Valid() {
          break;
        }
      }
      ScanEnd(iter.es, sequence, first, skipping, skip);
      valid := false;
    }

    method FindPrevUserEntry(ghost to: int)
      requires Sorted(iter.es) && direction == Reverse
      requires Below(iter.es, iter.pos) + 1 == to
      modifies this, iter
      ensures StandsAtLast(to)
    {
      var valueType := Deletion;
      ghost var v := 0;
      if iter.Valid() {
        while true
          invariant iter.Valid() && direction == Reverse
          invariant Backing(iter.es, sequence, to, iter.pos, valueType == Put, v)
          invariant valueType == Put ==> savedKey == iter.es[v].key.user && savedValue == iter.es[v].value
          decreases iter.pos
        {
          var e := iter.es[iter.pos];
          if e.key.sn <= sequence {
            if valueType != Deletion && e.key.user < savedKey {
              BackStops(iter.es, sequence, to, iter.pos, v);
              break;
            }
            BackOver(iter.es, sequence, to, iter.pos, valueType == Put, v);
            valueType := e.key.kind;
            if valueType == Deletion {
              savedKey, savedValue := 0, "";
            } else {
              savedKey, savedValue := e.key.user, e.value;
            }
            v := iter.pos;
          } else {
            BackOver(iter.es, sequence, to, iter.pos, valueType == Put, v);
          }
          ghost var q := iter.pos;
          iter.Prev();
          if !iter.Valid() {
            if valueType == Put {
              BackStops(iter.es, sequence, to, -1, v);
            }
            break;
          }
        }
      }
      if valueType == Deletion {
        valid := false;
        savedKey, savedValue := 0, "";
        direction := Forward;
      } else {
        valid := true;
        at := v;
      }
    }

    // Seek: the first visible key at or after target.
    method Seek(target: UserKey)
      requires Good()
      modifies this, iter
      ensures Good() && direction == Forward
      ensures valid ==> iter.es[at].key.user >= target
      ensures forall i :: Winner(iter.es, sequence, i) && iter.es[i].key.user >= target ==> valid && at <= i
    {
      direction := Forward;
      savedValue := "";
      iter.Seek(LookupKey(target, sequence));
      ghost var start := iter.pos;
      if iter.Valid() {
        SeekScans(iter.es, sequence, target, iter.pos);
        FindNextUserEntry(false, 0, iter.pos);
      } else {
        valid := false;
      }
      assert forall i :: 0 <= i < start ==> Less(iter.es[i].key, LookupKey(target, sequence));
    }

    method SeekToFirst()
      requires Good()
      modifies this, iter
      ensures StandsAtFirst(0)
    {
      direction := Forward;
      savedValue := "";
      iter.SeekToFirst();
      if iter.Valid() {
        FindNextUserEntry(false, 0, 0);
      } else {
        valid := false;
      }
    }

    method SeekToLast()
      requires Good()
      modifies this, iter
      ensures StandsAtLast(|iter.es|)
    {
      direction := Reverse;
      savedValue := "";
      iter.SeekToLast();
      FindPrevUserEntry(|iter.es|);
    }

    // Next: the first visible key after the current one, from either direction.
    method Next()
      requires Good() && valid
      modifies this, iter
      ensures StandsAtFirst(old(at) + 1)
    {
      if direction == Reverse {
        direction := Forward;
        if !iter.Valid() {
          iter.SeekToFirst();
        } else {
          iter.Next();
        }
        // The source tests for an exhausted inner iterator here; the current
        // key's own entries are still ahead, so it never is.
        assert iter.Valid();
      } else {
        savedKey := iter.es[iter.pos].key.user;
      }
      NextScans(iter.es, sequence, at, iter.pos);
      FindNextUserEntry(true, savedKey, at + 1);
    }

    // Prev: the last visible key before the current one, from either direction.
    method Prev()
      requires Good() && valid
      modifies this, iter
      ensures StandsAtLast(old(at))
    {
      ghost var to := at;
      if direction == Forward {
        savedKey := iter.es[iter.pos].key.user;
        while true
          invariant iter.Valid() && 0 <= iter.pos <= at && direction == Forward && valid
          invariant Winner(iter.es, sequence, at) && at == to && savedKey == iter.es[at].key.user
          invariant forall i :: iter.pos <= i <= at ==> iter.es[i].key.user == savedKey
          decreases iter.pos
        {
          iter.Prev();
          if !iter.Valid() {
            valid := false;
            savedKey, savedValue := 0, "";
            return;
          }
          if iter.es[iter.pos].key.user < savedKey {
            break;
          }
          assert iter.pos < at && Less(iter.es[iter.pos].key, iter.es[at].key);
        }
        direction := Reverse;
        PrevGap(iter.es, sequence, iter.pos, at);
      } else {
        PrevGap(iter.es, sequence, iter.pos, at);
      }
      ghost var p := Below(iter.es, iter.pos);
      FindPrevUserEntry(p + 1);
      LastWinnerWidens(iter.es, sequence, p + 1, to, if valid then at else -1);
    }
  }

  lemma SeekScans(es: seq<Entry>, s: nat, target: UserKey, pos: nat)
    requires Sorted(es) && IsLowerBound(es, LookupKey(target, s), pos)
    ensures Scanning(es, s, pos, pos, false, 0)
  {
  }

  lemma NextScans(es: seq<Entry>, s: nat, at: int, pos: nat)
    requires Sorted(es) && Winner(es, s, at)
    requires pos == at || (pos <= at && forall i :: pos <= i < at ==> es[i].key.sn > s)
    requires pos > 0 && pos != at ==> es[pos - 1].key.user < es[at].key.user
    ensures Scanning(es, s, at + 1, pos, true, es[at].key.user)
  {
  }

  lemma PrevGap(es: seq<Entry>, s: nat, p: nat, at: int)
    requires Sorted(es) && Winner(es, s, at)
    requires JustBefore(es, s, p, at) || (p < at && forall i :: p < i < at ==> es[i].key.user == es[at].key.user)
    ensures forall i :: Below(es, p) < i < at ==> !Winner(es, s, i)
  {
  }

  lemma LastWinnerWidens(es: seq<Entry>, s: nat, to: int, to': int, w: int)
    requires LastWinner(es, s, to, w) && to <= to' && forall i :: to <= i < to' ==> !Winner(es, s, i)
    ensures LastWinner(es, s, to', w)
  {
  }
}
