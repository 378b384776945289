// The iterator contract every layer implements: a sorted sequence and a position,
// |es| standing for "not valid" (leveldb/iterator.h).
module Cursors {
  import opened InternalKeys
  import Versions

  class Cursor {
    const es: seq<Entry>
    var pos: nat

    constructor (es: seq<Entry>)
      requires Sorted(es)
      ensures this.es == es && pos == |es|
    {
      this.es, pos := es, |es|;
    }

    predicate Valid()
      reads this
    {
      pos < |es|
    }

    method Seek(target: Key)
      requires Sorted(es)
      modifies this
      ensures IsLowerBound(es, target, pos)
    {
      pos := Versions.SeekPosition(es, target);
    }

    method SeekToFirst()
      modifies this
      ensures pos == 0
    {
      pos := 0;
    }

    method SeekToLast()
      modifies this
      ensures pos == LastPosition(es)
    {
      pos := if es == [] then 0 else |es| - 1;
    }

    method Next()
      requires Valid()
      modifies this
      ensures pos == old(pos) + 1
    {
      pos := pos + 1;
    }

    method Prev()
      requires Valid()
      modifies this
      ensures pos == PrevPosition(es, old(pos))
    {
      pos := if pos == 0 then |es| else pos - 1;
    }
  }

  function LastPosition(es: seq<Entry>): nat {
    if es == [] then 0 else |es| - 1
  }

  function PrevPosition(es: seq<Entry>, pos: nat): nat {
    if pos == 0 then |es| else pos - 1
  }
}
