// The lazy intersection: children leap over each other until they agree
// (varint/LazyAndSet.cpp).
module LazyAnds {
  import opened LazyOrs

  // The docs of all children; no children, no docs.
  ghost function Common(children: seq<LazyOrSetIterator>): set<nat> {
    if children == [] then {}
    else set d | d in children[0].docs && forall i :: 0 <= i < |children| ==> d in children[i].docs
  }

  lemma CommonIn(children: seq<LazyOrSetIterator>, i: nat)
    requires i < |children|
    ensures Common(children) <= children[i].docs
  {
  }

  lemma AllCommon(children: seq<LazyOrSetIterator>, d: nat)
    requires children != [] && forall i :: 0 <= i < |children| ==> d in children[i].docs
    ensures d in Common(children)
  {
  }

  ghost predicate AllValid(children: seq<LazyOrSetIterator>)
    reads children
  {
    && (forall i :: 0 <= i < |children| ==> children[i].Valid())
    && (forall i, j :: 0 <= i < j < |children| ==> children[i] != children[j])
  }

  // Nothing to come from this child at or after d.
  ghost predicate Spent(child: LazyOrSetIterator, d: nat)
    reads child
  {
    child.curDoc == NO_MORE_DOCS && forall e :: e in child.docs ==> e < d
  }

  // The child stands before d, or has nothing from d on.
  ghost predicate Behind(child: LazyOrSetIterator, d: nat)
    reads child
  {
    (child.curDoc < d && child.curDoc <= MAX_DOC) || Spent(child, d)
  }

  ghost predicate Near(child: LazyOrSetIterator, d: nat)
    reads child
  {
    child.curDoc == d || Spent(child, d + 1)
  }

  class LazyAndSetIterator {
    const children: seq<LazyOrSetIterator>
    var lastReturn: nat

    // Between calls every child stands at the last doc returned, except one that was
    // empty from the start.
    ghost predicate Valid()
      reads this, children
    {
      && AllValid(children)
      && (lastReturn <= MAX_DOC || lastReturn == NO_MORE_DOCS)
      && (lastReturn != NO_MORE_DOCS ==>
            children != [] && forall i :: 0 <= i < |children| ==> Near(children[i], lastReturn))
    }

    ghost function Docs(): set<nat> {
      Common(children)
    }

    constructor (children: seq<LazyOrSetIterator>)
      requires AllValid(children)
      requires forall i :: 0 <= i < |children| ==> children[i].curDoc == 0 || Spent(children[i], 0)
      ensures Valid() && this.children == children
      ensures lastReturn == if children == [] then NO_MORE_DOCS else 0
    {
      this.children := children;
      lastReturn := if |children| == 0 then NO_MORE_DOCS else 0;
    }

    // The leapfrog: child 0 has been moved to target.
    method Leap(first: nat, ghost from: nat) returns (r: nat)
      requires AllValid(children) && children != [] && first == children[0].curDoc
      requires first <= MAX_DOC && IsLeastFrom(children[0].docs, from, first)
      requires forall j :: 0 < j < |children| ==> Behind(children[j], first)
      modifies this, children
      ensures Valid() && r == lastReturn && IsLeastFrom(Docs(), from, r)
    {
      hide LazyOrSetIterator.Valid, Common;
      forall i | 0 <= i < |children| ensures Docs() <= children[i].docs {
        CommonIn(children, i);
      }
      var target := first;
      var size := |children|;
      var skip := 0;
      var i := 1;
      while i < size
        invariant AllValid(children) && 0 <= i <= size && skip < size && from <= target <= MAX_DOC
        invariant forall d :: d in Docs() && from <= d ==> target <= d
        invariant children[skip].curDoc == target
        invariant forall j :: 0 <= j < i ==> children[j].curDoc == target
        invariant forall j :: i <= j < size && j != skip ==> Behind(children[j], target)
        invariant target in children[skip].docs && forall j :: 0 <= j < i ==> target in children[j].docs
        decreases MAX_DOC - target, size - i
      {
        if i != skip {
          var docId := children[i].Advance(target);
          if docId == NO_MORE_DOCS {
            lastReturn := docId;
            return docId;
          }
          if docId > target {
            target := docId;
            if i != 0 {
              skip := i;
              i := 0;
              continue;
            } else {
              skip := 0;
            }
          }
        }
        i := i + 1;
      }
      AllCommon(children, target);
      lastReturn := target;
      return target;
    }

    method NextDoc() returns (r: nat)
      requires Valid()
      modifies this, children
      ensures Valid() && r == lastReturn && IsLeastFrom(Docs(), old(lastReturn) + 1, r)
    {
      if lastReturn == NO_MORE_DOCS {
        return NO_MORE_DOCS;
      }
      var target := children[0].NextDoc();
      if target == NO_MORE_DOCS {
        lastReturn := target;
        return target;
      }
      r := Leap(target, lastReturn + 1);
    }

    method Advance(to: nat) returns (r: nat)
      requires Valid() && to <= NO_MORE_DOCS
      modifies this, children
      ensures Valid() && r == lastReturn && IsLeastFrom(Docs(), if to <= old(lastReturn) then old(lastReturn) + 1 else to, r)
    {
      if lastReturn == NO_MORE_DOCS {
        return NO_MORE_DOCS;
      }
      var target := children[0].Advance(to);
      if target == NO_MORE_DOCS {
        lastReturn := target;
        return target;
      }
      r := Leap(target, if to <= lastReturn then lastReturn + 1 else to);
    }
  }
}
