// Boolean search with paging (Engine::search, src/Engine.hpp): all words, each in
// any field.
module Engines {
  import opened Powers
  import opened LazyOrs
  import opened LazyAnds


  // The stored posting of a word in a field, absent when the word index or the
  // inverted index has none.
  datatype Lookup = Missing | Found(docs: Docs)

  type Index = (string, string) -> Lookup

  ghost predicate IsIndex(index: Index) {
    forall field, token :: index(field, token).Found? ==> IsPosting(index(field, token).docs)
  }

  // ----- What is asked for -----

  ghost predicate InSomeField(index: Index, fields: seq<string>, token: string, d: nat) {
    exists f :: 0 <= f < |fields| && index(fields[f], token).Found? && d in index(fields[f], token).docs
  }

  // A query without words matches nothing.
  ghost predicate Matches(index: Index, fields: seq<string>, tokens: seq<string>, d: nat) {
    tokens != [] && forall t :: 0 <= t < |tokens| ==> InSomeField(index, fields, tokens[t], d)
  }

  ghost predicate Ascending(list: seq<nat>) {
    forall i, j :: 0 <= i < j < |list| ==> list[i] < list[j]
  }

  lemma {:induction false} LargestExists(docs: set<nat>) returns (m: nat)
    requires docs != {}
    ensures m in docs && forall d :: d in docs ==> d <= m
    decreases docs
  {
    var x :| x in docs;
    m := x;
    if docs - {x} != {} {
      var n := LargestExists(docs - {x});
      assert forall d :: d in docs ==> d == x || d in docs - {x};
      m := if n > x then n else x;
    } else {
      assert forall d :: d in docs ==> d == x || d in docs - {x};
    }
  }

  // The ascending, duplicate-free list of a set of docs.
  ghost function SortedList(docs: set<nat>): (list: seq<nat>)
    ensures Ascending(list) && forall d :: d in list <==> d in docs
    decreases docs
  {
    if docs == {} then []
    else
      assert exists m :: m in docs && forall d :: d in docs ==> d <= m by {
        var m := LargestExists(docs);
      }
      var m :| m in docs && forall d :: d in docs ==> d <= m;
      var front := SortedList(docs - {m});
      assert forall d :: d in front ==> d < m;
      assert forall i :: 0 <= i < |front| ==> front[i] in front;
      front + [m]
  }

  ghost function Matching(index: Index, fields: seq<string>, tokens: seq<string>): set<nat> {
    set d: nat | d <= MAX_DOC && Matches(index, fields, tokens, d)
  }

  function Min(a: nat, b: nat): nat {
    if a < b then a else b
  }

  // The page of `count` docs from position `skip`, or as many as there are; the whole rest
  // if count is 0.
  function Page(list: seq<nat>, skip: nat, count: nat): (page: seq<nat>)
    ensures forall i :: 0 <= i < |page| ==> skip + i < |list| && page[i] == list[skip + i]
    ensures skip + |page| < |list| ==> count > 0 && |page| == count
    ensures count > 0 ==> |page| <= count
  {
    if skip >= |list| then []
    else if count == 0 then list[skip..]
    else list[skip..Min(skip + count, |list|)]
  }

  // ----- The search -----

  // The postings of one token, field by field.
  method Unions(index: Index, fields: seq<string>, token: string) returns (unionSet: seq<Docs>)
    requires IsIndex(index)
    ensures forall i :: 0 <= i < |unionSet| ==> IsPosting(unionSet[i])
    ensures forall d: nat :: d in UnionOf(unionSet) <==> InSomeField(index, fields, token, d)
  {
    unionSet := [];
    var f := 0;
    while f < |fields|
      invariant f <= |fields|
      invariant forall i :: 0 <= i < |unionSet| ==> IsPosting(unionSet[i])
      invariant forall d: nat :: d in UnionOf(unionSet) <==> InSomeField(index, fields[..f], token, d)
    {
      FieldAdds(index, fields, f, token, unionSet);
      match index(fields[f], token) {
        case Missing =>
        case Found(docs) => unionSet := unionSet + [docs];
      }
      f := f + 1;
    }
    assert fields[..f] == fields;
  }

  lemma UnionAdds(lists: seq<Docs>, docs: Docs, d: nat)
    ensures d in UnionOf(lists + [docs]) <==> d in UnionOf(lists) || d in docs
  {
    var all := lists + [docs];
    if d in UnionOf(lists) {
      var i, k :| 0 <= i < |lists| && 0 <= k < |lists[i]| && lists[i][k] == d;
      assert all[i][k] == d;
    }
    if d in docs {
      var k :| 0 <= k < |docs| && docs[k] == d;
      assert all[|lists|][k] == d;
    }
  }

  lemma FieldAdds(index: Index, fields: seq<string>, f: nat, token: string, lists: seq<Docs>)
    requires f < |fields|
    ensures forall d: nat :: InSomeField(index, fields[..f + 1], token, d) <==>
      InSomeField(index, fields[..f], token, d) || (index(fields[f], token).Found? && d in index(fields[f], token).docs)
    ensures index(fields[f], token).Found? ==>
      forall d: nat :: d in UnionOf(lists + [index(fields[f], token).docs]) <==> d in UnionOf(lists) || d in index(fields[f], token).docs
  {
    forall d: nat
      ensures InSomeField(index, fields[..f + 1], token, d) <==>
        InSomeField(index, fields[..f], token, d) || (index(fields[f], token).Found? && d in index(fields[f], token).docs)
    {
      if InSomeField(index, fields[..f], token, d) {
        var g :| 0 <= g < f && index(fields[..f][g], token).Found? && d in index(fields[..f][g], token).docs;
        assert fields[..f + 1][g] == fields[..f][g];
      }
      if index(fields[f], token).Found? && d in index(fields[f], token).docs {
        assert fields[..f + 1][f] == fields[f];
      }
      if InSomeField(index, fields[..f + 1], token, d) {
        var g :| 0 <= g < f + 1 && index(fields[..f + 1][g], token).Found? && d in index(fields[..f + 1][g], token).docs;
        assert g < f ==> fields[..f][g] == fields[..f + 1][g];
      }
    }
    if index(fields[f], token).Found? {
      forall d: nat
        ensures d in UnionOf(lists + [index(fields[f], token).docs]) <==> d in UnionOf(lists) || d in index(fields[f], token).docs
      {
        UnionAdds(lists, index(fields[f], token).docs, d);
      }
    }
  }

  // Taking docs from the intersection: those in hand, and how far the loop is.
  ghost predicate Taken(list: seq<nat>, docs: set<nat>, last: nat) {
    && Ascending(list) && (forall d :: d in list ==> 0 < d <= MAX_DOC)
    && (forall d :: d in list <==> d in docs && d <= last)
  }

  lemma TakeNext(list: seq<nat>, docs: set<nat>, last: nat, r: nat)
    requires Taken(list, docs, last) && IsLeastFrom(docs, last + 1, r) && (forall d :: d in docs ==> 0 < d <= MAX_DOC)
    ensures r != NO_MORE_DOCS ==> Taken(list + [r], docs, r)
    ensures r == NO_MORE_DOCS ==> forall d :: d in list <==> d in docs
  {
    if r != NO_MORE_DOCS {
      var longer := list + [r];
      forall d ensures d in longer <==> d in docs && d <= r {
        assert d in longer <==> d in list || d == r;
      }
      forall i, j | 0 <= i < j < |longer| ensures longer[i] < longer[j] {
        assert longer[i] in list;
      }
    }
  }

  lemma Tail(list: seq<nat>)
    requires Ascending(list) && list != []
    ensures Ascending(list[1..]) && forall d :: d in list[1..] <==> d in list && list[0] < d
    ensures forall d :: d in list ==> list[0] <= d
  {
    forall d | d in list ensures list[0] <= d && (list[0] < d ==> d in list[1..]) {
      var i :| 0 <= i < |list| && list[i] == d;
      assert i > 0 ==> list[1..][i - 1] == d;
    }
    forall d | d in list[1..] ensures d in list && list[0] < d {
      var i :| 0 <= i < |list| - 1 && list[1..][i] == d;
      assert list[i + 1] == d;
    }
  }

  // An ascending list that holds the smallest elements of another is a prefix of it.
  lemma {:induction false} SmallestArePrefix(a: seq<nat>, b: seq<nat>)
    requires Ascending(a) && Ascending(b) && forall d :: d in a ==> d in b
    requires forall d, e :: d in a && e in b && e <= d ==> e in a
    ensures a <= b
  {
    hide Ascending;
    if a != [] {
      assert a[0] in a;
      SameFirst(a, b);
      Tail(a);
      Tail(b);
      SmallestArePrefix(a[1..], b[1..]);
      assert a == [a[0]] + a[1..] && b == [b[0]] + b[1..];
    }
  }

  lemma SameFirst(a: seq<nat>, b: seq<nat>)
    requires Ascending(a) && Ascending(b) && a != [] && forall d :: d in a ==> d in b
    requires forall d, e :: d in a && e in b && e <= d ==> e in a
    ensures b != [] && a[0] == b[0]
  {
    assert a[0] in a && a[0] in b;
    Tail(a);
    Tail(b);
    assert b[0] in b;
  }

  lemma TakenIsPrefix(list: seq<nat>, docs: set<nat>, last: nat)
    requires Taken(list, docs, last)
    ensures list <= SortedList(docs)
    ensures (forall d :: d in list <==> d in docs) ==> list == SortedList(docs)
  {
    SmallestArePrefix(list, SortedList(docs));
    if forall d :: d in list <==> d in docs {
      SmallestArePrefix(SortedList(docs), list);
    }
  }

  method Iterators(index: Index, fields: seq<string>, tokens: seq<string>) returns (children: seq<LazyOrSetIterator>)
    requires IsIndex(index)
    ensures |children| == |tokens| && AllValid(children) && forall t :: 0 <= t < |children| ==> fresh(children[t])
    ensures forall t :: 0 <= t < |children| ==> children[t].curDoc == 0 || Spent(children[t], 0)
    ensures forall t, d: nat :: 0 <= t < |children| ==> (d in children[t].docs <==> InSomeField(index, fields, tokens[t], d))
  {
    hide InSomeField, LazyOrSetIterator.Valid;
    children := [];
    var t := 0;
    while t < |tokens|
      invariant t == |children| <= |tokens| && AllValid(children)
      invariant forall j :: 0 <= j < t ==> fresh(children[j])
      invariant forall j :: 0 <= j < t ==> children[j].curDoc == 0 || Spent(children[j], 0)
      invariant forall j, d: nat :: 0 <= j < t ==> (d in children[j].docs <==> InSomeField(index, fields, tokens[j], d))
    {
      var unionSet := Unions(index, fields, tokens[t]);
      var child := new LazyOrSetIterator(unionSet);
      children := children + [child];
      t := t + 1;
    }
  }

  lemma CommonIsMatching(index: Index, fields: seq<string>, tokens: seq<string>, children: seq<LazyOrSetIterator>)
    requires IsIndex(index) && |children| == |tokens|
    requires forall t, d: nat :: 0 <= t < |children| ==> (d in children[t].docs <==> InSomeField(index, fields, tokens[t], d))
    ensures Common(children) == Matching(index, fields, tokens)
    ensures forall d :: d in Common(children) ==> 0 < d <= MAX_DOC
  {
    forall d: nat ensures d in Common(children) <==> Matches(index, fields, tokens, d) {
    }
    forall d: nat | Matches(index, fields, tokens, d) ensures 0 < d <= MAX_DOC {
      assert InSomeField(index, fields, tokens[0], d);
    }
  }

  // What the iterator has given so far.
  ghost predicate Consumed(taken: seq<nat>, docs: set<nat>, last: nat) {
    if last == NO_MORE_DOCS then taken == SortedList(docs) else Taken(taken, docs, last)
  }

  lemma ConsumeNext(taken: seq<nat>, docs: set<nat>, last: nat, r: nat)
    requires Consumed(taken, docs, last) && last <= MAX_DOC && IsLeastFrom(docs, last + 1, r)
    requires forall d :: d in docs ==> 0 < d <= MAX_DOC
    ensures last < r && taken <= SortedList(docs)
    ensures Consumed(if r == NO_MORE_DOCS then taken else taken + [r], docs, r)
    ensures r != NO_MORE_DOCS ==> taken + [r] <= SortedList(docs) && |taken| < |SortedList(docs)|
  {
    TakeNext(taken, docs, last, r);
    TakenIsPrefix(taken, docs, last);
    if r != NO_MORE_DOCS {
      TakenIsPrefix(taken + [r], docs, r);
    }
  }

  lemma NothingConsumed(docs: set<nat>, last: nat)
    requires last == 0 || docs == {}
    requires last == 0 || last == NO_MORE_DOCS
    requires forall d :: d in docs ==> 0 < d <= MAX_DOC
    ensures Consumed([], docs, last)
  {
    assert docs == {} ==> SortedList(docs) == [];
  }

  // One page of the ascending list of all matches, from position start * offset as a
  // 32-bit product; the whole list if offset is 0.
  method Search(index: Index, fields: seq<string>, tokens: seq<string>, start: nat, offset: nat)
    returns (documentIdList: seq<nat>)
    requires IsIndex(index) && start < TWO_32 && offset < TWO_32
    ensures documentIdList == Page(SortedList(Matching(index, fields, tokens)), start * offset % TWO_32, offset)
  {
    hide InSomeField, LazyAndSetIterator.Valid, AllValid, SortedList, IsLeastFrom, Matching, Consumed;
    var skip := start * offset % TWO_32;
    assert offset == 0 ==> skip == 0;
    var children := Iterators(index, fields, tokens);
    CommonIsMatching(index, fields, tokens, children);
    ghost var docs := Common(children);
    ghost var list := SortedList(docs);
    var it := new LazyAndSetIterator(children);
    NothingConsumed(docs, it.lastReturn);
    hide Common;
    ghost var taken: seq<nat> := [];
    documentIdList := [];
    var i := 0;
    while true
      invariant it.Valid() && it.children == children && Consumed(taken, docs, it.lastReturn)
      invariant it.lastReturn == NO_MORE_DOCS || it.lastReturn <= MAX_DOC
      invariant i == (if offset == 0 then 0 else |taken|) && (offset > 0 ==> i <= skip + offset)
      invariant documentIdList == if |taken| <= skip then [] else taken[skip..]
      decreases NO_MORE_DOCS - it.lastReturn
    {
      ghost var last := it.lastReturn;
      var docId := it.NextDoc();
      if last == NO_MORE_DOCS {
        AllConsumed(taken, docs);
      } else {
        ConsumeNext(taken, docs, last, docId);
      }
      if docId == NO_MORE_DOCS {
        AllConsumed(taken, docs);
        break;
      }
      if i < skip {
        i := i + 1;
      } else if offset > 0 {
        if i - skip < offset {
          i := i + 1;
          documentIdList := documentIdList + [docId];
        } else {
          assert list[skip..skip + offset] == taken[skip..];
          break;
        }
      } else {
        documentIdList := documentIdList + [docId];
      }
      taken := taken + [docId];
    }
  }

  lemma AllConsumed(taken: seq<nat>, docs: set<nat>)
    requires Consumed(taken, docs, NO_MORE_DOCS)
    ensures taken == SortedList(docs)
  {
  }

  // The page asked for starts at start * offset. It is what Search gives exactly when
  // the product has not wrapped round, or the list ends before the wrapped position.
  lemma PageIsPromised(list: seq<nat>, start: nat, offset: nat)
    requires |list| <= MAX_DOC
    ensures Page(list, start * offset % TWO_32, offset) == Page(list, start * offset, offset) <==>
            start * offset < TWO_32 || |list| <= start * offset % TWO_32
  {
    var product := start * offset;
    if product >= TWO_32 && |list| > product % TWO_32 {
      assert offset > 0;
      assert |Page(list, product % TWO_32, offset)| > 0;
    }
  }
}
