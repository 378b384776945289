// The batched inverted index: producers fill one buffer while the consumer empties
// the other into the cache (src/InvertedIndexBatch.hpp). A posting list is the
// sequence of documents added to it; writing it out and reading it back are inverse.
module IndexBatches {
  import opened Wrappers
  import opened LruCaches

  type Docs = seq<nat>

  datatype Posting = Posting(doc: nat, word: nat)

  function ForWord(ps: seq<Posting>, w: nat): Docs {
    if ps == [] then []
    else ForWord(ps[..|ps| - 1], w) + if ps[|ps| - 1].word == w then [ps[|ps| - 1].doc] else []
  }

  lemma {:induction false} ForWordJoin(a: seq<Posting>, b: seq<Posting>, w: nat)
    ensures ForWord(a + b, w) == ForWord(a, w) + ForWord(b, w)
  {
    if b == [] {
      assert a + b == a;
    } else {
      var n := |b| - 1;
      assert (a + b)[..|a + b| - 1] == a + b[..n] && (a + b)[|a + b| - 1] == b[n];
      ForWordJoin(a, b[..n], w);
    }
  }

  // ----- Sorting a batch by word, stably -----

  // Behind equal words.
  function InsertPosting(ps: seq<Posting>, p: Posting): (r: seq<Posting>)
    ensures |r| == |ps| + 1
  {
    if ps == [] || ps[|ps| - 1].word <= p.word then ps + [p] else InsertPosting(ps[..|ps| - 1], p) + [ps[|ps| - 1]]
  }

  function StableSort(ps: seq<Posting>): (r: seq<Posting>)
    ensures |r| == |ps|
  {
    if ps == [] then [] else InsertPosting(StableSort(ps[..|ps| - 1]), ps[|ps| - 1])
  }

  ghost predicate SortedByWord(ps: seq<Posting>) {
    forall i, j :: 0 <= i < j < |ps| ==> ps[i].word <= ps[j].word
  }

  lemma {:induction false} InsertSorted(ps: seq<Posting>, p: Posting)
    requires SortedByWord(ps)
    ensures SortedByWord(InsertPosting(ps, p))
    ensures forall q :: q in InsertPosting(ps, p) ==> q in ps || q == p
  {
    if ps != [] && ps[|ps| - 1].word > p.word {
      var n := |ps| - 1;
      InsertSorted(ps[..n], p);
      var r := InsertPosting(ps[..n], p);
      forall i | 0 <= i < |r| ensures r[i].word <= ps[n].word {
        assert r[i] in r;
      }
    }
  }

  lemma {:induction false} InsertKeepsWord(ps: seq<Posting>, p: Posting, w: nat)
    ensures ForWord(InsertPosting(ps, p), w) == ForWord(ps + [p], w)
  {
    if ps != [] && ps[|ps| - 1].word > p.word {
      var n := |ps| - 1;
      var q := ps[n];
      InsertKeepsWord(ps[..n], p, w);
      ForWordJoin(InsertPosting(ps[..n], p), [q], w);
      ForWordJoin(ps[..n], [p], w);
      ForWordJoin(ps[..n], [q], w);
      ForWordJoin(ps, [p], w);
      assert ps == ps[..n] + [q];
      SingleWord(p, w);
      SingleWord(q, w);
      hide ForWord;
    }
  }

  lemma SingleWord(p: Posting, w: nat)
    ensures ForWord([p], w) == if p.word == w then [p.doc] else []
  {
    assert [p][..0] == [];
  }

  // The batch comes out grouped by word, each word's documents in the order added.
  lemma {:induction false} StableSortKeepsOrder(ps: seq<Posting>, w: nat)
    ensures SortedByWord(StableSort(ps)) && ForWord(StableSort(ps), w) == ForWord(ps, w)
  {
    if ps != [] {
      var n := |ps| - 1;
      StableSortKeepsOrder(ps[..n], w);
      InsertSorted(StableSort(ps[..n]), ps[n]);
      InsertKeepsWord(StableSort(ps[..n]), ps[n], w);
      ForWordJoin(StableSort(ps[..n]), [ps[n]], w);
      ForWordJoin(ps[..n], [ps[n]], w);
      assert ps == ps[..n] + [ps[n]];
    }
  }

  // ----- The machine -----

  // The consumer between batches, or inside one: the next posting, and the word whose
  // list it has in hand.
  datatype Phase = Idle | Flushing(sorted: seq<Posting>, next: nat, word: nat, docs: Docs)

  datatype State = State(
    cache: seq<Entry<Docs>>,
    store: map<nat, Docs>,
    consumer: seq<Posting>,
    producer: seq<Posting>,
    phase: Phase
  )

  datatype Step =
    | Add(word: nat, doc: nat)
    | AddDocument(doc: nat, words: seq<nat>)
    | Swap
    | BeginFlush
    | FlushOne
    | EndFlush

  // getOrCreate: a list that is nowhere yet is empty.
  function ListOf(cache: seq<Entry<Docs>>, store: map<nat, Docs>, w: nat): Docs {
    match Current(cache, store, w) case Some(docs) => docs case None => []
  }

  function PostingsOf(doc: nat, words: seq<nat>): seq<Posting> {
    seq(|words|, i requires 0 <= i < |words| => Posting(doc, words[i]))
  }

  predicate Enabled(s: State, step: Step) {
    match step
    case Add(word, doc) => true
    case AddDocument(doc, words) => true
    case Swap => s.phase.Idle? && s.consumer == [] && s.producer != []
    case BeginFlush => s.phase.Idle? && s.consumer != []
    case FlushOne => s.phase.Flushing? && s.phase.next < |s.phase.sorted|
    case EndFlush => s.phase.Flushing? && s.phase.next == |s.phase.sorted|
  }

  // cachePut of the list in hand.
  function PutBack(s: State, size: nat): State
    requires s.phase.Flushing? && size > 0
  {
    s.(cache := PutEntries(s.cache, size, Entry(s.phase.word, s.phase.docs, true)),
       store := StoreEvicted(s.store, Evicted(s.cache, size, s.phase.word)))
  }

  // getOrCreate of the list of word w.
  function TakeUp(s: State, w: nat, sorted: seq<Posting>, next: nat): State {
    s.(cache := Touched(s.cache, w), phase := Flushing(sorted, next, w, ListOf(s.cache, s.store, w)))
  }

  function Apply(s: State, step: Step, size: nat): State
    requires Enabled(s, step) && size > 0
  {
    match step
    case Add(word, doc) => s.(producer := s.producer + [Posting(doc, word)])
    case AddDocument(doc, words) => s.(producer := s.producer + PostingsOf(doc, words))
    case Swap => s.(consumer := s.producer, producer := s.consumer)
    case BeginFlush =>
      var sorted := StableSort(s.consumer);
      TakeUp(s, sorted[0].word, sorted, 0)
    case FlushOne =>
      var p := s.phase.sorted[s.phase.next];
      var t := if p.word != s.phase.word then TakeUp(PutBack(s, size), p.word, s.phase.sorted, s.phase.next) else s;
      t.(phase := t.phase.(next := s.phase.next + 1, docs := t.phase.docs + [p.doc]))
    case EndFlush => PutBack(s, size).(consumer := [], phase := Idle)
  }

  // What has been added so far for w and is not lost: its list, in hand, cached or
  // stored, then what the consumer has still to flush, then the producer's buffer.
  function AllOf(s: State, w: nat): Docs {
    match s.phase
    case Idle => ListOf(s.cache, s.store, w) + ForWord(s.consumer, w) + ForWord(s.producer, w)
    case Flushing(sorted, next, word, docs) =>
      (if w == word then docs else ListOf(s.cache, s.store, w)) +
      (if next <= |sorted| then ForWord(sorted[next..], w) else []) + ForWord(s.producer, w)
  }

  // The documents a step asks to be listed under w: a document that is added whole once
  // for each time the word is among its words.
  function AddedUnder(step: Step, w: nat): Docs {
    match step
    case Add(word, doc) => if word == w then [doc] else []
    case AddDocument(doc, words) => seq(multiset(words)[w], _ => doc)
    case _ => []
  }

  lemma {:induction false} PostingsUnder(doc: nat, words: seq<nat>, w: nat)
    ensures ForWord(PostingsOf(doc, words), w) == seq(multiset(words)[w], _ => doc)
  {
    if words != [] {
      var n := |words| - 1;
      PostingsUnder(doc, words[..n], w);
      assert words == words[..n] + [words[n]];
      assert PostingsOf(doc, words)[..n] == PostingsOf(doc, words[..n]);
    }
  }

  ghost predicate Inv(s: State) {
    && DistinctKeys(s.cache) && CleanMatches(s.cache, s.store)
    && (s.phase.Flushing? ==> s.phase.next <= |s.phase.sorted|)
  }

  lemma PutBackKeeps(s: State, size: nat, w: nat)
    requires Inv(s) && s.phase.Flushing? && size > 0
    ensures Inv(PutBack(s, size))
    ensures var t := PutBack(s, size);
      ListOf(t.cache, t.store, w) == if w == s.phase.word then s.phase.docs else ListOf(s.cache, s.store, w)
  {
    hide PutEntries, Evicted, StoreEvicted, CleanMatches, Current;
    var e := Entry(s.phase.word, s.phase.docs, true);
    PutKeepsOthers(s.cache, s.store, size, e, w);
    PutKeepsClean(s.cache, s.store, size, e);
  }

  lemma TakeUpKeeps(s: State, w: nat, sorted: seq<Posting>, next: nat, v: nat)
    requires Inv(s) && next <= |sorted|
    ensures Inv(TakeUp(s, w, sorted, next))
    ensures var t := TakeUp(s, w, sorted, next);
      ListOf(t.cache, t.store, v) == ListOf(s.cache, s.store, v) && (v == w ==> t.phase.docs == ListOf(s.cache, s.store, v))
  {
    hide Touched, CleanMatches, Current;
    TouchKeeps(s.cache, s.store, w, v);
  }

  // No step loses, duplicates or reorders a document of any word.
  lemma StepConserves(s: State, step: Step, size: nat, w: nat)
    requires Inv(s) && Enabled(s, step) && size > 0
    ensures Inv(Apply(s, step, size))
    ensures AllOf(Apply(s, step, size), w) == AllOf(s, w) + AddedUnder(step, w)
  {
    hide Inv, AllOf, Apply, Enabled, ForWord;
    match step
    case Add(word, doc) =>
      ProducerConserves(s, step, [Posting(doc, word)], size, w);
      SingleWord(Posting(doc, word), w);
    case AddDocument(doc, words) =>
      ProducerConserves(s, step, PostingsOf(doc, words), size, w);
      PostingsUnder(doc, words, w);
    case Swap =>
      ProducerConserves(s, step, [], size, w);
      NoPostings(w);
    case BeginFlush => BeginConserves(s, size, w);
    case FlushOne => FlushOneConserves(s, size, w);
    case EndFlush => EndConserves(s, size, w);
  }

  lemma NoPostings(w: nat)
    ensures ForWord([], w) == []
  {
  }

  lemma ProducerConserves(s: State, step: Step, added: seq<Posting>, size: nat, w: nat)
    requires Inv(s) && Enabled(s, step) && size > 0
    requires match step
      case Add(word, doc) => added == [Posting(doc, word)]
      case AddDocument(doc, words) => added == PostingsOf(doc, words)
      case Swap => added == []
      case _ => false
    ensures Inv(Apply(s, step, size))
    ensures AllOf(Apply(s, step, size), w) == AllOf(s, w) + ForWord(added, w)
  {
    hide CleanMatches, DistinctKeys, ListOf, ForWord, PutBack, TakeUp, PostingsOf;
    NoPostings(w);
    ForWordJoin(s.producer, added, w);
  }

  lemma BeginConserves(s: State, size: nat, w: nat)
    requires Inv(s) && Enabled(s, BeginFlush) && size > 0
    ensures Inv(Apply(s, BeginFlush, size)) && AllOf(Apply(s, BeginFlush, size), w) == AllOf(s, w)
  {
    hide Touched, CleanMatches, Current, DistinctKeys, ListOf, ForWord, StableSort;
    var sorted := StableSort(s.consumer);
    StableSortKeepsOrder(s.consumer, w);
    TakeUpKeeps(s, sorted[0].word, sorted, 0, w);
    assert sorted[0..] == sorted;
  }

  lemma EndConserves(s: State, size: nat, w: nat)
    requires Inv(s) && Enabled(s, EndFlush) && size > 0
    ensures Inv(Apply(s, EndFlush, size)) && AllOf(Apply(s, EndFlush, size), w) == AllOf(s, w)
  {
    hide PutEntries, Evicted, StoreEvicted, CleanMatches, Current, Touched, DistinctKeys, ListOf;
    PutBackKeeps(s, size, w);
    assert s.phase.sorted[s.phase.next..] == [];
  }

  lemma FlushOneConserves(s: State, size: nat, w: nat)
    requires Inv(s) && Enabled(s, FlushOne) && size > 0
    ensures Inv(Apply(s, FlushOne, size)) && AllOf(Apply(s, FlushOne, size), w) == AllOf(s, w)
  {
    hide PutEntries, Evicted, StoreEvicted, CleanMatches, Current, Touched, DistinctKeys, ListOf, PutBack, ForWord;
    var sorted, next := s.phase.sorted, s.phase.next;
    var p := sorted[next];
    assert sorted[next..] == [p] + sorted[next + 1..];
    ForWordJoin([p], sorted[next + 1..], w);
    SingleWord(p, w);
    if p.word != s.phase.word {
      PutBackKeeps(s, size, w);
      PutBackShape(s, size);
      TakeUpKeeps(PutBack(s, size), p.word, sorted, next, w);
    }
  }

  lemma PutBackShape(s: State, size: nat)
    requires s.phase.Flushing? && size > 0
    ensures PutBack(s, size).phase == s.phase && PutBack(s, size).producer == s.producer
  {
  }

  // ----- Whole runs -----

  ghost predicate Runs(s: State, steps: seq<Step>, size: nat)
    requires size > 0
    decreases |steps|, 0
  {
    steps == [] || (Runs(s, steps[..|steps| - 1], size) && Enabled(After(s, steps[..|steps| - 1], size), steps[|steps| - 1]))
  }

  ghost function After(s: State, steps: seq<Step>, size: nat): State
    requires size > 0 && Runs(s, steps, size)
    decreases |steps|, 1
  {
    if steps == [] then s else Apply(After(s, steps[..|steps| - 1], size), steps[|steps| - 1], size)
  }

  // All documents the producers have added for w, in the order they got the lock.
  function AllAdded(steps: seq<Step>, w: nat): Docs {
    if steps == [] then [] else AllAdded(steps[..|steps| - 1], w) + AddedUnder(steps[|steps| - 1], w)
  }

  function Initial(store: map<nat, Docs>): State {
    State([], store, [], [], Idle)
  }

  // Over every interleaving of producers and consumer, at every moment: what was
  // stored for a word, then all documents added for it since, in order, is what its
  // list and the two buffers hold.
  lemma {:induction false} NothingIsLost(store: map<nat, Docs>, steps: seq<Step>, size: nat, w: nat)
    requires size > 0 && Runs(Initial(store), steps, size)
    ensures Inv(After(Initial(store), steps, size))
    ensures AllOf(After(Initial(store), steps, size), w) == ListOf([], store, w) + AllAdded(steps, w)
  {
    hide Apply, Enabled, ListOf, AddedUnder;
    if steps == [] {
    } else {
      var n := |steps| - 1;
      NothingIsLost(store, steps[..n], size, w);
      StepConserves(After(Initial(store), steps[..n], size), steps[n], size, w);
      assert AllAdded(steps, w) == AllAdded(steps[..n], w) + AddedUnder(steps[n], w);
      hide Inv, AllOf, ForWord, AllAdded;
    }
  }

  // With the buffers drained and every dirty list written back, the store alone has
  // every document.
  lemma DrainedStoreHasAll(store: map<nat, Docs>, steps: seq<Step>, size: nat, w: nat)
    requires size > 0 && Runs(Initial(store), steps, size)
    requires var s := After(Initial(store), steps, size); s.phase.Idle? && s.consumer == [] && s.producer == []
    ensures var s := After(Initial(store), steps, size);
      ListOf([], WriteBack(s.cache, s.store), w) == ListOf([], store, w) + AllAdded(steps, w)
  {
    NothingIsLost(store, steps, size, w);
    var s := After(Initial(store), steps, size);
    WriteBackKeepsCurrent(s.cache, s.store, w);
    hide After, Runs, WriteBack;
  }

  // ----- One batch -----

  class BatchConsumer {
    const cache: LRUCache<Docs>
    var consumer: seq<Posting>

    constructor (cache: LRUCache<Docs>)
      ensures this.cache == cache && consumer == []
    {
      this.cache, consumer := cache, [];
    }

    ghost predicate Valid()
      reads this, cache, cache.callback
    {
      cache.Valid() && DistinctKeys(cache.Entries()) && CleanMatches(cache.Entries(), cache.callback.store)
    }

    // The list of a word as a reader of cache and store finds it.
    ghost function ListNow(w: nat): Docs
      requires cache.Valid()
      reads cache, cache.callback
    {
      ListOf(cache.Entries(), cache.callback.store, w)
    }

    method GetOrCreate(w: nat) returns (docs: Docs)
      requires Valid()
      modifies cache
      ensures Valid() && docs == old(ListNow(w)) && forall v :: ListNow(v) == old(ListNow(v))
    {
      ghost var es, store := cache.Entries(), cache.callback.store;
      forall v ensures Current(Touched(es, w), store, v) == Current(es, store, v) {
        TouchKeeps(es, store, w, v);
      }
      TouchKeeps(es, store, w, w);
      hide Touched, DistinctKeys, CleanMatches, LRUCache.Valid;
      var hit := cache.Get(w);
      match hit {
        case Some(d) => docs := d;
        case None => docs := if w in cache.callback.store then cache.callback.store[w] else [];
      }
    }

    method CachePut(w: nat, docs: Docs)
      requires Valid()
      modifies cache, cache.callback
      ensures Valid() && forall v :: ListNow(v) == if v == w then docs else old(ListNow(v))
    {
      ghost var es, store, e := cache.Entries(), cache.callback.store, Entry(w, docs, true);
      CacheSize();
      PutKeepsClean(es, store, cache.size, e);
      forall v ensures var es', store' := PutEntries(es, cache.size, e), StoreEvicted(store, Evicted(es, cache.size, w));
        DistinctKeys(es') && Current(es', store', w) == Some(docs) && (v != w ==> Current(es', store', v) == Current(es, store, v))
      {
        PutKeepsOthers(es, store, cache.size, e, v);
      }
      hide PutEntries, Evicted, StoreEvicted, DistinctKeys, CleanMatches, LRUCache.Valid, Current;
      cache.Put(w, docs, true);
    }

    lemma CacheSize()
      requires cache.Valid()
      ensures cache.size > 0
    {
    }

    // The list of a word while that of wordid is in hand.
    ghost function InHand(w: nat, wordid: nat, docSet: Docs): Docs
      requires Valid()
      reads this, cache, cache.callback
    {
      if w == wordid then docSet else ListNow(w)
    }

    // One posting: at a new word the list in hand is put back and the next taken up.
    method TakePosting(posting: Posting, wordid: nat, docSet: Docs) returns (wordid': nat, docSet': Docs)
      requires Valid()
      modifies cache, cache.callback
      ensures Valid()
      ensures forall w :: InHand(w, wordid', docSet') ==
                          old(InHand(w, wordid, docSet)) + if posting.word == w then [posting.doc] else []
    {
      hide BatchConsumer.ListNow, DistinctKeys, CleanMatches, LRUCache.Valid;
      wordid', docSet' := wordid, docSet;
      if posting.word != wordid {
        CachePut(wordid, docSet);
        docSet' := GetOrCreate(posting.word);
        wordid' := posting.word;
      }
      docSet' := docSet' + [posting.doc];
    }

    // The loop over the sorted batch.
    method TakeAll(vec: seq<Posting>, wordid: nat, docSet: Docs) returns (wordid': nat, docSet': Docs)
      requires Valid()
      modifies cache, cache.callback
      ensures Valid()
      ensures forall w :: InHand(w, wordid', docSet') == old(InHand(w, wordid, docSet)) + ForWord(vec, w)
    {
      hide BatchConsumer.Valid, BatchConsumer.ListNow, BatchConsumer.InHand, ForWord, LRUCache.Valid;
      assert vec[..0] == [];
      forall w ensures ForWord(vec[..0], w) == [] { NoPostings(w); }
      wordid', docSet' := wordid, docSet;
      var i := 0;
      while i < |vec|
        invariant i <= |vec| && Valid()
        invariant forall w :: InHand(w, wordid', docSet') == old(InHand(w, wordid, docSet)) + ForWord(vec[..i], w)
      {
        wordid', docSet' := TakePosting(vec[i], wordid', docSet');
        forall w
          ensures InHand(w, wordid', docSet') == old(InHand(w, wordid, docSet)) + ForWord(vec[..i + 1], w)
        {
          NextPosting(vec, i, w);
        }
        i := i + 1;
      }
      assert vec[..i] == vec;
    }

    // flushInBackground: every word's list gets the documents of the batch, in order.
    method FlushInBackground()
      requires Valid()
      modifies this, cache, cache.callback
      ensures Valid() && consumer == []
      ensures forall w :: ListNow(w) == old(ListNow(w)) + ForWord(old(consumer), w)
    {
      ghost var batch := consumer;
      assert batch == [] ==> forall w :: ForWord(batch, w) == [];
      forall w ensures ForWord(StableSort(batch), w) == ForWord(batch, w) {
        StableSortKeepsOrder(batch, w);
      }
      hide BatchConsumer.ListNow, ForWord, StableSort, DistinctKeys, CleanMatches, LRUCache.Valid;
      if |consumer| > 0 {
        var vec := StableSort(consumer);
        var wordid := vec[0].word;
        var docSet := GetOrCreate(wordid);
        wordid, docSet := TakeAll(vec, wordid, docSet);
        CachePut(wordid, docSet);
        consumer := [];
      }
    }
  }

  lemma NextPosting(ps: seq<Posting>, i: nat, w: nat)
    requires i < |ps|
    ensures ForWord(ps[..i + 1], w) == ForWord(ps[..i], w) + if ps[i].word == w then [ps[i].doc] else []
  {
    assert ps[..i + 1][..i] == ps[..i];
  }
}
