/** The statistics cache in its running form: the store and the accumulator the source updates in
    place, each operation tied to its counterpart in CorpusSpec. */
module CorpusStats {
  import opened Wrappers
  import opened CorpusSpec
  import opened CorpusProofs

  class CorpusStatsStore {
    const attached: bool
    var rows: map<string, Fragment>

    constructor (attached: bool, rows: map<string, Fragment>)
      ensures this.attached == attached && this.rows == if attached then rows else map[]
    {
      this.attached := attached;
      this.rows := if attached then rows else map[];
    }

    method LoadFragment(key: string) returns (r: Option<Fragment>)
      ensures forall s: State | s.attached == attached && s.rows == rows :: r == Load(s, key)
    {
      if !attached || key !in rows {
        return None;
      }
      var row := rows[key];
      r := Some(row.(weight := if row.weight == 0.0 then 1.0 else row.weight));
    }

    method UpsertFragment(f: Fragment)
      modifies this
      ensures rows == if attached then old(rows)[f.key := Row(f)] else old(rows)
    {
      if attached {
        rows := rows[f.key := f.(fingerprint := "", seen := false)];
      }
    }
  }

  class CorpusStatsAccumulator {
    const store: CorpusStatsStore
    var fragments: map<string, Fragment>
    var fpIndex: map<string, string>
    var docsSeen: int
    var batchId: int

    ghost function Now(): State
      reads this, store
    {
      State.State(fragments, fpIndex, store.attached, store.rows, docsSeen, batchId)
    }

    /** The keys of what is cached or stored. */
    ghost function Held(): set<string>
      reads this, store
    {
      fragments.Keys + if store.attached then store.rows.Keys else {}
    }

    constructor (store: CorpusStatsStore, docsSeen: int, batchId: int)
      ensures this.store == store && Now() == State.State(map[], map[], store.attached, store.rows, docsSeen, batchId)
    {
      this.store, this.docsSeen, this.batchId := store, docsSeen, batchId;
      fragments, fpIndex := map[], map[];
    }

    method FindFragment(key: string, fp: string) returns (r: Option<Fragment>)
      ensures r == Find(Now(), key, fp)
    {
      r := if key in fragments then Some(fragments[key]) else None;
      if r.None? && fp in fpIndex && fpIndex[fp] in fragments {
        r := Some(fragments[fpIndex[fp]]);
      }
      if r.None? {
        r := store.LoadFragment(key);
      }
      if r.None? && fp in fpIndex {
        r := store.LoadFragment(fpIndex[fp]);
      }
    }

    method AdmitUnit(u: Unit) returns (key: string)
      modifies this`fragments, this`fpIndex
      ensures (Now(), key) == Admit(old(Now()), u)
    {
      hide Find;
      var found := FindFragment(u.key, u.fp);
      if found.None? {
        fragments := fragments[u.key := Fragment(u.key, u.fp, 0, 0, 0, [0, 0, 0, 0, 0], 0, batchId + 1, 1.0, false)];
        fpIndex := fpIndex[u.fp := u.key];
        return u.key;
      }
      var f := found.value;
      if f.key !in fragments {
        fragments := fragments[f.key := f];
        if f.fingerprint != "" {
          fpIndex := fpIndex[f.fingerprint := f.key];
        }
      }
      if f.fingerprint == "" {
        fragments := fragments[f.key := f.(fingerprint := u.fp)];
        fpIndex := fpIndex[u.fp := f.key];
      }
      return f.key;
    }

    method CountUnit(u: Unit, firstInDoc: bool, docLen: int)
      modifies this`fragments, this`fpIndex
      ensures Now() == ObserveUnit(old(Now()), u, firstInDoc, docLen)
    {
      hide Admit;
      var key := AdmitUnit(u);
      if key in fragments {
        fragments := fragments[key := Counted(fragments[key], u, firstInDoc, PositionBin(u.start, docLen), batchId)];
      }
    }

    /** One document. With a sound state the line frequencies grow by the number of its eligible units,
        the document frequencies by the number of their keys, and every measure by what the units add. */
    method ObserveDocument(doc: Document)
      modifies this`fragments, this`fpIndex, this`docsSeen
      ensures Now() == Observe(old(Now()), doc)
      ensures old(Inv(Now())) && Fingerprinted(doc.units) ==>
        && Inv(Now())
        && Total(Lines, Now()) == Total(Lines, old(Now())) + CountEligible(doc.units)
        && Total(Docs, Now()) == Total(Docs, old(Now())) + |KeysOf(doc.units)|
        && forall x :: Total(x, Now()) == Total(x, old(Now())) + Gains(x, doc.units, LengthOf(doc))
    {
      hide Inv, Total, Fingerprinted, Observe, Gains, KeysOf, CountEligible;
      ghost var start := Now();
      CountUnits(doc);
      if Inv(start) && Fingerprinted(doc.units) {
        ObserveKeepsAll(start, doc);
      }
    }

    /** The loop over the units of a document. */
    method CountUnits(doc: Document)
      modifies this`fragments, this`fpIndex, this`docsSeen
      ensures Now() == Observe(old(Now()), doc)
    {
      docsSeen := docsSeen + 1;
      var docLen := if doc.charCount > 1 then doc.charCount else 1;
      var seenKeys: set<string> := {};
      ghost var base := Now();
      for i := 0 to |doc.units|
        invariant Now() == ObserveUnits(base, doc.units[..i], docLen)
        invariant seenKeys == KeysOf(doc.units[..i])
      {
        hide ObserveUnit, Eligible, KeysOf;
        var u := doc.units[i];
        assert doc.units[..i + 1] == doc.units[..i] + [u] && doc.units[..i + 1][..i] == doc.units[..i];
        KeysMore(doc.units[..i], u);
        if Eligible(u) {
          CountUnit(u, u.key !in seenKeys, docLen);
          seenKeys := seenKeys + {u.key};
        }
      }
      assert doc.units[..|doc.units|] == doc.units;
    }

    /** A lookup by key; what it finds is in the cache afterwards. */
    method Get(key: string) returns (r: Option<Fragment>)
      modifies this`fragments, this`fpIndex
      ensures Now() == Pull(old(Now()), key)
      ensures r.Some? <==> key in old(Held())
      ensures key in old(fragments) ==> r == Some(old(fragments)[key])
      ensures r.Some? && key !in old(fragments) ==>
        r.value == store.rows[key].(weight := if store.rows[key].weight == 0.0 then 1.0 else store.rows[key].weight)
      ensures fragments == if r.Some? then old(fragments)[key := r.value] else old(fragments)
    {
      if key in fragments {
        return Some(fragments[key]);
      }
      var loaded := store.LoadFragment(key);
      if loaded.None? {
        return None;
      }
      fragments := fragments[key := loaded.value];
      if loaded.value.fingerprint != "" {
        fpIndex := fpIndex[loaded.value.fingerprint := loaded.value.key];
      }
      r := loaded;
    }

    /** A lookup by text: by the key of the text, else by its fingerprint. */
    method FragmentForText(key: string, fp: string) returns (r: Option<Fragment>)
      modifies this`fragments, this`fpIndex
      ensures Now() == PullText(old(Now()), key, fp)
      ensures
        if key in old(Held()) then key in fragments && r == Some(fragments[key])
        else if fp in old(fpIndex) && old(fpIndex)[fp] in old(Held()) - {""} then
          old(fpIndex)[fp] in fragments && r == Some(fragments[old(fpIndex)[fp]])
        else r.None?
    {
      r := Get(key);
      if r.Some? {
        return;
      }
      if fp in fpIndex && fpIndex[fp] != "" {
        r := Get(fpIndex[fp]);
      }
    }

    /** The end of a batch. Counts are conserved when a store is attached; the cache ends within its
        cap and what was evicted ranked no later than what stayed. */
    method EndBatch(decay: real, cap: nat) returns (ghost ranked: seq<string>)
      requires Inv(Now())
      modifies this, store
      ensures IsRanking(ranked, WriteBack(old(Now()), decay).fragments)
      ensures Now() == CorpusSpec.EndBatch(old(Now()), decay, ranked, cap)
      ensures store.attached ==> Inv(Now()) && forall x :: Total(x, Now()) == Total(x, old(Now()))
      ensures |fragments| <= if cap > 1 then cap else 1
    {
      hide Inv, Total, Trim, IsRanking, WriteBack;
      ghost var start := Now();
      WriteBackAll(decay);
      ranked := TrimFragmentCache(cap);
      if store.attached {
        EndBatchKeepsAll(start, decay, ranked, cap);
      }
      EndBatchTrims(start, decay, ranked, cap);
    }

    /** Ages every cached fragment and writes it to the store. */
    method WriteBackAll(decay: real)
      requires Inv(Now())
      modifies this, store
      ensures Now() == WriteBack(old(Now()), decay)
    {
      hide Inv, InvBut, Row, Aged, AgedAll, RowsOf, AgedSoFar;
      ghost var start := Now();
      AgeStart(start, decay);
      batchId := batchId + 1;
      var todo := fragments.Keys;
      while todo != {}
        invariant AgedSoFar(start, todo, decay, fragments, store.rows)
        invariant fpIndex == start.fpIndex && docsSeen == start.docsSeen && batchId == start.batchId + 1
      {
        var key :| key in todo;
        AgeOne(start, todo, decay, fragments, store.rows, key);
        AgeFragment(key, decay);
        todo := todo - {key};
      }
      AgeEnd(start, decay, fragments, store.rows);
    }

    method AgeFragment(key: string, decay: real)
      requires key in fragments && fragments[key].key == key
      modifies this`fragments, store
      ensures fragments == old(fragments)[key := Aged(old(fragments)[key], decay)]
      ensures store.rows == if store.attached then old(store.rows)[key := Row(fragments[key])] else old(store.rows)
    {
      var f := fragments[key];
      f := if !f.seen then f.(weight := f.weight * decay) else f.(seen := false);
      assert f == Aged(fragments[key], decay);
      hide Aged, Row;
      fragments := fragments[key := f];
      store.UpsertFragment(f);
    }

    method EvictFragment(key: string)
      requires key in fragments
      modifies this`fragments, this`fpIndex
      ensures Now() == Evict(old(Now()), key)
    {
      var fp := fragments[key].fingerprint;
      fragments := fragments - {key};
      if fp != "" && fp in fpIndex && fpIndex[fp] == key {
        fpIndex := fpIndex - {fp};
      }
    }

    /** Evicts down a ranking until the cache is at its target size. */
    method TrimFragmentCache(cap: nat) returns (ghost ranked: seq<string>)
      modifies this`fragments, this`fpIndex
      ensures IsRanking(ranked, old(fragments))
      ensures Now() == Trim(old(Now()), ranked, cap)
    {
      hide IsRanking, Evict;
      var order := Rank(fragments);
      ranked := order;
      if |fragments| <= cap {
        return;
      }
      var target := if cap * 9 / 10 > 1 then cap * 9 / 10 else 1;
      ghost var start := Now();
      var i := 0;
      while i < |order| && |fragments| > target
        invariant i <= |order|
        invariant EvictRanked(start, order, target) == EvictRanked(Now(), order[i..], target)
      {
        var key := order[i];
        assert order[i..][0] == key && order[i..][1..] == order[i + 1..];
        if key in fragments && !fragments[key].seen {
          EvictFragment(key);
        }
        i := i + 1;
      }
    }
  }

  /** The cached keys in the order of eviction. */
  method Rank(fragments: map<string, Fragment>) returns (ranked: seq<string>)
    ensures IsRanking(ranked, fragments)
  {
    ranked := [];
    var todo := fragments.Keys;
    while todo != {}
      invariant todo <= fragments.Keys && Ranked(ranked, todo, fragments)
    {
      var least :| least in todo;
      var rest := todo - {least};
      while rest != {}
        invariant rest <= todo && least in todo
        invariant forall k :: k in todo - rest ==> RankLe(fragments[least], fragments[k])
        decreases |rest|
      {
        var key :| key in rest;
        if !RankLe(fragments[least], fragments[key]) {
          least := key;
        }
        rest := rest - {key};
      }
      RankNext(ranked, todo, fragments, least);
      ranked := ranked + [least];
      todo := todo - {least};
    }
  }

  /** `ranked` and `todo` share out the cached keys, and `ranked` is sorted and comes first. */
  ghost predicate Ranked(ranked: seq<string>, todo: set<string>, fragments: map<string, Fragment>) {
    && todo <= fragments.Keys
    && IsRanking(ranked, fragments - todo)
    && (forall i, k :: 0 <= i < |ranked| && ranked[i] in fragments && k in todo ==>
      RankLe(fragments[ranked[i]], fragments[k]))
  }

  lemma RankNext(ranked: seq<string>, todo: set<string>, fragments: map<string, Fragment>, least: string)
    requires Ranked(ranked, todo, fragments) && least in todo
    requires forall k :: k in todo ==> RankLe(fragments[least], fragments[k])
    ensures Ranked(ranked + [least], todo - {least}, fragments)
  {
    var m := fragments - (todo - {least});
    assert m.Keys == (fragments - todo).Keys + {least};
    assert forall i :: 0 <= i < |ranked| ==> ranked[i] in Members(ranked);
    assert Members(ranked + [least]) == Members(ranked) + {least};
  }

  /** The write-back with the keys in `todo` still to come. */
  ghost predicate AgedSoFar(start: State, todo: set<string>, decay: real, fragments: map<string, Fragment>,
      rows: map<string, Fragment>) {
    && (forall k :: k in start.fragments ==> start.fragments[k].key == k)
    && todo <= start.fragments.Keys == fragments.Keys
    && (forall k :: k in fragments ==>
          fragments[k] == if k in todo then start.fragments[k] else Aged(start.fragments[k], decay))
    && (if start.attached then RowsSoFar(start.rows, start.fragments.Keys - todo, fragments, rows)
      else rows == start.rows)
  }

  /** The fragments of `done` are written over the rows. */
  ghost predicate RowsSoFar(before: map<string, Fragment>, done: set<string>, fragments: map<string, Fragment>,
      rows: map<string, Fragment>) {
    && done <= fragments.Keys && rows.Keys == before.Keys + done
    && (forall k :: k in rows ==> rows[k] == if k in done then Row(fragments[k]) else before[k])
  }

  lemma AgeStart(start: State, decay: real)
    requires Inv(start)
    ensures AgedSoFar(start, start.fragments.Keys, decay, start.fragments, start.rows)
  {
    hide SumHistogram, Row, Aged;
  }

  lemma AgeOne(
    start: State, todo: set<string>, decay: real, fragments: map<string, Fragment>, rows: map<string, Fragment>,
    key: string)
    requires AgedSoFar(start, todo, decay, fragments, rows) && key in todo
    ensures key in fragments && fragments[key].key == key
    ensures
      var f := Aged(fragments[key], decay);
      AgedSoFar(start, todo - {key}, decay, fragments[key := f], if start.attached then rows[key := Row(f)] else rows)
  {
    hide Row, Aged;
    assert start.fragments.Keys - (todo - {key}) == start.fragments.Keys - todo + {key};
  }

  lemma AgeEnd(start: State, decay: real, fragments: map<string, Fragment>, rows: map<string, Fragment>)
    requires AgedSoFar(start, {}, decay, fragments, rows)
    ensures fragments == WriteBack(start, decay).fragments && rows == WriteBack(start, decay).rows
  {
    hide Row, Aged;
    assert start.fragments.Keys - {} == start.fragments.Keys;
  }
}
