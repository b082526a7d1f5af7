/** What the buckets of the index hold: which entries are filed where, and for how long. */
module EmbedFiling {
  import opened Wrappers
  import opened Collections
  import opened EmbedSpec
  import opened EmbedProofs

  // ---- blocks ----

  /** Two documents are in one block exactly when they agree on the parts switched on and on the
      simhash bucket. */
  lemma SameBlockIff(c: Config, a: Meta, b: Meta)
    ensures BlockKey(c, a) == BlockKey(c, b) <==>
      && (c.sameLanguage ==> a.language == b.language)
      && (c.byDomain ==> a.domain == b.domain)
      && (c.byLength && c.lengthBucket > 0 ==> a.length / c.lengthBucket == b.length / c.lengthBucket)
      && c.simBucket(a.text) == c.simBucket(b.text)
  {
  }

  /** The overlap is the share of the words of both that they have in common. */
  lemma TokenOverlapIs(a: set<string>, b: set<string>, r: real)
    requires r > 0.0
    ensures TokenOverlap(a, b) >= r <==> a != {} && b != {} && |a * b| as real >= r * |a + b| as real
  {
    if a != {} && b != {} {
      var (x, y) := (|a * b| as real, |a + b| as real);
      assert a <= a + b && (a + b) - a + a == a + b;
      assert |a + b| >= |a| > 0;
      assert x / y * y == x;
      AtLeast(x / y, r, y);
    }
  }

  lemma AtLeast(q: real, r: real, y: real)
    requires y > 0.0
    ensures q >= r <==> q * y >= r * y
  {
  }

  lemma TokenOverlapSelf(a: set<string>)
    requires a != {}
    ensures TokenOverlap(a, a) == 1.0
  {
    assert a * a == a && a + a == a;
    assert |a| as real / |a| as real == 1.0;
  }

  lemma FilterMore(c: Config, m: Meta, raw: seq<Pair>, p: Pair)
    requires BlockKey(c, p.1) == BlockKey(c, m)
    ensures Filter(c, m, raw + [p]) == Filter(c, m, raw) + if Passes(c, m, p) then [p] else []
    ensures Filter(c, m, []) == []
  {
    hide TokenOverlap;
    assert (raw + [p])[..|raw|] == raw;
    if c.overlapMin > 0.0 {
      TokenOverlapIs(m.tokenSig, p.1.tokenSig, c.overlapMin);
    }
  }

  /** Within a block the words decide. */
  ghost predicate Passes(c: Config, m: Meta, p: Pair) {
    var (x, y) := (m.tokenSig, p.1.tokenSig);
    c.overlapMin <= 0.0 || (x != {} && y != {} && |x * y| as real >= c.overlapMin * |x + y| as real)
  }

  /** A bucket is filtered pair by pair, and those that pass keep their order. */
  lemma {:induction false} FilterSplit(c: Config, m: Meta, a: seq<Pair>, p: Pair, b: seq<Pair>)
    requires forall q :: q in a + [p] + b ==> BlockKey(c, q.1) == BlockKey(c, m)
    ensures
      Filter(c, m, a + [p] + b) == Filter(c, m, a) + (if Passes(c, m, p) then [p] else []) + Filter(c, m, b)
  {
    hide *;
    FilterMore(c, m, a, p);
    var one := Filter(c, m, a + [p]);
    if b == [] {
      assert a + [p] + b == a + [p] && one + [] == one;
    } else {
      var (front, last) := (b[..|b| - 1], b[|b| - 1]);
      SplitLast(a + [p], front, b);
      FilterSplit(c, m, a, p, front);
      FilterMore(c, m, front, last);
      FilterMore(c, m, a + [p] + front, last);
      Grouped(one, Filter(c, m, front), if Passes(c, m, last) then [last] else []);
    }
  }

  // ---- taking an id out of a bucket ----

  lemma {:induction false} WithoutJoin(a: seq<Pair>, b: seq<Pair>, id: int)
    ensures Without(a + b, id) == Without(a, id) + Without(b, id)
  {
    if b == [] {
      assert a + b == a;
    } else {
      assert (a + b)[..|a + b| - 1] == a + b[..|b| - 1];
      WithoutJoin(a, b[..|b| - 1], id);
    }
  }

  lemma {:induction false} WithoutAbsent(b: seq<Pair>, id: int)
    requires forall p :: p in b ==> p.0 != id
    ensures Without(b, id) == b
  {
    if b != [] {
      assert b == b[..|b| - 1] + [b[|b| - 1]];
      WithoutAbsent(b[..|b| - 1], id);
    }
  }

  /** The pair of an id goes, and what stood before and after it stays as it stood. */
  lemma WithoutPresent(a: seq<Pair>, p: Pair, b: seq<Pair>)
    requires DistinctIds(a + [p] + b)
    ensures Without(a + [p] + b, p.0) == a + b
  {
    var all := a + [p] + b;
    forall q | q in a ensures q.0 != p.0 {
      var i :| 0 <= i < |a| && a[i] == q;
      assert all[i] == q && all[|a|] == p;
    }
    forall q | q in b ensures q.0 != p.0 {
      var i :| 0 <= i < |b| && b[i] == q;
      assert all[|a| + 1 + i] == q && all[|a|] == p;
    }
    WithoutJoin(a + [p], b, p.0);
    WithoutJoin(a, [p], p.0);
    WithoutAbsent(a, p.0);
    WithoutAbsent(b, p.0);
    assert Without([p], p.0) == [] by {
      assert [p][..0] == [];
    }
  }

  // ---- what an insertion and a replacement leave in every bucket ----

  /** The bucket `b` with one more pair at its end, less the excess from the front. */
  function Filed(b: seq<Pair>, p: Pair, cap: nat): seq<Pair> {
    Last(b + [p], cap)
  }

  /** The id that leaves when `id` comes. */
  ghost function Leaving(c: Config, s: Index, id: int): Option<int> {
    if s.total + 1 > c.maxGlobal then Some(Least(s.entries.Keys + {id})) else None
  }

  /** Insertion, bucket by bucket: the pair joins its own block at the end, the excess goes from the
      front, and the oldest id goes from wherever it stands if the index is full. */
  lemma InsertFiles(c: Config, s: Index, id: int, m: Meta, k: Key)
    requires IndexOk(c, s) && id !in s.entries
    ensures
      var was := BucketOf(s, k);
      var now := if k == BlockKey(c, m) then Filed(was, (id, m), c.maxBucket) else was;
      BucketOf(Insert(c, s, id, m), k) ==
        match Leaving(c, s, id) case None => now case Some(gone) => Without(now, gone)
  {
    hide BlockKey, Last;
    var s1 := Append(c, s, id, m).(total := s.total + 1);
    AppendKeeps(c, s, id, m);
    if s1.total > c.maxGlobal {
      assert s1.entries.Keys == s.entries.Keys + {id};
      EvictFiles(c, s1, k);
    }
  }

  /** Eviction, bucket by bucket: only the oldest id goes. */
  lemma EvictFiles(c: Config, s: Index, k: Key)
    requires s.entries != map[] && forall j :: j in s.buckets ==> BucketOk(c, s.entries, j, s.buckets[j])
    ensures BucketOf(EvictOldest(c, s), k) == Without(BucketOf(s, k), Least(s.entries.Keys))
  {
    var id := Least(s.entries.Keys);
    if k != BlockKey(c, s.entries[id]) {
      forall p | p in BucketOf(s, k) ensures p.0 != id {
      }
      WithoutAbsent(BucketOf(s, k), id);
    }
    hide BlockKey;
  }

  /** Replacement, bucket by bucket: the old pair goes from where it stood, and the new one joins its
      own block at the end. */
  lemma ReplaceFiles(c: Config, s: Index, id: int, m: Meta, k: Key)
    requires IndexOk(c, s) && id in s.entries
    ensures
      var rest := Without(BucketOf(s, k), id);
      BucketOf(Replace(c, s, id, m), k) ==
        if k == BlockKey(c, m) then Filed(rest, (id, m), c.maxBucket) else rest
  {
    if k != BlockKey(c, s.entries[id]) {
      forall p | p in BucketOf(s, k) ensures p.0 != id {
      }
      WithoutAbsent(BucketOf(s, k), id);
    }
    hide BlockKey, Last;
  }

  lemma FiledLast(b: seq<Pair>, p: Pair, cap: nat)
    requires cap >= 1
    ensures Filed(b, p, cap) != [] && Filed(b, p, cap)[|Filed(b, p, cap)| - 1] == p
  {
  }

  /** A pair inserted with a new greatest id is the last of its bucket, and one that replaces another
      as well. */
  lemma InsertedIsLast(c: Config, s: Index, id: int, m: Meta)
    requires IndexOk(c, s) && c.maxBucket >= 1 && c.maxGlobal >= 1 && forall i :: i in s.entries ==> i < id
    ensures
      var b := BucketOf(Insert(c, s, id, m), BlockKey(c, m));
      b != [] && b[|b| - 1] == (id, m)
  {
    hide *;
    var k := BlockKey(c, m);
    LeavesOther(c, s, id);
    InsertFiles(c, s, id, m, k);
    FiledLast(BucketOf(s, k), (id, m), c.maxBucket);
    if Leaving(c, s, id).Some? {
      LastStays(Filed(BucketOf(s, k), (id, m), c.maxBucket), Leaving(c, s, id).value);
    }
  }

  /** The id that comes last is not the one that leaves. */
  lemma LeavesOther(c: Config, s: Index, id: int)
    requires IndexOk(c, s) && c.maxGlobal >= 1 && forall i :: i in s.entries ==> i < id
    ensures Leaving(c, s, id) != Some(id)
  {
    if s.total + 1 > c.maxGlobal {
      var i := SomeEntry(s);
      assert i in s.entries.Keys + {id};
    }
    hide BucketOk;
  }

  lemma LastStays(b: seq<Pair>, gone: int)
    requires b != [] && b[|b| - 1].0 != gone
    ensures
      var r := Without(b, gone);
      r != [] && r[|r| - 1] == b[|b| - 1]
  {
    var (front, p) := (b[..|b| - 1], b[|b| - 1]);
    assert b == front + [p];
    WithoutJoin(front, [p], gone);
    WithoutAbsent([p], gone);
    hide Without;
  }

  lemma SomeEntry(s: Index) returns (i: int)
    requires s.total == |s.entries| && s.total >= 1
    ensures i in s.entries
  {
    assert s.entries.Keys != {};
    i := Pick(s.entries.Keys);
  }

  lemma ReplacedIsLast(c: Config, s: Index, id: int, m: Meta)
    requires IndexOk(c, s) && c.maxBucket >= 1 && id in s.entries
    ensures
      var b := BucketOf(Replace(c, s, id, m), BlockKey(c, m));
      b != [] && b[|b| - 1] == (id, m)
  {
    var k := BlockKey(c, m);
    ReplaceFiles(c, s, id, m, k);
    FiledLast(Without(BucketOf(s, k), id), (id, m), c.maxBucket);
    hide BlockKey, Filed, Replace;
  }

  // ---- over a run ----

  /** What a document files: its block and the cluster it opens or takes over, if it does. */
  ghost function FiledBy(c: Config, s: Dedup, e: Event): seq<(Key, int)> {
    if s.disabled || !e.register || !e.embedding.Vec? then []
    else match FindMatch(c, e.embedding.v, Candidates(c, s.index, e.meta), Threshold(c, s))
      case None => [(BlockKey(c, e.meta), s.nextId)]
      case Some(hit) => if e.meta.Rank() > hit.rank + c.margin then [(BlockKey(c, e.meta), hit.cluster)] else []
  }

  /** Everything filed over a run, in order. */
  ghost function Filings(c: Config, s: Dedup, es: seq<Event>): seq<(Key, int)>
    decreases |es|
  {
    if es == [] then [] else FiledBy(c, s, es[0]) + Filings(c, Step(c, s, es[0]).0, es[1..])
  }

  /** How many were filed under `k` since `id` was last filed. */
  ghost function Since(log: seq<(Key, int)>, k: Key, id: int): nat {
    if log == [] || log[|log| - 1].1 == id then 0
    else Since(log[..|log| - 1], k, id) + if log[|log| - 1].0 == k then 1 else 0
  }

  lemma SinceMore(log: seq<(Key, int)>, f: (Key, int), k: Key, id: int)
    ensures Since(log + [f], k, id) == if f.1 == id then 0 else Since(log, k, id) + if f.0 == k then 1 else 0
  {
    assert (log + [f])[..|log|] == log;
  }

  /** The pair stands in the bucket, with no more than `n` after it. */
  ghost predicate Stands(b: seq<Pair>, p: Pair, n: int) {
    exists j :: 0 <= j < |b| && b[j] == p && |b| - 1 - j <= n
  }

  /** A live entry stands in the bucket of its block, with no more after it than were filed since, or
      a whole bucket was filed since. */
  ghost predicate WellFiled(c: Config, s: Index, log: seq<(Key, int)>, id: int)
    requires id in s.entries
  {
    var k := BlockKey(c, s.entries[id]);
    Since(log, k, id) >= c.maxBucket || Stands(BucketOf(s, k), (id, s.entries[id]), Since(log, k, id))
  }

  ghost predicate AllFiled(c: Config, s: Index, log: seq<(Key, int)>) {
    forall id :: id in s.entries ==> WellFiled(c, s, log, id)
  }

  lemma StandsAfter(a: seq<Pair>, p: Pair, b: seq<Pair>, n: int)
    requires |b| <= n
    ensures Stands(a + [p] + b, p, n)
  {
    assert (a + [p] + b)[|a|] == p;
  }

  lemma StandsAt(b: seq<Pair>, p: Pair, n: int) returns (j: int)
    requires Stands(b, p, n)
    ensures 0 <= j < |b| && b[j] == p && |b| - 1 - j <= n && b == b[..j] + [p] + b[j + 1..]
  {
    j :| 0 <= j < |b| && b[j] == p && |b| - 1 - j <= n;
  }

  lemma WithoutShorter(b: seq<Pair>, id: int)
    ensures |Without(b, id)| <= |b|
  {
    WithoutIs(b, id);
  }

  /** Taking out another id leaves a pair standing. */
  lemma StandsWithout(b: seq<Pair>, p: Pair, n: int, id: int)
    requires Stands(b, p, n) && p.0 != id
    ensures Stands(Without(b, id), p, n)
  {
    var j := StandsAt(b, p, n);
    var (x, y) := (b[..j], b[j + 1..]);
    WithoutJoin(x + [p], y, id);
    WithoutJoin(x, [p], id);
    WithoutAbsent([p], id);
    WithoutShorter(y, id);
    StandsAfter(Without(x, id), p, Without(y, id), n);
    hide Stands;
  }

  /** One more pair at the end: a pair goes on standing, with one more after it, or a whole bucket
      stands after it. */
  lemma StandsFiled(b: seq<Pair>, p: Pair, n: int, q: Pair, cap: nat)
    requires Stands(b, p, n)
    ensures n + 1 >= cap || Stands(Filed(b, q, cap), p, n + 1)
  {
    var j := StandsAt(b, p, n);
    var grown := b + [q];
    if n + 1 < cap {
      var cut := |grown| - |Last(grown, cap)|;
      assert Last(grown, cap) == grown[cut..];
      assert grown[cut..][j - cut] == p;
    }
  }

  lemma InsertWellFiled(c: Config, s: Index, log: seq<(Key, int)>, id: int, m: Meta, i: int)
    requires IndexOk(c, s) && AllFiled(c, s, log) && (forall i :: i in s.entries ==> i < id)
    requires i in Insert(c, s, id, m).entries
    ensures WellFiled(c, Insert(c, s, id, m), log + [(BlockKey(c, m), id)], i)
  {
    var t := Insert(c, s, id, m);
    InsertKeeps(c, s, id, m);
    assert t.entries.Keys == InsertedIds(c, s, id);
    assert i in t.entries.Keys;
    assert i == id || i in s.entries;
    var e := t.entries[i];
    assert e == if i == id then m else s.entries[i];
    var (k, key) := (BlockKey(c, e), BlockKey(c, m));
    var n := Since(log + [(key, id)], k, i);
    SinceMore(log, (key, id), k, i);
    InsertFiles(c, s, id, m, k);
    var was := BucketOf(s, k);
    var now := if k == key then Filed(was, (id, m), c.maxBucket) else was;
    if i == id {
      if c.maxBucket >= 1 {
        NewStands(was, (id, m), c.maxBucket);
      }
    } else {
      assert WellFiled(c, s, log, i);
      if Since(log, k, i) < c.maxBucket && k == key {
        StandsFiled(was, (i, e), Since(log, k, i), (id, m), c.maxBucket);
      }
    }
    hide Stands, Filed, Insert, BlockKey, Since;
    if n < c.maxBucket {
      assert Stands(now, (i, e), n);
      if s.total + 1 > c.maxGlobal {
        StandsWithout(now, (i, e), n, Least(s.entries.Keys + {id}));
      }
    }
  }

  lemma NewStands(b: seq<Pair>, p: Pair, cap: nat)
    requires cap >= 1
    ensures Stands(Filed(b, p, cap), p, 0)
  {
    var r := Filed(b, p, cap);
    assert r[|r| - 1] == p;
  }

  lemma ReplaceWellFiled(c: Config, s: Index, log: seq<(Key, int)>, id: int, m: Meta, i: int)
    requires IndexOk(c, s) && AllFiled(c, s, log) && id in s.entries
    requires i in Replace(c, s, id, m).entries
    ensures WellFiled(c, Replace(c, s, id, m), log + [(BlockKey(c, m), id)], i)
  {
    ReplaceKeeps(c, s, id, m);
    var e := Replace(c, s, id, m).entries[i];
    var (k, key) := (BlockKey(c, e), BlockKey(c, m));
    var n := Since(log + [(key, id)], k, i);
    SinceMore(log, (key, id), k, i);
    ReplaceFiles(c, s, id, m, k);
    var rest := Without(BucketOf(s, k), id);
    if i == id {
      if c.maxBucket >= 1 {
        NewStands(rest, (id, m), c.maxBucket);
      }
    } else {
      assert WellFiled(c, s, log, i);
      if Since(log, k, i) < c.maxBucket {
        StandsWithout(BucketOf(s, k), (i, e), Since(log, k, i), id);
        if k == key {
          StandsFiled(rest, (i, e), Since(log, k, i), (id, m), c.maxBucket);
        }
      }
    }
  }

  lemma StepFiles(c: Config, s: Dedup, log: seq<(Key, int)>, e: Event)
    requires Inv(c, s) && AllFiled(c, s.index, log)
    ensures AllFiled(c, Step(c, s, e).0.index, log + FiledBy(c, s, e))
  {
    hide FindMatch, Candidates, Threshold, WellFiled, Insert, Replace, BlockKey, IndexOk, SizesOk;
    assert log + [] == log;
    if !s.disabled && e.embedding.Vec? && e.register {
      var v := e.embedding.v;
      var m := e.meta.(vector := Some(v));
      assert forall i :: i in s.index.entries ==> i in s.index.entries.Keys;
      MatchIsLive(c, s, e.meta, v);
      SameKey(c, e.meta, Some(v));
      match FindMatch(c, v, Candidates(c, s.index, e.meta), Threshold(c, s))
      case None =>
        forall i | i in Insert(c, s.index, s.nextId, m).entries
          ensures WellFiled(c, Insert(c, s.index, s.nextId, m), log + [(BlockKey(c, m), s.nextId)], i)
        {
          InsertWellFiled(c, s.index, log, s.nextId, m, i);
        }
      case Some(hit) =>
        forall i | i in Replace(c, s.index, hit.cluster, m).entries
          ensures WellFiled(c, Replace(c, s.index, hit.cluster, m), log + [(BlockKey(c, m), hit.cluster)], i)
        {
          ReplaceWellFiled(c, s.index, log, hit.cluster, m, i);
        }
    }
  }

  lemma SameKey(c: Config, m: Meta, v: Option<Vector>)
    ensures BlockKey(c, m.(vector := v)) == BlockKey(c, m) && m.(vector := v).Rank() == m.Rank()
  {
  }

  lemma {:induction false} RunFiles(c: Config, s: Dedup, log: seq<(Key, int)>, es: seq<Event>)
    requires Inv(c, s) && AllFiled(c, s.index, log)
    ensures AllFiled(c, Run(c, s, es).index, log + Filings(c, s, es))
    decreases |es|
  {
    hide Inv, AllFiled, Step, FiledBy;
    if es == [] {
      assert log + [] == log;
    } else {
      var (t, f) := (Step(c, s, es[0]).0, FiledBy(c, s, es[0]));
      StepFiles(c, s, log, es[0]);
      StepKeepsInv(c, s, es[0]);
      RunFiles(c, t, log + f, es[1..]);
      assert log + f + Filings(c, t, es[1..]) == log + (f + Filings(c, t, es[1..]));
    }
  }

  /** Main result: over every run, a live entry stands in the bucket of its block unless at least
      `maxBucket` were filed there after it. */
  lemma LiveIsFiled(c: Config, es: seq<Event>, id: int)
    requires id in Run(c, INIT, es).index.entries
    ensures
      var s := Run(c, INIT, es).index;
      var k := BlockKey(c, s.entries[id]);
      (id, s.entries[id]) in BucketOf(s, k) || Since(Filings(c, INIT, es), k, id) >= c.maxBucket
  {
    RunFiles(c, INIT, [], es);
    hide Run, Filings, AllFiled;
    assert [] + Filings(c, INIT, es) == Filings(c, INIT, es);
    StandsOrFull(c, Run(c, INIT, es).index, Filings(c, INIT, es), id);
  }

  lemma StandsOrFull(c: Config, s: Index, log: seq<(Key, int)>, id: int)
    requires AllFiled(c, s, log) && id in s.entries
    ensures
      var k := BlockKey(c, s.entries[id]);
      (id, s.entries[id]) in BucketOf(s, k) || Since(log, k, id) >= c.maxBucket
  {
    hide Since, BlockKey;
    assert WellFiled(c, s, log, id);
  }

  // ---- resubmission ----

  /** The document was stored: it opened a cluster, or took one over. */
  ghost predicate Stored(c: Config, s: Dedup, e: Event) {
    FiledBy(c, s, e) != []
  }

  /** What was stored is the last of its block. */
  lemma StoredIsLast(c: Config, s: Dedup, e: Event)
    requires Inv(c, s) && Stored(c, s, e) && c.maxBucket >= 1 && c.maxGlobal >= 1
    ensures
      var b := BucketOf(Step(c, s, e).0.index, BlockKey(c, e.meta));
      b != [] && b[|b| - 1] == (FiledBy(c, s, e)[0].1, e.meta.(vector := Some(e.embedding.v)))
  {
    hide FindMatch, Candidates, Threshold, Insert, Replace, BlockKey, IndexOk, SizesOk;
    var m := e.meta.(vector := Some(e.embedding.v));
    assert forall i :: i in s.index.entries ==> i in s.index.entries.Keys;
    SameKey(c, e.meta, Some(e.embedding.v));
    MatchIsLive(c, s, e.meta, e.embedding.v);
    match FindMatch(c, e.embedding.v, Candidates(c, s.index, e.meta), Threshold(c, s))
    case None => InsertedIsLast(c, s.index, s.nextId, m);
    case Some(hit) => ReplacedIsLast(c, s.index, hit.cluster, m);
  }

  /** The last pair of a bucket within the candidate limit is a candidate if the token overlap
      allows. */
  lemma LastIsCandidate(c: Config, s: Index, m: Meta, p: Pair)
    requires IndexOk(c, s) && |BucketOf(s, BlockKey(c, m))| <= c.maxCandidates
    requires p in BucketOf(s, BlockKey(c, m))
    requires c.overlapMin > 0.0 ==> TokenOverlap(m.tokenSig, p.1.tokenSig) >= c.overlapMin
    ensures p in Candidates(c, s, m)
  {
    CandidatesAre(c, s, m, p);
    hide Candidates, TokenOverlap, BlockKey;
  }

  /** No candidate stands closer, and none as close has so low a rank that the newcomer would take it
      over. */
  ghost predicate NoneCloser(c: Config, s: Dedup, e: Event)
    requires e.embedding.Vec?
  {
    var v := e.embedding.v;
    forall p :: p in Candidates(c, s.index, e.meta) && p.1.vector.Some? ==>
      && Sim(c, v, p) <= c.score(v, v)
      && (Sim(c, v, p) == c.score(v, v) ==> e.meta.Rank() <= p.1.Rank() + c.margin)
  }

  /** A stored document is rejected when it comes again at once: its bucket is within the candidate
      limit, its words overlap with themselves enough, it reaches the threshold against itself, and
      nothing stands closer. */
  lemma ResubmittedRejected(c: Config, s: Dedup, e: Event, again: bool)
    requires Inv(c, s) && Stored(c, s, e) && c.maxBucket >= 1 && c.maxGlobal >= 1
    requires c.overlapMin > 0.0 ==> c.overlapMin <= 1.0 && e.meta.tokenSig != {}
    requires
      var t := Step(c, s, e).0;
      && |BucketOf(t.index, BlockKey(c, e.meta))| <= c.maxCandidates
      && c.score(e.embedding.v, e.embedding.v) > -1.0
      && c.score(e.embedding.v, e.embedding.v) >= Threshold(c, t) && NoneCloser(c, t, e)
    ensures !Step(c, Step(c, s, e).0, e.(register := again)).1
  {
    var (t, v) := (Step(c, s, e).0, e.embedding.v);
    var m := e.meta.(vector := Some(v));
    var p := (FiledBy(c, s, e)[0].1, m);
    StepKeepsInv(c, s, e);
    StoredIsLast(c, s, e);
    if e.meta.tokenSig != {} {
      TokenOverlapSelf(e.meta.tokenSig);
    }
    StaysOn(c, s, e);
    hide Step, Inv, FiledBy, TokenOverlap;
    assert p in BucketOf(t.index, BlockKey(c, e.meta));
    LastIsCandidate(c, t.index, e.meta, p);
    BestRejects(c, t, e.(register := again), p);
  }

  lemma StaysOn(c: Config, s: Dedup, e: Event)
    requires Stored(c, s, e)
    ensures !Step(c, s, e).0.disabled && e.embedding.Vec?
  {
    hide FindMatch, Candidates, Threshold, Insert, Replace;
  }

  lemma BestRejects(c: Config, t: Dedup, e: Event, p: Pair)
    requires !t.disabled && e.embedding.Vec? && NoneCloser(c, t, e)
    requires p in Candidates(c, t.index, e.meta) && p.1.vector == Some(e.embedding.v)
    requires Sim(c, e.embedding.v, p) > -1.0 && Sim(c, e.embedding.v, p) >= Threshold(c, t)
    ensures !Step(c, t, e).1
  {
    var (cands, v) := (Candidates(c, t.index, e.meta), e.embedding.v);
    hide Candidates, Threshold;
    BestIsLeftmost(c, v, cands);
    var j :| 0 <= j < |cands| && cands[j] == p;
    var r := Best(c, v, cands);
    assert r.Some? && cands[r.value] in cands;
    assert Blocks(c, v, cands, Threshold(c, t), e.meta, r.value);
    RejectedIff(c, t, e);
  }

  /** With a fixed threshold a document that opened a cluster needs nothing asked of the others: none
      of them reached the threshold. */
  lemma OpenedRejectedAgain(c: Config, s: Dedup, e: Event, again: bool)
    requires Inv(c, s) && !s.disabled && e.register && e.embedding.Vec? && Step(c, s, e).0.nextId != s.nextId
    requires c.maxBucket >= 1 && c.maxGlobal >= 1 && !c.adaptive && c.margin >= 0.0
    requires c.overlapMin > 0.0 ==> c.overlapMin <= 1.0 && e.meta.tokenSig != {}
    requires |BucketOf(Step(c, s, e).0.index, BlockKey(c, e.meta))| <= c.maxCandidates
    requires c.score(e.embedding.v, e.embedding.v) > -1.0 && c.score(e.embedding.v, e.embedding.v) >= c.maxThreshold
    requires |BucketOf(s.index, BlockKey(c, e.meta))| <= c.maxCandidates
    ensures !Step(c, Step(c, s, e).0, e.(register := again)).1
  {
    OpenedStored(c, s, e);
    var t := Step(c, s, e).0;
    StepKeepsInv(c, s, e);
    OthersWereThere(c, s, e);
    OpensClusterIff(c, s, e);
    hide Inv, Step, Candidates, BlockKey, FiledBy;
    forall p | p in Candidates(c, t.index, e.meta) && p.1.vector.Some?
      ensures Sim(c, e.embedding.v, p) <= c.score(e.embedding.v, e.embedding.v)
      ensures Sim(c, e.embedding.v, p) == c.score(e.embedding.v, e.embedding.v) ==>
        e.meta.Rank() <= p.1.Rank() + c.margin
    {
      if p in Candidates(c, s.index, e.meta) {
        assert !Reaches(c, s, e, p);
      }
    }
    ResubmittedRejected(c, s, e, again);
  }

  lemma OpenedStored(c: Config, s: Dedup, e: Event)
    requires !s.disabled && e.register && e.embedding.Vec? && Step(c, s, e).0.nextId != s.nextId
    ensures Stored(c, s, e) && FiledBy(c, s, e) == [(BlockKey(c, e.meta), s.nextId)]
    ensures Step(c, s, e).0.index == Insert(c, s.index, s.nextId, e.meta.(vector := Some(e.embedding.v)))
  {
    hide FindMatch, Candidates, Threshold, Insert, Replace, BlockKey;
  }

  /** Inserting puts nothing else into a bucket. */
  lemma InsertedOnly(c: Config, s: Index, id: int, m: Meta, k: Key)
    requires IndexOk(c, s) && id !in s.entries
    ensures forall p :: p in BucketOf(Insert(c, s, id, m), k) ==> p in BucketOf(s, k) || p == (id, m)
  {
    hide IndexOk, Insert, BlockKey, Without;
    InsertFiles(c, s, id, m, k);
    var now := Filed(BucketOf(s, k), (id, m), c.maxBucket);
    match Leaving(c, s, id)
    case None =>
    case Some(gone) =>
      WithoutIs(now, gone);
      WithoutIs(BucketOf(s, k), gone);
  }

  /** Opening a cluster puts nothing but the new document into its bucket. */
  lemma OpenedBucket(c: Config, s: Dedup, e: Event)
    requires Inv(c, s) && !s.disabled && e.register && e.embedding.Vec? && Step(c, s, e).0.nextId != s.nextId
    ensures
      var (t, m) := (Step(c, s, e).0, e.meta.(vector := Some(e.embedding.v)));
      forall p :: p in BucketOf(t.index, BlockKey(c, m)) ==>
        p in BucketOf(s.index, BlockKey(c, m)) || p == (s.nextId, m)
  {
    var m := e.meta.(vector := Some(e.embedding.v));
    OpenedStored(c, s, e);
    assert forall i :: i in s.index.entries ==> i in s.index.entries.Keys;
    hide Step, IndexOk, Insert, BlockKey, BucketOf, SizesOk;
    InsertedOnly(c, s.index, s.nextId, m, BlockKey(c, m));
  }

  /** The candidates after a cluster was opened are those from before, and the new document. */
  lemma OthersWereThere(c: Config, s: Dedup, e: Event)
    requires Inv(c, s) && !s.disabled && e.register && e.embedding.Vec? && Step(c, s, e).0.nextId != s.nextId
    requires |BucketOf(s.index, BlockKey(c, e.meta))| <= c.maxCandidates
    ensures
      var t := Step(c, s, e).0;
      forall p :: p in Candidates(c, t.index, e.meta) ==>
        p in Candidates(c, s.index, e.meta) || p == (s.nextId, e.meta.(vector := Some(e.embedding.v)))
  {
    var (t, m) := (Step(c, s, e).0, e.meta.(vector := Some(e.embedding.v)));
    SameKey(c, e.meta, Some(e.embedding.v));
    StepKeepsInv(c, s, e);
    OpenedBucket(c, s, e);
    assert IndexOk(c, s.index) && IndexOk(c, t.index);
    hide Step, Inv, IndexOk, Insert, BlockKey, Candidates, TokenOverlap;
    forall p | p in Candidates(c, t.index, e.meta)
      ensures p in Candidates(c, s.index, e.meta) || p == (s.nextId, m)
    {
      CandidatesAre(c, t.index, e.meta, p);
      CandidatesAre(c, s.index, e.meta, p);
      InFirst(BucketOf(t.index, BlockKey(c, m)), c.maxCandidates, p);
    }
  }

  lemma InFirst(b: seq<Pair>, n: nat, p: Pair)
    requires p in (if |b| > n then b[..n] else b)
    ensures p in b
  {
  }
}
