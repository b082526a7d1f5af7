/** What every run of the embedding filter keeps, and what each verdict means. */
module EmbedProofs {
  import opened Wrappers
  import opened Collections
  import opened EmbedSpec

  // ---- the index invariant ----

  ghost predicate DistinctIds(b: seq<Pair>) {
    forall i, j :: 0 <= i < j < |b| ==> b[i].0 != b[j].0
  }

  /** Every pair of a bucket is the live entry of its id, filed under that entry's own key. */
  ghost predicate BucketOk(c: Config, entries: map<int, Meta>, k: Key, b: seq<Pair>) {
    && DistinctIds(b)
    && |b| <= c.maxBucket
    && forall p :: p in b ==> p.0 in entries && entries[p.0] == p.1 && BlockKey(c, p.1) == k
  }

  ghost predicate IndexOk(c: Config, s: Index) {
    && s.total == |s.entries|
    && forall k :: k in s.buckets ==> BucketOk(c, s.entries, k, s.buckets[k])
  }

  /** Sizes of clusters 1..n added up. */
  ghost function SumSizes(sizes: map<int, int>, n: nat): int
    requires forall i :: 1 <= i <= n ==> i in sizes
  {
    if n == 0 then 0 else SumSizes(sizes, n - 1) + sizes[n]
  }

  /** Every id below `next` has a size, and the sizes add up to the ids plus the duplicates. */
  ghost predicate SizesOk(sizes: map<int, int>, next: int, duplicates: int) {
    && next >= 1
    && (forall i :: i in sizes <==> 1 <= i < next)
    && SumSizes(sizes, next - 1) == next - 1 + duplicates
  }

  /** `ids` are the last `cap` of those allocated below `next`. */
  ghost predicate LastAllocated(ids: set<int>, next: int, cap: nat) {
    forall i :: i in ids <==> 1 <= i < next && next - i <= cap
  }

  /** The invariant of every reachable state. */
  ghost predicate Inv(c: Config, s: Dedup) {
    && IndexOk(c, s.index)
    && s.nextId >= 1
    && LastAllocated(s.index.entries.Keys, s.nextId, c.maxGlobal)
    && SizesOk(s.sizes, s.nextId, s.duplicates)
    && |s.matches| <= RESERVOIR && |s.nonMatches| <= RESERVOIR
  }

  lemma {:induction false} WithoutIs(b: seq<Pair>, id: int)
    ensures forall p :: p in Without(b, id) <==> p in b && p.0 != id
    ensures |Without(b, id)| <= |b|
    ensures DistinctIds(b) ==> DistinctIds(Without(b, id))
  {
    if b != [] {
      WithoutIs(b[..|b| - 1], id);
      assert b == b[..|b| - 1] + [b[|b| - 1]];
    }
  }

  lemma GrownBucketOk(c: Config, entries: map<int, Meta>, k: Key, b: seq<Pair>, id: int, m: Meta)
    requires BucketOk(c, entries, k, b) && BlockKey(c, m) == k
    requires forall p :: p in b ==> p.0 != id
    ensures BucketOk(c, entries[id := m], k, Last(b + [(id, m)], c.maxBucket))
  {
    hide BlockKey;
    var grown := b + [(id, m)];
    assert DistinctIds(grown);
    assert forall p :: p in Last(grown, c.maxBucket) ==> p in grown;
  }

  lemma AppendKeeps(c: Config, s: Index, id: int, m: Meta)
    requires forall k :: k in s.buckets ==> BucketOk(c, s.entries, k, s.buckets[k])
    requires forall k, p :: k in s.buckets && p in s.buckets[k] ==> p.0 != id
    ensures forall k :: k in Append(c, s, id, m).buckets ==>
      BucketOk(c, s.entries[id := m], k, Append(c, s, id, m).buckets[k])
  {
    hide BlockKey, Last;
    GrownBucketOk(c, s.entries, BlockKey(c, m), BucketOf(s, BlockKey(c, m)), id, m);
  }

  lemma RemoveKeeps(c: Config, s: Index, id: int)
    requires id in s.entries
    requires forall k :: k in s.buckets ==> BucketOk(c, s.entries, k, s.buckets[k])
    ensures forall k :: k in Remove(c, s, id).buckets ==> BucketOk(c, s.entries, k, Remove(c, s, id).buckets[k])
    ensures forall k, p :: k in Remove(c, s, id).buckets && p in Remove(c, s, id).buckets[k] ==> p.0 != id
  {
    WithoutIs(BucketOf(s, BlockKey(c, s.entries[id])), id);
  }

  lemma EvictKeeps(c: Config, s: Index)
    requires IndexOk(c, s) && s.entries != map[]
    ensures IndexOk(c, EvictOldest(c, s))
    ensures EvictOldest(c, s).entries == s.entries - {Least(s.entries.Keys)}
  {
    var id := Least(s.entries.Keys);
    RemoveKeeps(c, s, id);
    var t := EvictOldest(c, s);
    assert t.entries.Keys == s.entries.Keys - {id};
    forall k | k in t.buckets
      ensures BucketOk(c, t.entries, k, t.buckets[k])
    {
      assert BucketOk(c, s.entries, k, t.buckets[k]);
    }
  }

  ghost function InsertedIds(c: Config, s: Index, id: int): set<int> {
    var ids := s.entries.Keys + {id};
    if s.total + 1 > c.maxGlobal then ids - {Least(ids)} else ids
  }

  lemma InsertKeeps(c: Config, s: Index, id: int, m: Meta)
    requires IndexOk(c, s) && id !in s.entries
    ensures IndexOk(c, Insert(c, s, id, m))
    ensures Insert(c, s, id, m).entries.Keys == InsertedIds(c, s, id)
  {
    AppendKeeps(c, s, id, m);
    var s1 := Append(c, s, id, m).(total := s.total + 1);
    assert s1.entries.Keys == s.entries.Keys + {id};
    assert IndexOk(c, s1);
    if s1.total > c.maxGlobal {
      EvictKeeps(c, s1);
    }
  }

  lemma ReplaceKeeps(c: Config, s: Index, id: int, m: Meta)
    requires IndexOk(c, s) && id in s.entries
    ensures IndexOk(c, Replace(c, s, id, m))
    ensures Replace(c, s, id, m).entries == s.entries[id := m]
  {
    RemoveKeeps(c, s, id);
    AppendKeeps(c, Remove(c, s, id), id, m);
    assert s.entries[id := m].Keys == s.entries.Keys;
  }

  // ---- candidates and the match ----

  lemma {:induction false} FilterIs(c: Config, m: Meta, raw: seq<Pair>)
    ensures forall p :: p in Filter(c, m, raw) <==> p in raw && Admissible(c, m, p.1)
  {
    if raw != [] {
      FilterIs(c, m, raw[..|raw| - 1]);
      assert raw == raw[..|raw| - 1] + [raw[|raw| - 1]];
    }
  }

  /** Candidates are live entries of the newcomer's own block, drawn from the first
      `maxCandidates` of the bucket; there the language, domain and length checks are redundant
      and only the token overlap decides. */
  lemma CandidatesAre(c: Config, s: Index, m: Meta, p: Pair)
    requires IndexOk(c, s)
    ensures p in Candidates(c, s, m) <==>
      && var raw := BucketOf(s, BlockKey(c, m));
      && p in (if |raw| > c.maxCandidates then raw[..c.maxCandidates] else raw)
      && (c.overlapMin > 0.0 ==> TokenOverlap(m.tokenSig, p.1.tokenSig) >= c.overlapMin)
    ensures p in Candidates(c, s, m) ==>
      p.0 in s.entries && s.entries[p.0] == p.1 && BlockKey(c, p.1) == BlockKey(c, m)
  {
    var raw := BucketOf(s, BlockKey(c, m));
    var head := if |raw| > c.maxCandidates then raw[..c.maxCandidates] else raw;
    FilterIs(c, m, head);
    if p in head {
      assert p in raw;
    }
  }

  /** `i` is the leftmost best of the comparable candidates above the scan's floor of -1. */
  ghost predicate IsLeftmostBest(c: Config, v: Vector, cands: seq<Pair>, i: nat) {
    && i < |cands| && cands[i].1.vector.Some? && Sim(c, v, cands[i]) > -1.0
    && (forall j :: 0 <= j < |cands| && cands[j].1.vector.Some? ==> Sim(c, v, cands[j]) <= Sim(c, v, cands[i]))
    && (forall j :: 0 <= j < i && cands[j].1.vector.Some? ==> Sim(c, v, cands[j]) < Sim(c, v, cands[i]))
  }

  lemma {:induction false} BestIsLeftmost(c: Config, v: Vector, cands: seq<Pair>)
    ensures Best(c, v, cands).Some? ==> IsLeftmostBest(c, v, cands, Best(c, v, cands).value)
    ensures Best(c, v, cands).None? ==>
      forall j :: 0 <= j < |cands| && cands[j].1.vector.Some? ==> Sim(c, v, cands[j]) <= -1.0
  {
    if cands != [] {
      BestIsLeftmost(c, v, cands[..|cands| - 1]);
    }
  }

  /** The match is the leftmost best candidate, and there is one exactly when some comparable
      candidate above -1 reaches the threshold. */
  lemma FindMatchIs(c: Config, v: Vector, cands: seq<Pair>, threshold: real)
    ensures FindMatch(c, v, cands, threshold).Some? <==>
      exists p :: p in cands && p.1.vector.Some? && Sim(c, v, p) > -1.0 && Sim(c, v, p) >= threshold
    ensures forall i: nat :: IsLeftmostBest(c, v, cands, i) && Sim(c, v, cands[i]) >= threshold ==>
      FindMatch(c, v, cands, threshold) == Some(Match(cands[i].0, Sim(c, v, cands[i]), cands[i].1.Rank()))
  {
    BestIsLeftmost(c, v, cands);
    var r := Best(c, v, cands);
    if r.Some? && Sim(c, v, cands[r.value]) >= threshold {
      assert cands[r.value] in cands;
    }
  }

  /** A match names a live entry of the newcomer's block that reaches the threshold. */
  lemma MatchIsLive(c: Config, s: Dedup, m: Meta, v: Vector)
    requires IndexOk(c, s.index)
    ensures
      var hit := FindMatch(c, v, Candidates(c, s.index, m), Threshold(c, s));
      hit.Some? ==>
        && hit.value.cluster in s.index.entries
        && var rep := s.index.entries[hit.value.cluster];
        && BlockKey(c, rep) == BlockKey(c, m)
        && rep.vector.Some? && hit.value.similarity == c.score(v, rep.vector.value) >= Threshold(c, s)
        && hit.value.rank == rep.Rank()
  {
    var cands := Candidates(c, s.index, m);
    var r := Best(c, v, cands);
    if r.Some? {
      CandidatesAre(c, s.index, m, cands[r.value]);
      assert cands[r.value] in cands;
    }
  }

  // ---- what every step and every run keep ----

  lemma {:induction false} SumSizesFrame(a: map<int, int>, b: map<int, int>, n: nat)
    requires forall i :: 1 <= i <= n ==> i in a && i in b && a[i] == b[i]
    ensures SumSizes(a, n) == SumSizes(b, n)
  {
    if n > 0 {
      SumSizesFrame(a, b, n - 1);
    }
  }

  lemma {:induction false} SumSizesBump(sizes: map<int, int>, id: int, n: nat)
    requires forall i :: 1 <= i <= n ==> i in sizes
    requires 1 <= id <= n
    ensures SumSizes(sizes[id := sizes[id] + 1], n) == SumSizes(sizes, n) + 1
  {
    if n == id {
      SumSizesFrame(sizes, sizes[id := sizes[id] + 1], n - 1);
    } else {
      SumSizesBump(sizes, id, n - 1);
    }
  }

  lemma WindowSlides(ids: set<int>, next: int, cap: nat)
    requires next >= 1 && LastAllocated(ids, next, cap)
    ensures |ids| + 1 > cap ==> LastAllocated(ids + {next} - {Least(ids + {next})}, next + 1, cap)
    ensures |ids| + 1 <= cap ==> LastAllocated(ids + {next}, next + 1, cap)
  {
    var oldest := if next - cap > 1 then next - cap else 1;
    IntervalSize(ids, oldest, next);
    var grown := ids + {next};
    assert forall i :: i in grown <==> oldest <= i <= next;
    assert oldest in grown && Least(grown) == oldest;
  }

  lemma SizesOpen(sizes: map<int, int>, next: int, duplicates: int)
    requires SizesOk(sizes, next, duplicates)
    ensures SizesOk(sizes[next := 1], next + 1, duplicates)
  {
    SumSizesFrame(sizes, sizes[next := 1], next - 1);
  }

  lemma OpenIndexKeeps(c: Config, s: Index, next: int, m: Meta)
    requires IndexOk(c, s) && LastAllocated(s.entries.Keys, next, c.maxGlobal) && next >= 1
    ensures IndexOk(c, Insert(c, s, next, m))
    ensures LastAllocated(Insert(c, s, next, m).entries.Keys, next + 1, c.maxGlobal)
  {
    assert next !in s.entries.Keys;
    InsertKeeps(c, s, next, m);
    WindowSlides(s.entries.Keys, next, c.maxGlobal);
    assert |s.entries.Keys| == s.total;
  }

  lemma OpenKeeps(c: Config, s: Dedup, m: Meta, maxSim: real, register: bool)
    requires Inv(c, s)
    ensures Inv(c, Open(c, s, m, maxSim, register))
  {
    hide Insert, IndexOk, SizesOk, LastAllocated;
    if register {
      OpenIndexKeeps(c, s.index, s.nextId, m);
      SizesOpen(s.sizes, s.nextId, s.duplicates);
    }
  }

  lemma ReplaceStepKeeps(c: Config, s: Dedup, id: int, m: Meta)
    requires Inv(c, s) && id in s.index.entries
    ensures Inv(c, s.(index := Replace(c, s.index, id, m), kept := s.kept + 1))
  {
    ReplaceKeeps(c, s.index, id, m);
    assert s.index.entries[id := m].Keys == s.index.entries.Keys;
  }

  lemma AttachKeeps(c: Config, s: Dedup, hit: Match)
    requires Inv(c, s) && hit.cluster in s.index.entries
    ensures Inv(c, Attach(s, hit))
  {
    assert hit.cluster in s.index.entries.Keys;
    SumSizesBump(s.sizes, hit.cluster, s.nextId - 1);
  }

  lemma StepKeepsInv(c: Config, s: Dedup, e: Event)
    requires Inv(c, s)
    ensures Inv(c, Step(c, s, e).0)
  {
    if !s.disabled && e.embedding.Vec? {
      var v := e.embedding.v;
      var cands := Candidates(c, s.index, e.meta);
      var m := e.meta.(vector := Some(v));
      MatchIsLive(c, s, e.meta, v);
      match FindMatch(c, v, cands, Threshold(c, s))
      case None => OpenKeeps(c, s, m, MaxSim(c, v, cands), e.register);
      case Some(h) =>
        ReplaceStepKeeps(c, s, h.cluster, m);
        AttachKeeps(c, s, h);
    }
  }

  /** Main result: the invariant holds in every state reachable from the initial one, so each
      bucket pair is live and filed once under its own key, the total is the number of entries,
      both caps hold, the live ids are the last `maxGlobal` ids allocated, and the cluster sizes
      add up to the ids allocated plus the duplicates attached. */
  lemma {:induction false} RunKeepsInv(c: Config, s: Dedup, es: seq<Event>)
    requires Inv(c, s)
    ensures Inv(c, Run(c, s, es))
    decreases |es|
  {
    if es != [] {
      StepKeepsInv(c, s, es[0]);
      RunKeepsInv(c, Step(c, s, es[0]).0, es[1..]);
    }
  }

  lemma ReachableInv(c: Config, es: seq<Event>)
    ensures
      var s := Run(c, INIT, es);
      && Inv(c, s)
      && |s.index.entries| <= c.maxGlobal
      && forall k1, k2, p, q | k1 in s.index.buckets && k2 in s.index.buckets ::
        p in s.index.buckets[k1] && q in s.index.buckets[k2] && p.0 == q.0 ==> k1 == k2 && p == q
  {
    RunKeepsInv(c, INIT, es);
    var s := Run(c, INIT, es);
    var oldest := if s.nextId - c.maxGlobal > 1 then s.nextId - c.maxGlobal else 1;
    IntervalSize(s.index.entries.Keys, oldest, s.nextId);
    assert forall k, p :: k in s.index.buckets && p in s.index.buckets[k] ==>
      BucketOk(c, s.index.entries, k, s.index.buckets[k]);
  }

  // ---- verdicts ----

  /** The comparable candidate `p` stands in the way of the newcomer. */
  ghost predicate Reaches(c: Config, s: Dedup, e: Event, p: Pair)
    requires e.embedding.Vec?
  {
    && p in Candidates(c, s.index, e.meta) && p.1.vector.Some?
    && Sim(c, e.embedding.v, p) > -1.0 && Sim(c, e.embedding.v, p) >= Threshold(c, s)
  }

  /** Candidate `i` wins the scan, reaches the threshold and outranks `m` up to the margin. */
  ghost predicate Blocks(c: Config, v: Vector, cands: seq<Pair>, threshold: real, m: Meta, i: nat) {
    && IsLeftmostBest(c, v, cands, i)
    && Sim(c, v, cands[i]) >= threshold
    && m.Rank() <= cands[i].1.Rank() + c.margin
  }

  /** A document is rejected exactly when the filter is on, a vector came back, and the leftmost
      best candidate reaches the threshold with a rank within the margin of the newcomer's. */
  lemma RejectedIff(c: Config, s: Dedup, e: Event)
    ensures !Step(c, s, e).1 <==>
      && !s.disabled && e.embedding.Vec?
      && exists i: nat :: Blocks(c, e.embedding.v, Candidates(c, s.index, e.meta), Threshold(c, s), e.meta, i)
  {
    if !s.disabled && e.embedding.Vec? {
      var cands := Candidates(c, s.index, e.meta);
      var v := e.embedding.v;
      BestIsLeftmost(c, v, cands);
      var r := Best(c, v, cands);
      if r.Some? {
        var i := r.value;
        assert !Step(c, s, e).1 <==> Blocks(c, v, cands, Threshold(c, s), e.meta, i);
        assert forall j: nat :: IsLeftmostBest(c, v, cands, j) ==> i == j;
      }
    }
  }

  /** Every rejection has a live witness in the newcomer's own block. */
  lemma RejectionWitness(c: Config, s: Dedup, e: Event)
    requires IndexOk(c, s.index) && !Step(c, s, e).1
    ensures e.embedding.Vec? && exists id ::
      && id in s.index.entries
      && var rep := s.index.entries[id];
      && BlockKey(c, rep) == BlockKey(c, e.meta)
      && rep.vector.Some? && c.score(e.embedding.v, rep.vector.value) >= Threshold(c, s)
      && e.meta.Rank() <= rep.Rank() + c.margin
      && Step(c, s, e).0.sizes == s.sizes[id := (if id in s.sizes then s.sizes[id] else 1) + 1]
  {
    MatchIsLive(c, s, e.meta, e.embedding.v);
    var hit := FindMatch(c, e.embedding.v, Candidates(c, s.index, e.meta), Threshold(c, s));
    assert hit.value.cluster in s.index.entries;
  }

  /** The leftmost best candidate, once it reaches the threshold, decides: a newcomer that ranks no more
      than the margin above it is rejected and counted in its cluster and nowhere else; any other is
      kept and, when registered, takes its place and no other. */
  lemma BestDecides(c: Config, s: Dedup, e: Event, i: nat)
    requires Inv(c, s) && !s.disabled && e.embedding.Vec?
    requires
      var cands := Candidates(c, s.index, e.meta);
      IsLeftmostBest(c, e.embedding.v, cands, i) && Sim(c, e.embedding.v, cands[i]) >= Threshold(c, s)
    ensures
      var ((t, keep), m) := (Step(c, s, e), e.meta.(vector := Some(e.embedding.v)));
      var id := Candidates(c, s.index, e.meta)[i].0;
      && id in s.index.entries && id in s.sizes && t.nextId == s.nextId
      && if e.meta.Rank() <= s.index.entries[id].Rank() + c.margin then
           && !keep && t.index == s.index && t.kept == s.kept
           && t.sizes == s.sizes[id := s.sizes[id] + 1] && t.duplicates == s.duplicates + 1
         else
           && keep && t.sizes == s.sizes && t.duplicates == s.duplicates
           && t.index.entries == (if e.register then s.index.entries[id := m] else s.index.entries)
           && t.kept == s.kept + if e.register then 1 else 0
  {
    var m := e.meta.(vector := Some(e.embedding.v));
    var id := Candidates(c, s.index, e.meta)[i].0;
    BestIsLive(c, s, e, i);
    ReplacedEntries(c, s, id, m);
    hide Inv, FindMatch, Candidates, Threshold, IsLeftmostBest, Sim, BlockKey, Replace;
    assert m.Rank() == e.meta.Rank();
  }

  lemma ReplacedEntries(c: Config, s: Dedup, id: int, m: Meta)
    requires Inv(c, s) && id in s.index.entries
    ensures Replace(c, s.index, id, m).entries == s.index.entries[id := m]
  {
    ReplaceKeeps(c, s.index, id, m);
  }

  lemma BestIsLive(c: Config, s: Dedup, e: Event, i: nat)
    requires Inv(c, s) && e.embedding.Vec?
    requires
      var cands := Candidates(c, s.index, e.meta);
      IsLeftmostBest(c, e.embedding.v, cands, i) && Sim(c, e.embedding.v, cands[i]) >= Threshold(c, s)
    ensures
      var cands := Candidates(c, s.index, e.meta);
      var (id, hit) := (cands[i].0, FindMatch(c, e.embedding.v, cands, Threshold(c, s)));
      && id in s.index.entries && id in s.sizes
      && hit.Some? && hit.value.cluster == id && hit.value.rank == s.index.entries[id].Rank()
  {
    var cands := Candidates(c, s.index, e.meta);
    assert cands[i] in cands;
    CandidatesAre(c, s.index, e.meta, cands[i]);
    FindMatchIs(c, e.embedding.v, cands, Threshold(c, s));
    hide FindMatch, Candidates, Threshold, BucketOk, BlockKey;
    assert cands[i].0 in s.index.entries.Keys;
  }

  /** A new cluster is opened exactly when a registered, embedded document has no candidate in
      its way. */
  lemma OpensClusterIff(c: Config, s: Dedup, e: Event)
    ensures Step(c, s, e).0.nextId != s.nextId <==>
      !s.disabled && e.register && e.embedding.Vec? && !exists p :: Reaches(c, s, e, p)
  {
    if e.embedding.Vec? {
      FindMatchIs(c, e.embedding.v, Candidates(c, s.index, e.meta), Threshold(c, s));
      if p :| Reaches(c, s, e, p) {
        assert p in Candidates(c, s.index, e.meta);
      } else {
        assert forall p | p in Candidates(c, s.index, e.meta) && p.1.vector.Some? ::
          Sim(c, e.embedding.v, p) > -1.0 && Sim(c, e.embedding.v, p) >= Threshold(c, s) ==> Reaches(c, s, e, p);
      }
    }
  }

  // ---- ranks ----

  /** The step replaces the representative of `id`. */
  ghost predicate Replaces(c: Config, s: Dedup, e: Event, id: int) {
    var t := Step(c, s, e).0;
    id in s.index.entries && id in t.index.entries && t.index.entries[id] != s.index.entries[id]
  }

  ghost function Replacements(c: Config, s: Dedup, es: seq<Event>, id: int): nat
    decreases |es|
  {
    if es == [] then 0
    else (if Replaces(c, s, es[0], id) then 1 else 0) + Replacements(c, Step(c, s, es[0]).0, es[1..], id)
  }

  /** Opening a cluster leaves every surviving representative alone. */
  lemma OpenLeavesOthers(c: Config, s: Dedup, m: Meta, maxSim: real, register: bool, id: int)
    requires Inv(c, s) && id in s.index.entries && id in Open(c, s, m, maxSim, register).index.entries
    ensures Open(c, s, m, maxSim, register).index.entries[id] == s.index.entries[id]
  {
    hide BlockKey, IndexOk, SizesOk;
    assert id in s.index.entries.Keys;
  }

  lemma StepRank(c: Config, s: Dedup, e: Event, id: int)
    requires Inv(c, s) && Replaces(c, s, e, id)
    ensures Step(c, s, e).0.index.entries[id].Rank() > s.index.entries[id].Rank() + c.margin
  {
    hide BlockKey, FindMatch, Candidates, Threshold, BucketOk, SizesOk, LastAllocated;
    var m := e.meta.(vector := Some(e.embedding.v));
    var hit := FindMatch(c, e.embedding.v, Candidates(c, s.index, e.meta), Threshold(c, s));
    MatchIsLive(c, s, e.meta, e.embedding.v);
    if hit.Some? {
      ReplaceKeeps(c, s.index, hit.value.cluster, m);
    } else {
      OpenLeavesOthers(c, s, m, MaxSim(c, e.embedding.v, Candidates(c, s.index, e.meta)), e.register, id);
    }
  }

  /** `b` came from `a` by `n` replacements, each gaining more than the margin. */
  ghost predicate Gains(c: Config, a: Meta, b: Meta, n: nat) {
    if n == 0 then a == b else b.Rank() > a.Rank() + c.margin * n as real
  }

  lemma GainsNone(c: Config, a: Meta)
    ensures Gains(c, a, a, 0)
  {
  }

  lemma GainsAdd(c: Config, x: Meta, y: Meta, z: Meta, k: nat, n: nat)
    requires Gains(c, x, y, k) && Gains(c, y, z, n)
    ensures Gains(c, x, z, k + n)
  {
    assert c.margin * (k + n) as real == c.margin * k as real + c.margin * n as real;
  }

  lemma StepGains(c: Config, s: Dedup, e: Event, id: int)
    requires Inv(c, s) && id in s.index.entries && id in Step(c, s, e).0.index.entries
    ensures Gains(c, s.index.entries[id], Step(c, s, e).0.index.entries[id], if Replaces(c, s, e, id) then 1 else 0)
  {
    if Replaces(c, s, e, id) {
      StepRank(c, s, e, id);
    }
  }

  lemma {:induction false} RunAllocates(c: Config, s: Dedup, es: seq<Event>)
    ensures s.nextId <= Run(c, s, es).nextId
    decreases |es|
  {
    if es != [] {
      RunAllocates(c, Step(c, s, es[0]).0, es[1..]);
    }
  }

  /** An id that is live now and after a run is live after the first step too. */
  lemma StaysLive(c: Config, s: Dedup, e: Event, es: seq<Event>, id: int)
    requires Inv(c, s)
    requires id in s.index.entries && id in Run(c, Step(c, s, e).0, es).index.entries
    ensures id in Step(c, s, e).0.index.entries
  {
    hide Step, IndexOk, SizesOk;
    var t := Step(c, s, e).0;
    StepKeepsInv(c, s, e);
    RunKeepsInv(c, t, es);
    RunAllocates(c, t, es);
    assert id in s.index.entries.Keys && id in Run(c, t, es).index.entries.Keys;
    RunAllocates(c, s, [e]);
    assert s.nextId <= t.nextId;
    assert id in t.index.entries.Keys;
  }

  /** Over any run, a cluster that is live at both ends has gained more than the margin for each
      time its representative was replaced; with a non-negative margin its rank never fell. */
  lemma {:induction false} RunRanksRise(c: Config, s: Dedup, es: seq<Event>, id: int)
    requires Inv(c, s)
    requires id in s.index.entries && id in Run(c, s, es).index.entries
    ensures Gains(c, s.index.entries[id], Run(c, s, es).index.entries[id], Replacements(c, s, es, id))
    decreases |es|
  {
    hide Inv, Step, Gains, Replaces;
    if es == [] {
      GainsNone(c, s.index.entries[id]);
    } else {
      var t := Step(c, s, es[0]).0;
      StaysLive(c, s, es[0], es[1..], id);
      StepKeepsInv(c, s, es[0]);
      StepGains(c, s, es[0], id);
      RunRanksRise(c, t, es[1..], id);
      GainsAdd(c, s.index.entries[id], t.index.entries[id], Run(c, t, es[1..]).index.entries[id],
               if Replaces(c, s, es[0], id) then 1 else 0, Replacements(c, t, es[1..], id));
    }
  }
}
