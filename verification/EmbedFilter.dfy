/** The filter in its running form: the objects the source updates in place, each method tied to
    the step function of EmbedSpec. */
module EmbedFilter {
  import opened Wrappers
  import opened Collections
  import opened EmbedSpec
  import EmbedProofs

  class BucketAnnIndex {
    const cfg: Config
    var buckets: map<Key, seq<Pair>>
    var entries: map<int, Meta>
    var total: int

    constructor (c: Config)
      ensures cfg == c && State() == INIT.index
    {
      cfg := c;
      buckets, entries, total := map[], map[], 0;
    }

    ghost function State(): Index
      reads this
    {
      Index(buckets, entries, total)
    }

    method FilterCandidates(m: Meta, raw: seq<Pair>) returns (out: seq<Pair>)
      ensures out == Filter(cfg, m, raw)
    {
      out := [];
      for i := 0 to |raw|
        invariant out == Filter(cfg, m, raw[..i])
      {
        assert raw[..i + 1][..i] == raw[..i];
        if Admissible(cfg, m, raw[i].1) {
          out := out + [raw[i]];
        }
      }
      assert raw[..|raw|] == raw;
    }

    method CandidatesFor(m: Meta) returns (r: seq<Pair>)
      ensures r == Candidates(cfg, State(), m)
    {
      var key := BlockKey(cfg, m);
      var raw := if key in buckets then buckets[key] else [];
      r := FilterCandidates(m, if |raw| > cfg.maxCandidates then raw[..cfg.maxCandidates] else raw);
    }

    method DropId(b: seq<Pair>, id: int) returns (r: seq<Pair>)
      ensures r == Without(b, id)
    {
      r := [];
      for i := 0 to |b|
        invariant r == Without(b[..i], id)
      {
        assert b[..i + 1][..i] == b[..i];
        if b[i].0 != id {
          r := r + [b[i]];
        }
      }
      assert b[..|b|] == b;
    }

    method AppendTo(id: int, m: Meta)
      modifies this
      ensures State() == EmbedSpec.Append(cfg, old(State()), id, m)
    {
      entries := entries[id := m];
      var key := BlockKey(cfg, m);
      var bucket := (if key in buckets then buckets[key] else []) + [(id, m)];
      if |bucket| > cfg.maxBucket {
        bucket := bucket[|bucket| - cfg.maxBucket..];
      }
      buckets := buckets[key := bucket];
    }

    method Insert(id: int, m: Meta)
      modifies this
      ensures State() == EmbedSpec.Insert(cfg, old(State()), id, m)
    {
      AppendTo(id, m);
      total := total + 1;
      if total > cfg.maxGlobal {
        EvictOldest();
      }
    }

    method Replace(id: int, m: Meta)
      modifies this
      ensures State() == EmbedSpec.Replace(cfg, old(State()), id, m)
    {
      if id in entries {
        var key := BlockKey(cfg, entries[id]);
        var kept := DropId(if key in buckets then buckets[key] else [], id);
        buckets := buckets[key := kept];
      }
      AppendTo(id, m);
    }

    method EvictOldest()
      modifies this
      ensures State() == EmbedSpec.EvictOldest(cfg, old(State()))
    {
      if entries == map[] {
        return;
      }
      assert entries.Keys != {};
      var id := Least(entries.Keys);
      var key := BlockKey(cfg, entries[id]);
      entries := entries - {id};
      var kept := DropId(if key in buckets then buckets[key] else [], id);
      buckets := buckets[key := kept];
      total := if total - 1 > 0 then total - 1 else 0;
    }
  }

  class NearDuplicateClusterBuilder {
    const cfg: Config
    var sizes: map<int, int>
    var nextId: int

    constructor (c: Config)
      ensures cfg == c && sizes == map[] && nextId == 1
    {
      cfg := c;
      sizes, nextId := map[], 1;
    }

    method AllocateCluster() returns (id: int)
      modifies this
      ensures id == old(nextId) && nextId == old(nextId) + 1 && sizes == old(sizes)[id := 1]
    {
      id := nextId;
      nextId := nextId + 1;
      sizes := sizes[id := 1];
    }

    method AttachDuplicate(id: int)
      modifies this`sizes
      ensures sizes == old(sizes)[id := (if id in old(sizes) then old(sizes)[id] else 1) + 1]
    {
      sizes := sizes[id := (if id in sizes then sizes[id] else 1) + 1];
    }

    /** The scan for the best candidate: a hit is the leftmost best one, if it reaches the
        threshold. */
    method FindMatch(v: Vector, cands: seq<Pair>, threshold: real) returns (r: Option<Match>)
      ensures r == EmbedSpec.FindMatch(cfg, v, cands, threshold)
    {
      var bestSim, best := -1.0, None;
      for i := 0 to |cands|
        invariant best == Best(cfg, v, cands[..i])
        invariant bestSim == if best.Some? then Sim(cfg, v, cands[best.value]) else -1.0
      {
        assert cands[..i + 1][..i] == cands[..i];
        if cands[i].1.vector.Some? {
          var sim := cfg.score(v, cands[i].1.vector.value);
          if sim > bestSim {
            bestSim, best := sim, Some(i);
          }
        }
      }
      assert cands[..|cands|] == cands;
      if best.None? || bestSim < threshold {
        return None;
      }
      r := Some(Match(cands[best.value].0, bestSim, cands[best.value].1.Rank()));
    }
  }

  /** The two sample reservoirs; each keeps the last RESERVOIR samples. */
  class AdaptiveSimilarityThreshold {
    const cfg: Config
    var matches: seq<real>
    var nonMatches: seq<real>

    constructor (c: Config)
      ensures cfg == c && matches == [] && nonMatches == []
    {
      cfg := c;
      matches, nonMatches := [], [];
    }

    method RecordMatch(sim: real)
      modifies this`matches
      ensures matches == Last(old(matches) + [sim], RESERVOIR)
    {
      matches := matches + [sim];
      if |matches| > RESERVOIR {
        matches := matches[|matches| - RESERVOIR..];
      }
    }

    method RecordNonMatch(sim: real)
      modifies this`nonMatches
      ensures nonMatches == Last(old(nonMatches) + [sim], RESERVOIR)
    {
      nonMatches := nonMatches + [sim];
      if |nonMatches| > RESERVOIR {
        nonMatches := nonMatches[|nonMatches| - RESERVOIR..];
      }
    }
  }

  class StreamingEmbeddingDedup {
    const cfg: Config
    const index: BucketAnnIndex
    const clusters: NearDuplicateClusterBuilder
    const threshold: AdaptiveSimilarityThreshold
    var kept: int
    var duplicates: int
    var disabled: bool

    ghost function State(): Dedup
      reads this, index, clusters, threshold
    {
      Dedup(index.State(), clusters.nextId, clusters.sizes,
            threshold.matches, threshold.nonMatches, kept, duplicates, disabled)
    }

    /** Every field is that of a reachable state. */
    ghost predicate Valid()
      reads this, index, clusters, threshold
    {
      && index.cfg == clusters.cfg == threshold.cfg == cfg
      && EmbedProofs.Inv(cfg, State())
    }

    constructor (c: Config)
      ensures Valid() && State() == INIT
      ensures fresh(index) && fresh(clusters) && fresh(threshold) && cfg == c
    {
      cfg := c;
      index := new BucketAnnIndex(c);
      clusters := new NearDuplicateClusterBuilder(c);
      threshold := new AdaptiveSimilarityThreshold(c);
      kept, duplicates, disabled := 0, 0, false;
    }

    /** `maxSim` of a document without a match: the largest similarity among the comparable
        candidates. */
    method PairwiseMax(v: Vector, cands: seq<Pair>) returns (maxSim: real)
      ensures maxSim == MaxSim(cfg, v, cands)
    {
      var best, compared := -1.0, false;
      for i := 0 to |cands|
        invariant compared <==> exists p :: p in cands[..i] && p.1.vector.Some?
        invariant var r := Best(cfg, v, cands[..i]); best == if r.Some? then Sim(cfg, v, cands[r.value]) else -1.0
      {
        assert cands[..i + 1][..i] == cands[..i];
        assert forall p :: p in cands[..i + 1] <==> p in cands[..i] || p == cands[i];
        if cands[i].1.vector.Some? {
          compared := true;
          var sim := cfg.score(v, cands[i].1.vector.value);
          if sim > best {
            best := sim;
          }
        }
      }
      assert cands[..|cands|] == cands;
      maxSim := if compared then best else 0.0;
    }

    method RejectInto(hit: Match)
      modifies this, clusters, threshold
      ensures State() == Attach(old(State()), hit)
    {
      clusters.AttachDuplicate(hit.cluster);
      threshold.RecordMatch(hit.similarity);
      duplicates := duplicates + 1;
    }

    method OpenFor(m: Meta, maxSim: real, register: bool)
      requires index.cfg == cfg
      modifies this, index, clusters, threshold
      ensures State() == Open(cfg, old(State()), m, maxSim, register)
    {
      hide EmbedSpec.Insert;
      threshold.RecordNonMatch(maxSim);
      if register {
        var id := clusters.AllocateCluster();
        index.Insert(id, m);
        kept := kept + 1;
      }
    }

    method Promote(cluster: int, m: Meta)
      requires index.cfg == cfg
      modifies this, index
      ensures State() == old(State()).(index := EmbedSpec.Replace(cfg, old(State()).index, cluster, m),
        kept := old(kept) + 1)
    {
      hide EmbedSpec.Replace;
      index.Replace(cluster, m);
      kept := kept + 1;
    }

    /** A document whose vector is at hand: replace, reject or open a cluster. */
    method Decide(meta: Meta, v: Vector, cands: seq<Pair>, register: bool) returns (keep: bool)
      requires index.cfg == clusters.cfg == threshold.cfg == cfg && !disabled
      requires cands == Candidates(cfg, index.State(), meta)
      modifies this, index, clusters, threshold
      ensures (State(), keep) == Step(cfg, old(State()), Event(meta, Vec(v), register))
    {
      hide EmbedSpec.FindMatch, MaxSim, Candidates, EmbedSpec.Replace, Attach, Open, ThresholdOf, Meta.Rank,
        BucketAnnIndex.State;
      var m := meta.(vector := Some(v));
      var hit := clusters.FindMatch(v, cands, ThresholdOf(cfg, threshold.matches, threshold.nonMatches));
      if hit.Some? {
        if m.Rank() > hit.value.rank + cfg.margin {
          if register {
            Promote(hit.value.cluster, m);
          }
          return true;
        }
        RejectInto(hit.value);
        return false;
      }
      var maxSim := PairwiseMax(v, cands);
      OpenFor(m, maxSim, register);
      return true;
    }

    /** One document. The new state and the verdict are those of the step function, so every
        lemma about steps and runs is one about this object. */
    method Evaluate(meta: Meta, embedding: Embedding, register: bool) returns (keep: bool)
      requires Valid()
      modifies this, index, clusters, threshold
      ensures Valid()
      ensures (State(), keep) == Step(cfg, old(State()), Event(meta, embedding, register))
    {
      EmbedProofs.StepKeepsInv(cfg, State(), Event(meta, embedding, register));
      hide EmbedProofs.Inv, Candidates, EmbedSpec.FindMatch, BucketAnnIndex.State;
      if disabled {
        return true;
      }
      var cands := index.CandidatesFor(meta);
      match embedding
      case Raised =>
        disabled := true;
        keep := true;
      case Missing =>
        keep := true;
      case Vec(v) =>
        keep := Decide(meta, v, cands, register);
    }
  }
}
