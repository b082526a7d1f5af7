/** The embedding near-duplicate filter as a state machine on values: a blocked index of
    cluster representatives, cluster sizes, an adaptive threshold, and one step per document. */
module EmbedSpec {
  import opened Wrappers
  import opened Collections

  type Vector = seq<real>

  datatype Meta = Meta(
    text: string, language: string, domain: string, length: nat, tokenSig: set<string>,
    quality: real, knowledge: real, utility: real, toxicity: real, artifact: real,
    vector: Option<Vector>)
  {
    function Rank(): real {
      quality * 0.45 + knowledge * 0.01 * 0.20 + utility * 10.0 * 0.20
      - toxicity * 0.10 - artifact * 0.01 * 0.05
    }
  }

  /** Block keys hold only the parts the configuration switches on. */
  datatype Key = Key(language: Option<string>, domain: Option<string>, length: Option<int>, sim: int)

  /** The configuration, with the three numeric oracles the source takes from numpy and hashing:
      the simhash bucket of a text, the similarity score, and the percentile of a sample. */
  datatype Config = Config(
    maxCandidates: nat, maxBucket: nat, maxGlobal: nat,
    adaptive: bool, minThreshold: real, maxThreshold: real, margin: real,
    sameLanguage: bool, byDomain: bool, byLength: bool, lengthBucket: int, overlapMin: real,
    simBucket: string -> int, score: (Vector, Vector) -> real, percentile: (seq<real>, int) -> real)

  type Pair = (int, Meta)

  datatype Index = Index(buckets: map<Key, seq<Pair>>, entries: map<int, Meta>, total: int)

  datatype Match = Match(cluster: int, similarity: real, rank: real)

  datatype Dedup = Dedup(
    index: Index, nextId: int, sizes: map<int, int>,
    matches: seq<real>, nonMatches: seq<real>, kept: int, duplicates: int, disabled: bool)

  /** What one call of the embedding provider did: raised, returned no vector, or returned one. */
  datatype Embedding = Raised | Missing | Vec(v: Vector)

  /** One document: `register` is false when the caller only asks, true when it also stores. */
  datatype Event = Event(meta: Meta, embedding: Embedding, register: bool)

  const RESERVOIR: nat := 2048

  const INIT := Dedup(Index(map[], map[], 0), 1, map[], [], [], 0, 0, false)

  // ---- blocking ----

  function LengthBucket(c: Config, length: nat): int {
    if c.lengthBucket <= 0 then 0 else length / c.lengthBucket
  }

  function BlockKey(c: Config, m: Meta): Key {
    Key(if c.sameLanguage then Some(m.language) else None,
        if c.byDomain then Some(m.domain) else None,
        if c.byLength then Some(LengthBucket(c, m.length)) else None,
        c.simBucket(m.text))
  }

  function TokenOverlap(a: set<string>, b: set<string>): real {
    if a == {} || b == {} then 0.0
    else |a * b| as real / (if |a + b| > 1 then |a + b| else 1) as real
  }

  predicate Admissible(c: Config, m: Meta, cand: Meta) {
    && (c.sameLanguage ==> m.language == cand.language)
    && (c.byDomain ==> m.domain == cand.domain)
    && (c.byLength ==> LengthBucket(c, m.length) == LengthBucket(c, cand.length))
    && (c.overlapMin > 0.0 ==> TokenOverlap(m.tokenSig, cand.tokenSig) >= c.overlapMin)
  }

  function Filter(c: Config, m: Meta, raw: seq<Pair>): seq<Pair> {
    if raw == [] then []
    else
      var rest := Filter(c, m, raw[..|raw| - 1]);
      var last := raw[|raw| - 1];
      if Admissible(c, m, last.1) then rest + [last] else rest
  }

  function BucketOf(s: Index, k: Key): seq<Pair> {
    if k in s.buckets then s.buckets[k] else []
  }

  function Candidates(c: Config, s: Index, m: Meta): seq<Pair> {
    var raw := BucketOf(s, BlockKey(c, m));
    Filter(c, m, if |raw| > c.maxCandidates then raw[..c.maxCandidates] else raw)
  }

  // ---- the blocked index ----

  function Without(b: seq<Pair>, id: int): seq<Pair> {
    if b == [] then []
    else
      var rest := Without(b[..|b| - 1], id);
      if b[|b| - 1].0 != id then rest + [b[|b| - 1]] else rest
  }

  function Append(c: Config, s: Index, id: int, m: Meta): Index {
    var k := BlockKey(c, m);
    Index(s.buckets[k := Last(BucketOf(s, k) + [(id, m)], c.maxBucket)], s.entries[id := m], s.total)
  }

  function Remove(c: Config, s: Index, id: int): Index
    requires id in s.entries
  {
    var k := BlockKey(c, s.entries[id]);
    s.(buckets := s.buckets[k := Without(BucketOf(s, k), id)])
  }

  function Least(ids: set<int>): (r: int)
    requires ids != {}
    ensures r in ids && forall i :: i in ids ==> r <= i
  {
    LeastExists(ids);
    var r :| r in ids && forall i :: i in ids ==> r <= i;
    r
  }

  lemma {:induction false} LeastExists(ids: set<int>)
    requires ids != {}
    ensures exists r :: r in ids && forall i :: i in ids ==> r <= i
  {
    var x := Pick(ids);
    if ids - {x} == {} {
      assert ids == {x};
    } else {
      LeastExists(ids - {x});
      var r :| r in ids - {x} && forall i :: i in ids - {x} ==> r <= i;
      assert forall i :: i in ids ==> i == x || i in ids - {x};
      var least := if x < r then x else r;
      assert least in ids && forall i :: i in ids ==> least <= i;
    }
  }

  function EvictOldest(c: Config, s: Index): Index {
    if s.entries == map[] then s
    else
      assert s.entries.Keys != {};
      var id := Least(s.entries.Keys);
      Index(Remove(c, s, id).buckets, s.entries - {id}, if s.total - 1 > 0 then s.total - 1 else 0)
  }

  function Insert(c: Config, s: Index, id: int, m: Meta): Index {
    var s1 := Append(c, s, id, m).(total := s.total + 1);
    if s1.total > c.maxGlobal then EvictOldest(c, s1) else s1
  }

  function Replace(c: Config, s: Index, id: int, m: Meta): Index {
    Append(c, if id in s.entries then Remove(c, s, id) else s, id, m)
  }

  // ---- matching ----

  function Sim(c: Config, v: Vector, p: Pair): real
    requires p.1.vector.Some?
  {
    c.score(v, p.1.vector.value)
  }

  /** The position the scan settles on: it starts below -1 and moves only on a strict gain. */
  function Best(c: Config, v: Vector, cands: seq<Pair>): (r: Option<nat>)
    ensures r.Some? ==> r.value < |cands| && cands[r.value].1.vector.Some?
  {
    if cands == [] then None
    else
      var n := |cands| - 1;
      var r := Best(c, v, cands[..n]);
      if cands[n].1.vector.Some?
         && Sim(c, v, cands[n]) > (if r.Some? then Sim(c, v, cands[r.value]) else -1.0)
      then Some(n) else r
  }

  function FindMatch(c: Config, v: Vector, cands: seq<Pair>, threshold: real): Option<Match> {
    var r := Best(c, v, cands);
    if r.None? || Sim(c, v, cands[r.value]) < threshold then None
    else Some(Match(cands[r.value].0, Sim(c, v, cands[r.value]), cands[r.value].1.Rank()))
  }

  /** Largest similarity seen, or the scan's floor of -1; zero when nothing can be compared. */
  function MaxSim(c: Config, v: Vector, cands: seq<Pair>): real {
    if forall p :: p in cands ==> p.1.vector.None? then 0.0
    else
      var r := Best(c, v, cands);
      if r.Some? then Sim(c, v, cands[r.value]) else -1.0
  }

  function ThresholdOf(c: Config, matches: seq<real>, nonMatches: seq<real>): real {
    if !c.adaptive then c.maxThreshold
    else if |matches| < 8 || |nonMatches| < 8 then (c.minThreshold + c.maxThreshold) * 0.5
    else
      var t := (c.percentile(matches, 30) + c.percentile(nonMatches, 95)) * 0.5;
      var capped := if t < c.maxThreshold then t else c.maxThreshold;
      if capped > c.minThreshold then capped else c.minThreshold
  }

  function Threshold(c: Config, s: Dedup): real {
    ThresholdOf(c, s.matches, s.nonMatches)
  }

  // ---- one document ----

  function Attach(s: Dedup, hit: Match): Dedup {
    var size := if hit.cluster in s.sizes then s.sizes[hit.cluster] else 1;
    s.(sizes := s.sizes[hit.cluster := size + 1],
       matches := Last(s.matches + [hit.similarity], RESERVOIR),
       duplicates := s.duplicates + 1)
  }

  function Open(c: Config, s: Dedup, m: Meta, maxSim: real, register: bool): Dedup {
    var s1 := s.(nonMatches := Last(s.nonMatches + [maxSim], RESERVOIR));
    if !register then s1
    else s1.(index := Insert(c, s.index, s.nextId, m), nextId := s.nextId + 1,
             sizes := s.sizes[s.nextId := 1], kept := s.kept + 1)
  }

  /** The state after one document and the verdict (true is keep). */
  function Step(c: Config, s: Dedup, e: Event): (Dedup, bool) {
    if s.disabled then (s, true)
    else match e.embedding
      case Raised => (s.(disabled := true), true)
      case Missing => (s, true)
      case Vec(v) =>
        var cands := Candidates(c, s.index, e.meta);
        var m := e.meta.(vector := Some(v));
        match FindMatch(c, v, cands, Threshold(c, s))
        case Some(hit) =>
          if m.Rank() > hit.rank + c.margin then
            (if e.register then s.(index := Replace(c, s.index, hit.cluster, m), kept := s.kept + 1) else s, true)
          else (Attach(s, hit), false)
        case None => (Open(c, s, m, MaxSim(c, v, cands), e.register), true)
  }

  function Run(c: Config, s: Dedup, es: seq<Event>): Dedup
    decreases |es|
  {
    if es == [] then s else Run(c, Step(c, s, es[0]).0, es[1..])
  }
}
