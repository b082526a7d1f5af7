/** Corpus fragment statistics: a memory cache with a fingerprint index over a row store. */
module CorpusSpec {
  import opened Wrappers

  datatype Fragment = Fragment(
    key: string, fingerprint: string, docs: int, lines: int, chars: int, histogram: seq<int>,
    lastSeen: int, firstSeen: int, weight: real, seen: bool)

  /** A unit of a document with the two digests of its text. */
  datatype Unit = Unit(inFence: bool, kind: string, strippedLength: nat, key: string, fp: string, length: nat,
      start: nat)

  datatype Document = Document(units: seq<Unit>, charCount: nat)

  /** The cache, its fingerprint index, the rows of the store if one is attached, and counters. */
  datatype State = State(
    fragments: map<string, Fragment>, fpIndex: map<string, string>,
    attached: bool, rows: map<string, Fragment>, docsSeen: int, batchId: int)

  const COUNTED_KINDS: set<string> := {"line", "paragraph", "block", "header", "footer", "list", "table"}

  predicate Eligible(u: Unit) {
    !u.inFence && u.kind != "code" && u.kind in COUNTED_KINDS && u.strippedLength >= 4
  }

  function PositionBin(offset: nat, docLen: int): (b: nat)
    ensures b < 5
  {
    if docLen <= 0 then 2
    else
      var r := offset as real / docLen as real;
      if r < 0.10 then 0 else if r < 0.25 then 1 else if r < 0.75 then 2 else if r < 0.90 then 3 else 4
  }

  // ---- the store ----

  /** A row keeps neither the fingerprint nor the batch mark; a zero weight reads back as one. */
  function Row(f: Fragment): Fragment {
    f.(fingerprint := "", seen := false)
  }

  function Load(s: State, key: string): Option<Fragment> {
    if s.attached && key in s.rows then
      Some(s.rows[key].(weight := if s.rows[key].weight == 0.0 then 1.0 else s.rows[key].weight))
    else None
  }

  // ---- the cache ----

  function Cached(s: State, key: string): Option<Fragment> {
    if key in s.fragments then Some(s.fragments[key]) else None
  }

  function OrElse(a: Option<Fragment>, b: Option<Fragment>): Option<Fragment> {
    if a.Some? then a else b
  }

  function ByFingerprint(s: State, fp: string): Option<Fragment> {
    if fp in s.fpIndex then Cached(s, s.fpIndex[fp]) else None
  }

  /** Memory by key, memory by fingerprint, store by key, store by fingerprint. */
  function Find(s: State, key: string, fp: string): Option<Fragment> {
    OrElse(OrElse(OrElse(Cached(s, key), ByFingerprint(s, fp)), Load(s, key)),
           if fp in s.fpIndex then Load(s, s.fpIndex[fp]) else None)
  }

  function Index(fpIndex: map<string, string>, fp: string, key: string): map<string, string> {
    if fp != "" then fpIndex[fp := key] else fpIndex
  }

  /** The fragment a unit counts towards, in the cache and with a fingerprint. */
  function Admit(s: State, u: Unit): (r: (State, string)) {
    match Find(s, u.key, u.fp)
    case None =>
      var f := Fragment(u.key, u.fp, 0, 0, 0, [0, 0, 0, 0, 0], 0, s.batchId + 1, 1.0, false);
      (s.(fragments := s.fragments[u.key := f], fpIndex := s.fpIndex[u.fp := u.key]), u.key)
    case Some(f) =>
      var s1 := if f.key in s.fragments then s
                else s.(fragments := s.fragments[f.key := f], fpIndex := Index(s.fpIndex, f.fingerprint, f.key));
      if f.fingerprint != "" then (s1, f.key)
      else
        (s1.(fragments := s1.fragments[f.key := f.(fingerprint := u.fp)], fpIndex := s1.fpIndex[u.fp := f.key]), f.key)
  }

  function Padded(h: seq<int>): (r: seq<int>)
    ensures |r| == 5
  {
    (h + [0, 0, 0, 0, 0])[..5]
  }

  function Counted(f: Fragment, u: Unit, firstInDoc: bool, bin: nat, batchId: int): Fragment
    requires bin < 5
  {
    var h := Padded(f.histogram);
    f.(docs := f.docs + if firstInDoc then 1 else 0, lines := f.lines + 1, chars := f.chars + u.length,
       histogram := h[bin := h[bin] + 1], lastSeen := batchId + 1, seen := true,
       weight := if f.weight + 0.02 < 1.0 then f.weight + 0.02 else 1.0)
  }

  function ObserveUnit(s: State, u: Unit, firstInDoc: bool, docLen: int): State {
    var (s1, key) := Admit(s, u);
    if key in s1.fragments then
      var f := Counted(s1.fragments[key], u, firstInDoc, PositionBin(u.start, docLen), s.batchId);
      s1.(fragments := s1.fragments[key := f])
    else s1
  }

  function KeysOf(units: seq<Unit>): set<string> {
    set u | u in units && Eligible(u) :: u.key
  }

  /** The first `n` units of the document counted. */
  function ObserveUnits(s: State, units: seq<Unit>, docLen: int): State {
    if units == [] then s
    else
      var front := units[..|units| - 1];
      var last := units[|units| - 1];
      var t := ObserveUnits(s, front, docLen);
      if Eligible(last) then ObserveUnit(t, last, last.key !in KeysOf(front), docLen) else t
  }

  function Observe(s: State, doc: Document): State {
    ObserveUnits(s.(docsSeen := s.docsSeen + 1), doc.units, if doc.charCount > 1 then doc.charCount else 1)
  }

  /** A lookup that pulls the row of `key` into the cache. */
  function Pull(s: State, key: string): State {
    if key in s.fragments || Load(s, key).None? then s
    else
      var f := Load(s, key).value;
      s.(fragments := s.fragments[key := f], fpIndex := Index(s.fpIndex, f.fingerprint, f.key))
  }

  function PullText(s: State, key: string, fp: string): State {
    if key in s.fragments || Load(s, key).Some? then Pull(s, key)
    else if fp in s.fpIndex && s.fpIndex[fp] != "" then Pull(s, s.fpIndex[fp])
    else s
  }

  // ---- end of batch and eviction ----

  function Aged(f: Fragment, decay: real): Fragment {
    if f.seen then f.(seen := false) else f.(weight := f.weight * decay)
  }

  function AgedAll(fragments: map<string, Fragment>, decay: real): map<string, Fragment> {
    map k | k in fragments :: Aged(fragments[k], decay)
  }

  function RowsOf(fragments: map<string, Fragment>): map<string, Fragment> {
    map k | k in fragments :: Row(fragments[k])
  }

  /** Every cached fragment is aged and written back. */
  function WriteBack(s: State, decay: real): State {
    var aged := AgedAll(s.fragments, decay);
    s.(batchId := s.batchId + 1, fragments := aged, rows := if s.attached then s.rows + RowsOf(aged) else s.rows)
  }

  function Evict(s: State, key: string): State
    requires key in s.fragments
  {
    var fp := s.fragments[key].fingerprint;
    s.(fragments := s.fragments - {key},
       fpIndex := if fp != "" && fp in s.fpIndex && s.fpIndex[fp] == key then s.fpIndex - {fp} else s.fpIndex)
  }

  /** Down the ranking, fragments not seen in this batch go until the cache is small enough. */
  function EvictRanked(s: State, ranked: seq<string>, target: int): State
    decreases |ranked|
  {
    if ranked == [] || |s.fragments| <= target then s
    else if ranked[0] !in s.fragments || s.fragments[ranked[0]].seen then EvictRanked(s, ranked[1..], target)
    else EvictRanked(Evict(s, ranked[0]), ranked[1..], target)
  }

  function Target(cap: nat): int {
    if cap * 9 / 10 > 1 then cap * 9 / 10 else 1
  }

  function Trim(s: State, ranked: seq<string>, cap: nat): State {
    if |s.fragments| <= cap then s else EvictRanked(s, ranked, Target(cap))
  }

  function EndBatch(s: State, decay: real, ranked: seq<string>, cap: nat): State {
    Trim(WriteBack(s, decay), ranked, cap)
  }

  // ---- runs ----

  /** What a client can do; a ranking lists the cached keys as the eviction would visit them. */
  datatype Op =
    | Observing(doc: Document)
    | Looking(key: string)
    | LookingText(textKey: string, fp: string)
    | Ending(decay: real, ranked: seq<string>, cap: nat)

  function Do(s: State, op: Op): State {
    match op
    case Observing(doc) => Observe(s, doc)
    case Looking(key) => Pull(s, key)
    case LookingText(key, fp) => PullText(s, key, fp)
    case Ending(decay, ranked, cap) => EndBatch(s, decay, ranked, cap)
  }

  function Run(s: State, ops: seq<Op>): State
    decreases |ops|
  {
    if ops == [] then s else Run(Do(s, ops[0]), ops[1..])
  }
}
