/** What the embedding filter counts and records, and the threshold it takes from that. */
module EmbedRecords {
  import opened Wrappers
  import opened Collections
  import opened EmbedSpec
  import opened EmbedProofs
  import opened EmbedFiling

  // ---- the threshold ----

  /** Fixed at the upper limit, or halfway between the limits while there are few samples, or halfway
      between a low percentile of the matches and a high one of the others, within the limits. */
  lemma ThresholdIs(c: Config, matches: seq<real>, nonMatches: seq<real>)
    ensures
      var t := ThresholdOf(c, matches, nonMatches);
      if !c.adaptive then t == c.maxThreshold
      else if |matches| < 8 || |nonMatches| < 8 then t - c.minThreshold == c.maxThreshold - t
      else
        var (low, high) := (c.percentile(matches, 30), c.percentile(nonMatches, 95));
        && c.minThreshold <= t && (c.minThreshold < t ==> t <= c.maxThreshold && t + t <= low + high)
        && (t < c.maxThreshold ==> low + high <= t + t)
  {
  }

  /** The greatest similarity seen among the comparable candidates, but no less than minus one; zero
      when there are none. */
  lemma MaxSimIs(c: Config, v: Vector, cands: seq<Pair>)
    ensures
      var s := MaxSim(c, v, cands);
      if forall p :: p in cands ==> p.1.vector.None? then s == 0.0
      else
        && s >= -1.0 && (forall p :: p in cands && p.1.vector.Some? ==> Sim(c, v, p) <= s)
        && (s == -1.0 || exists p :: p in cands && p.1.vector.Some? && Sim(c, v, p) == s)
  {
    BestIsLeftmost(c, v, cands);
    var r := Best(c, v, cands);
    if r.Some? {
      assert cands[r.value] in cands;
    }
  }

  // ---- the reservoirs ----

  lemma LastOnce(xs: seq<real>, x: real, n: nat)
    ensures Last(Last(xs, n) + [x], n) == Last(xs + [x], n)
  {
  }

  /** The similarity at which a document was rejected, if it was. */
  ghost function Rejected(c: Config, s: Dedup, e: Event): seq<real> {
    if Step(c, s, e).1 then []
    else [FindMatch(c, e.embedding.v, Candidates(c, s.index, e.meta), Threshold(c, s)).value.similarity]
  }

  /** The greatest similarity of a document that was embedded and met no match. */
  ghost function Unmatched(c: Config, s: Dedup, e: Event): seq<real> {
    if s.disabled || !e.embedding.Vec? then []
    else
      var cands := Candidates(c, s.index, e.meta);
      if exists p :: Reaches(c, s, e, p) then [] else [MaxSim(c, e.embedding.v, cands)]
  }

  ghost function Rejections(c: Config, s: Dedup, es: seq<Event>): seq<real>
    decreases |es|
  {
    if es == [] then [] else Rejected(c, s, es[0]) + Rejections(c, Step(c, s, es[0]).0, es[1..])
  }

  ghost function NonMatches(c: Config, s: Dedup, es: seq<Event>): seq<real>
    decreases |es|
  {
    if es == [] then [] else Unmatched(c, s, es[0]) + NonMatches(c, Step(c, s, es[0]).0, es[1..])
  }

  /** Everything recorded so far: the last 2048 of each kind, and as many duplicates as rejections, as
      many kept as filed. */
  ghost predicate Recorded(s: Dedup, rejections: seq<real>, others: seq<real>, filed: int) {
    && s.matches == Last(rejections, RESERVOIR) && s.nonMatches == Last(others, RESERVOIR)
    && s.duplicates == |rejections| && s.kept == filed
  }

  lemma StepRecords(c: Config, s: Dedup, e: Event, rejections: seq<real>, others: seq<real>, filed: int)
    requires Recorded(s, rejections, others, filed)
    ensures Recorded(Step(c, s, e).0, rejections + Rejected(c, s, e), others + Unmatched(c, s, e),
                     filed + |FiledBy(c, s, e)|)
  {
    hide Candidates, Threshold, Insert, Replace, BlockKey, MaxSim, Best, FindMatch;
    assert rejections + [] == rejections && others + [] == others;
    if !s.disabled && e.embedding.Vec? {
      MatchIff(c, s, e);
      match FindMatch(c, e.embedding.v, Candidates(c, s.index, e.meta), Threshold(c, s))
      case None => LastOnce(others, MaxSim(c, e.embedding.v, Candidates(c, s.index, e.meta)), RESERVOIR);
      case Some(hit) => LastOnce(rejections, hit.similarity, RESERVOIR);
    }
    hide Last, Reaches;
  }

  lemma MatchIff(c: Config, s: Dedup, e: Event)
    requires e.embedding.Vec?
    ensures FindMatch(c, e.embedding.v, Candidates(c, s.index, e.meta), Threshold(c, s)).Some? <==>
            exists p :: Reaches(c, s, e, p)
  {
    var cands := Candidates(c, s.index, e.meta);
    FindMatchIs(c, e.embedding.v, cands, Threshold(c, s));
    if p :| p in cands && p.1.vector.Some? && Sim(c, e.embedding.v, p) > -1.0
            && Sim(c, e.embedding.v, p) >= Threshold(c, s) {
      assert Reaches(c, s, e, p);
    }
    hide FindMatch, Candidates, Threshold;
  }

  /** Main result: over every run the threshold is taken from the last 2048 similarities at which a
      document was rejected and the last 2048 at which one met no match, and the counters say how many
      were rejected and how many were stored. */
  lemma {:induction false} RunRecords(
      c: Config, s: Dedup, es: seq<Event>, rejections: seq<real>, others: seq<real>, filed: int)
    requires Recorded(s, rejections, others, filed)
    ensures Recorded(Run(c, s, es), rejections + Rejections(c, s, es), others + NonMatches(c, s, es),
                     filed + |Filings(c, s, es)|)
    decreases |es|
  {
    hide Recorded, Step, Rejected, Unmatched, FiledBy;
    if es == [] {
      assert rejections + [] == rejections && others + [] == others;
    } else {
      var t := Step(c, s, es[0]).0;
      var (r, o) := (Rejected(c, s, es[0]), Unmatched(c, s, es[0]));
      StepRecords(c, s, es[0], rejections, others, filed);
      RunRecords(c, t, es[1..], rejections + r, others + o, filed + |FiledBy(c, s, es[0])|);
      assert rejections + r + Rejections(c, t, es[1..]) == rejections + (r + Rejections(c, t, es[1..]));
      assert others + o + NonMatches(c, t, es[1..]) == others + (o + NonMatches(c, t, es[1..]));
    }
  }

  lemma RunReservoirs(c: Config, es: seq<Event>)
    ensures
      var s := Run(c, INIT, es);
      s.matches == Last(Rejections(c, INIT, es), 2048) && s.nonMatches == Last(NonMatches(c, INIT, es), 2048)
  {
    assert Recorded(INIT, [], [], 0);
    hide Rejections, NonMatches, Run, Last;
    RunRecords(c, INIT, es, [], [], 0);
    assert [] + Rejections(c, INIT, es) == Rejections(c, INIT, es);
    assert [] + NonMatches(c, INIT, es) == NonMatches(c, INIT, es);
  }

  /** So the threshold in force after any run comes from these alone. */
  lemma RunThreshold(c: Config, es: seq<Event>)
    ensures
      var t := Threshold(c, Run(c, INIT, es));
      var r := Last(Rejections(c, INIT, es), 2048);
      var o := Last(NonMatches(c, INIT, es), 2048);
      if !c.adaptive then t == c.maxThreshold
      else if |r| < 8 || |o| < 8 then t - c.minThreshold == c.maxThreshold - t
      else
        var (low, high) := (c.percentile(r, 30), c.percentile(o, 95));
        && c.minThreshold <= t && (c.minThreshold < t ==> t <= c.maxThreshold && t + t <= low + high)
        && (t < c.maxThreshold ==> low + high <= t + t)
  {
    hide ThresholdOf, Rejections, NonMatches, Run, Last;
    RunReservoirs(c, es);
    ThresholdIs(c, Run(c, INIT, es).matches, Run(c, INIT, es).nonMatches);
  }

  // ---- ranks and failures ----

  /** What each score is worth: quality most, then utility; what is toxic or an artifact counts
      against. */
  lemma RankGap(a: Meta, b: Meta)
    ensures
      a.Rank() - b.Rank() ==
        0.45 * (a.quality - b.quality) + 0.002 * (a.knowledge - b.knowledge) + 2.0 * (a.utility - b.utility)
        - 0.1 * (a.toxicity - b.toxicity) - 0.0005 * (a.artifact - b.artifact)
  {
  }

  /** Once the embedding raised, every document is kept and nothing changes any more. */
  lemma {:induction false} DisabledForever(c: Config, s: Dedup, es: seq<Event>)
    requires s.disabled
    ensures Run(c, s, es) == s && forall e :: Step(c, s, e) == (s, true)
    decreases |es|
  {
    if es != [] {
      DisabledForever(c, s, es[1..]);
    }
  }

  /** A run is disabled exactly when some embedding was asked for and raised. */
  lemma {:induction false} DisabledIff(c: Config, s: Dedup, es: seq<Event>)
    requires !s.disabled
    ensures Run(c, s, es).disabled <==> exists i :: 0 <= i < |es| && es[i].embedding.Raised?
    decreases |es|
  {
    if es != [] {
      var t := Step(c, s, es[0]).0;
      TurnsOff(c, s, es[0]);
      if t.disabled {
        DisabledForever(c, t, es[1..]);
      } else {
        DisabledIff(c, t, es[1..]);
        assert forall i :: 0 <= i < |es[1..]| ==> es[1..][i] == es[i + 1];
      }
    }
    hide Step;
  }

  lemma TurnsOff(c: Config, s: Dedup, e: Event)
    requires !s.disabled
    ensures Step(c, s, e).0.disabled <==> e.embedding.Raised?
  {
    hide Candidates, Threshold, Insert, Replace, FindMatch, MaxSim;
  }
}
