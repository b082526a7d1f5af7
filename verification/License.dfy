/** Licence regions: merging overlapping ones, and cutting the removable ones out of the text. */
module License {
  import opened Collections
  import opened Normalize
  import opened Paragraphs
  import opened Splice

  datatype Action = Remove | Preserve | Review

  datatype Region = Region(
    start: int, end: int, licenseType: string, confidence: real, kind: string, action: Action, reason: string)

  // ---- order ----

  /** By start, longer regions first. */
  predicate Before(a: Region, b: Region) {
    a.start < b.start || (a.start == b.start && a.end >= b.end)
  }

  predicate StartsBefore(a: Region, b: Region) {
    a.start <= b.start
  }

  ghost predicate InOrder(rs: seq<Region>) {
    forall i, j :: 0 <= i < j < |rs| ==> Before(rs[i], rs[j])
  }

  // ---- merging ----

  /** A later region replaces what is merged so far only with more confidence; otherwise it is
      dropped, and its span with it. */
  function Absorb(prev: Region, reg: Region): Region {
    if reg.confidence > prev.confidence then
      Region(if prev.start < reg.start then prev.start else reg.start,
             if prev.end > reg.end then prev.end else reg.end,
             if reg.licenseType != "Unknown" then reg.licenseType else prev.licenseType,
             reg.confidence, reg.kind, reg.action, reg.reason)
    else prev
  }

  function Fold(run: seq<Region>): Region
    requires run != []
  {
    if |run| == 1 then run[0] else Absorb(Fold(run[..|run| - 1]), run[|run| - 1])
  }

  /** Each region of a run starts inside what the run has merged to before it. */
  predicate Chained(run: seq<Region>) {
    run != [] && forall j :: 0 < j < |run| ==> run[j].start < Fold(run[..j]).end
  }

  predicate RunsApart(g: seq<Region>, h: seq<Region>) {
    g != [] && h != [] && h[0].start >= Fold(g).end
  }

  predicate Runs(runs: seq<seq<Region>>) {
    && (forall i :: 0 <= i < |runs| ==> runs[i] != [] && Chained(runs[i]))
    && (forall i :: 0 <= i < |runs| - 1 ==> RunsApart(runs[i], runs[i + 1]))
  }

  function Folds(runs: seq<seq<Region>>): (ms: seq<Region>)
    requires forall i :: 0 <= i < |runs| ==> runs[i] != []
    ensures |ms| == |runs|
  {
    seq(|runs|, i requires 0 <= i < |runs| => Fold(runs[i]))
  }

  lemma FoldMore(run: seq<Region>, reg: Region)
    requires run != []
    ensures Fold(run + [reg]) == Absorb(Fold(run), reg) && Fold([reg]) == reg
  {
    assert (run + [reg])[..|run|] == run;
  }

  lemma ChainedMore(run: seq<Region>, reg: Region)
    requires Chained(run) && reg.start < Fold(run).end
    ensures Chained(run + [reg])
  {
    hide Fold;
    var all := run + [reg];
    forall j | 0 < j < |all| ensures all[j].start < Fold(all[..j]).end {
      assert all[..j] == if j == |run| then run else run[..j];
    }
  }

  lemma RunsMore(runs: seq<seq<Region>>, run: seq<Region>)
    requires Runs(runs) && run != [] && Chained(run) && (runs == [] || RunsApart(runs[|runs| - 1], run))
    ensures Runs(runs + [run])
  {
    hide Chained, RunsApart, Fold;
    var all := runs + [run];
    forall i | 0 <= i < |all| - 1 ensures RunsApart(all[i], all[i + 1]) {
      assert all[i] == runs[i];
    }
  }

  lemma RunsLess(runs: seq<seq<Region>>, run: seq<Region>)
    requires Runs(runs + [run])
    ensures Runs(runs) && Chained(run) && run != [] && (runs == [] || RunsApart(runs[|runs| - 1], run))
  {
    var all := runs + [run];
    assert Chained(all[|runs|]);
    hide Chained, RunsApart;
    forall i | 0 <= i < |runs| ensures Chained(runs[i]) {
      assert all[i] == runs[i];
    }
    forall i | 0 <= i < |runs| - 1 ensures RunsApart(runs[i], runs[i + 1]) {
      assert RunsApart(all[i], all[i + 1]);
    }
    if runs != [] {
      assert RunsApart(all[|runs| - 1], all[|runs|]);
    }
  }

  /** A region joins the last run when it starts before the end of what that has merged to. */
  function RunsOf(regions: seq<Region>): (runs: seq<seq<Region>>)
    ensures forall i :: 0 <= i < |runs| ==> runs[i] != []
  {
    if regions == [] then []
    else
      var (runs, reg) := (RunsOf(regions[..|regions| - 1]), regions[|regions| - 1]);
      var n := |runs| - 1;
      if runs != [] && reg.start < Fold(runs[n]).end then runs[..n] + [runs[n] + [reg]] else runs + [[reg]]
  }

  lemma RunsInto(runs: seq<seq<Region>>, reg: Region)
    requires Runs(runs) && runs != [] && runs[|runs| - 1] != [] && reg.start < Fold(runs[|runs| - 1]).end
    ensures
      var n := |runs| - 1;
      Runs(runs[..n] + [runs[n] + [reg]]) && Flat(runs[..n] + [runs[n] + [reg]]) == Flat(runs) + [reg]
  {
    hide Chained, RunsApart, Fold, Flat, Runs;
    var n := |runs| - 1;
    var (closed, run) := (runs[..n], runs[n]);
    assert runs == closed + [run];
    RunsLess(closed, run);
    ChainedMore(run, reg);
    RunLonger(closed, run, reg);
    RunsMore(closed, run + [reg]);
    FlatMore(closed, run);
    FlatMore(closed, run + [reg]);
    assert Flat(closed) + run + [reg] == Flat(closed) + (run + [reg]);
  }

  lemma RunsNew(runs: seq<seq<Region>>, reg: Region)
    requires Runs(runs) && (runs == [] || (runs[|runs| - 1] != [] && reg.start >= Fold(runs[|runs| - 1]).end))
    ensures Runs(runs + [[reg]]) && Flat(runs + [[reg]]) == Flat(runs) + [reg]
  {
    assert Chained([reg]) && (runs != [] ==> RunsApart(runs[|runs| - 1], [reg]));
    hide Chained, RunsApart, Fold, Flat, Runs;
    RunsMore(runs, [reg]);
    FlatMore(runs, [reg]);
  }

  lemma {:induction false} RunsOfIs(regions: seq<Region>)
    ensures Runs(RunsOf(regions)) && Flat(RunsOf(regions)) == regions
  {
    hide Chained, RunsApart, Fold, Flat, Runs;
    if regions == [] {
      RunsNone();
    } else {
      var (front, reg) := (regions[..|regions| - 1], regions[|regions| - 1]);
      assert regions == front + [reg];
      RunsOfIs(front);
      var runs := RunsOf(front);
      if runs != [] && reg.start < Fold(runs[|runs| - 1]).end {
        RunsInto(runs, reg);
      } else {
        RunsNew(runs, reg);
      }
    }
  }

  lemma RunsNone()
    ensures Runs([]) && Flat<Region>([]) == []
  {
  }

  lemma RunLonger(closed: seq<seq<Region>>, run: seq<Region>, reg: Region)
    requires run != [] && (closed == [] || RunsApart(closed[|closed| - 1], run))
    ensures closed == [] || RunsApart(closed[|closed| - 1], run + [reg])
  {
    assert (run + [reg])[0] == run[0];
  }

  lemma FoldsMore(regions: seq<Region>, reg: Region)
    ensures
      var ms := Folds(RunsOf(regions));
      var n := |ms| - 1;
      Folds(RunsOf(regions + [reg])) ==
      if ms != [] && reg.start < ms[n].end then ms[n := Absorb(ms[n], reg)] else ms + [reg]
  {
    hide Fold, Absorb;
    var runs := RunsOf(regions);
    assert (regions + [reg])[..|regions|] == regions;
    OneFold(reg);
    if runs != [] {
      FoldMore(runs[|runs| - 1], reg);
      FoldsInto(runs, reg);
    }
    FoldsNew(runs, reg);
    hide Folds;
  }

  lemma OneFold(reg: Region)
    ensures Fold([reg]) == reg
  {
  }

  lemma FoldsInto(runs: seq<seq<Region>>, reg: Region)
    requires runs != [] && forall i :: 0 <= i < |runs| ==> runs[i] != []
    ensures
      var n := |runs| - 1;
      Folds(runs[..n] + [runs[n] + [reg]]) == Folds(runs)[n := Fold(runs[n] + [reg])] && Folds(runs)[n] == Fold(runs[n])
  {
    hide Fold;
  }

  lemma FoldsNew(runs: seq<seq<Region>>, reg: Region)
    requires forall i :: 0 <= i < |runs| ==> runs[i] != []
    ensures Folds(runs + [[reg]]) == Folds(runs) + [Fold([reg])]
  {
    hide Fold;
  }

  method AbsorbInto(prev: Region, reg: Region) returns (next: Region)
    ensures next == Absorb(prev, reg)
  {
    next := prev;
    if reg.confidence > prev.confidence {
      next := Region(
        if prev.start < reg.start then prev.start else reg.start,
        if prev.end > reg.end then prev.end else reg.end,
        if reg.licenseType != "Unknown" then reg.licenseType else prev.licenseType,
        if prev.confidence > reg.confidence then prev.confidence else reg.confidence,
        reg.kind,
        if reg.confidence >= prev.confidence then reg.action else prev.action,
        reg.reason);
    }
  }

  /** The merge loop of the source. */
  method MergeRegions(regions: seq<Region>) returns (merged: seq<Region>)
    ensures merged == Folds(RunsOf(regions))
  {
    merged := [];
    for i := 0 to |regions|
      invariant merged == Folds(RunsOf(regions[..i]))
    {
      hide RunsOf, Folds, Absorb;
      var reg := regions[i];
      assert regions[..i + 1] == regions[..i] + [reg];
      FoldsMore(regions[..i], reg);
      if merged != [] && reg.start < merged[|merged| - 1].end {
        var next := AbsorbInto(merged[|merged| - 1], reg);
        merged := merged[|merged| - 1 := next];
        continue;
      }
      merged := merged + [reg];
    }
    assert regions[..|regions|] == regions;
  }

  // ---- what a merged region is ----

  ghost predicate Proper(rs: seq<Region>) {
    forall i :: 0 <= i < |rs| ==> 0 <= rs[i].start <= rs[i].end
  }

  /** A region more confident than all before it in the run. */
  ghost predicate Leads(run: seq<Region>, k: int) {
    0 <= k < |run| && forall j :: 0 <= j < k ==> run[j].confidence < run[k].confidence
  }

  /** The first region of the highest confidence in the run gives the merged region its confidence,
      kind, action and reason. */
  lemma {:induction false} FoldIsFirstBest(run: seq<Region>) returns (k: nat)
    requires run != []
    ensures Leads(run, k) && forall j :: 0 <= j < |run| ==> run[j].confidence <= run[k].confidence
    ensures
      var m := Fold(run);
      && m.confidence == run[k].confidence && m.kind == run[k].kind && m.action == run[k].action
      && m.reason == run[k].reason
  {
    if |run| == 1 {
      k := 0;
    } else {
      var (front, last) := (run[..|run| - 1], run[|run| - 1]);
      k := FoldIsFirstBest(front);
      if last.confidence > Fold(front).confidence {
        k := |run| - 1;
      }
    }
  }

  /** Its type is that of the last leading region with a known one, or of the first region. */
  lemma {:induction false} FoldType(run: seq<Region>) returns (k: nat)
    requires run != []
    ensures Leads(run, k) && Fold(run).licenseType == run[k].licenseType
    ensures k == 0 || run[k].licenseType != "Unknown"
    ensures forall j :: Leads(run, j) && run[j].licenseType != "Unknown" ==> j <= k
  {
    if |run| == 1 {
      k := 0;
    } else {
      var (front, last) := (run[..|run| - 1], run[|run| - 1]);
      k := FoldType(front);
      var best := FoldIsFirstBest(front);
      assert forall j :: j < |front| && Leads(run, j) ==> Leads(front, j);
      if last.confidence > Fold(front).confidence && last.licenseType != "Unknown" {
        k := |run| - 1;
      }
    }
  }

  /** A merged region starts where its run starts and ends with the furthest of its leading
      regions. */
  lemma {:induction false} FoldSpan(run: seq<Region>)
    requires run != [] && InOrder(run)
    ensures Fold(run).start == run[0].start
    ensures forall k :: Leads(run, k) ==> run[k].end <= Fold(run).end
    ensures exists k :: Leads(run, k) && run[k].end == Fold(run).end
  {
    if |run| == 1 {
      assert Leads(run, 0);
    } else {
      var (front, last) := (run[..|run| - 1], run[|run| - 1]);
      assert run == front + [last];
      FoldSpan(front);
      LeadsMore(front, last);
      var k :| Leads(front, k) && front[k].end == Fold(front).end;
      var b := FoldIsFirstBest(front);
      assert Before(run[0], last);
      assert Leads(run, k);
      if last.confidence > Fold(front).confidence {
        assert Leads(run, |front|);
      } else {
        assert !Leads(run, |front|);
      }
      hide InOrder, Before;
    }
  }

  lemma LeadsMore(front: seq<Region>, last: Region)
    ensures forall k :: 0 <= k < |front| ==> (Leads(front + [last], k) <==> Leads(front, k))
    ensures front != [] ==>
      (Leads(front + [last], |front|) <==> forall j :: 0 <= j < |front| ==> front[j].confidence < last.confidence)
  {
    var all := front + [last];
    forall k | 0 <= k < |front| ensures Leads(all, k) <==> Leads(front, k) {
      assert all[k] == front[k];
      assert forall j :: 0 <= j < k ==> all[j] == front[j];
    }
    assert all[|front|] == last;
    assert forall j :: 0 <= j < |front| ==> all[j] == front[j];
  }

  ghost predicate Reaches(run: seq<Region>, end: int) {
    forall j :: 0 <= j < |run| ==> run[j].end <= end
  }

  /** Some leading region reaches at least to `end`. */
  ghost predicate LedTo(run: seq<Region>, end: int) {
    exists k :: Leads(run, k) && end <= run[k].end
  }

  /** A merged region reaches as far as every region folded into it exactly when each of them is
      matched by a leading one. */
  lemma FoldCoversIff(run: seq<Region>)
    requires run != [] && InOrder(run)
    ensures Reaches(run, Fold(run).end) <==> forall j :: 0 <= j < |run| ==> LedTo(run, run[j].end)
  {
    hide InOrder, Fold, Leads, Reaches, LedTo;
    FoldSpan(run);
    ReachIff(run, Fold(run).end);
  }

  lemma ReachIff(run: seq<Region>, end: int)
    requires forall k :: Leads(run, k) ==> run[k].end <= end
    requires exists k :: Leads(run, k) && run[k].end == end
    ensures Reaches(run, end) <==> forall j :: 0 <= j < |run| ==> LedTo(run, run[j].end)
  {
    var k :| Leads(run, k) && run[k].end == end;
    assert forall j :: 0 <= j < |run| ==> (LedTo(run, run[j].end) <==> run[j].end <= end);
  }

  /** Two overlapping removable regions of which the second, less sure one, reaches further: what it
      adds is lost. */
  lemma TailLost()
    ensures
      var (a, b) := (Region(0, 10, "MIT", 0.9, "prose", Remove, ""), Region(5, 20, "MIT", 0.8, "prose", Remove, ""));
      Chained([a, b]) && Fold([a, b]) == a && b.end > Fold([a, b]).end
  {
    var (a, b) := (Region(0, 10, "MIT", 0.9, "prose", Remove, ""), Region(5, 20, "MIT", 0.8, "prose", Remove, ""));
    assert [a, b][..1] == [a];
    FoldMore([a], b);
    assert [a] + [b] == [a, b];
  }

  function Spans(rs: seq<Region>): (ss: seq<Span>)
    ensures |ss| == |rs|
  {
    seq(|rs|, i requires 0 <= i < |rs| => Span(rs[i].start, rs[i].end))
  }

  lemma {:induction false} RunWithin(runs: seq<seq<Region>>, i: nat)
    requires i < |runs| && InOrder(Flat(runs)) && Proper(Flat(runs))
    ensures InOrder(runs[i]) && Proper(runs[i])
  {
    var (front, last) := (runs[..|runs| - 1], runs[|runs| - 1]);
    var all := Flat(runs);
    assert all == Flat(front) + last;
    if i < |runs| - 1 {
      assert forall j :: 0 <= j < |Flat(front)| ==> all[j] == Flat(front)[j];
      RunWithin(front, i);
    } else {
      assert forall j :: 0 <= j < |last| ==> all[|Flat(front)| + j] == last[j];
    }
    hide Before;
  }

  lemma MergedStep(runs: seq<seq<Region>>, i: nat)
    requires Runs(runs) && InOrder(Flat(runs)) && Proper(Flat(runs)) && i < |runs|
    ensures 0 <= Fold(runs[i]).start <= Fold(runs[i]).end
    ensures i + 1 < |runs| ==> Fold(runs[i]).end <= Fold(runs[i + 1]).start
  {
    RunWithin(runs, i);
    assert Chained(runs[i]);
    FoldSpan(runs[i]);
    assert Leads(runs[i], 0);
    if i + 1 < |runs| {
      RunWithin(runs, i + 1);
      assert RunsApart(runs[i], runs[i + 1]);
      FoldSpan(runs[i + 1]);
    }
    hide InOrder, Fold, Flat;
  }

  lemma {:induction false} Chain(rs: seq<Span>, i: nat, j: nat)
    requires i < j < |rs|
    requires forall k :: 0 <= k < |rs| ==> rs[k].start <= rs[k].end
    requires forall k, l :: 0 <= k && l == k + 1 && l < |rs| ==> rs[k].end <= rs[l].start
    ensures rs[i].end <= rs[j].start
    decreases j - i
  {
    if i + 1 < j {
      Chain(rs, i + 1, j);
    }
  }

  /** Merged regions are ascending and pairwise disjoint. */
  lemma MergedOrdered(runs: seq<seq<Region>>)
    requires Runs(runs) && InOrder(Flat(runs)) && Proper(Flat(runs))
    ensures Ordered(Spans(Folds(runs)))
  {
    var ss := Spans(Folds(runs));
    forall k | 0 <= k < |ss| ensures 0 <= ss[k].start <= ss[k].end {
      MergedStep(runs, k);
    }
    forall k, l | 0 <= k && l == k + 1 && l < |ss| ensures ss[k].end <= ss[l].start {
      MergedStep(runs, k);
    }
    hide InOrder, Proper, Runs, Fold, Flat, Spans;
    forall i, j | 0 <= i < j < |ss| ensures ss[i].end <= ss[j].start {
      Chain(ss, i, j);
    }
  }

  function MergedOf(regions: seq<Region>): seq<Region> {
    Folds(RunsOf(SortedOf(Before, regions)))
  }

  /** The merged regions fold runs of the sorted regions, and are ascending and pairwise disjoint. */
  lemma MergedIs(regions: seq<Region>)
    requires Proper(regions)
    ensures
      var sorted := SortedOf(Before, regions);
      && multiset(sorted) == multiset(regions)
      && (forall i, j :: 0 <= i < j < |sorted| ==>
           || sorted[i].start < sorted[j].start
           || (sorted[i].start == sorted[j].start && sorted[i].end >= sorted[j].end))
      && Runs(RunsOf(sorted)) && Flat(RunsOf(sorted)) == sorted
      && |MergedOf(regions)| == |RunsOf(sorted)|
      && (forall i :: 0 <= i < |RunsOf(sorted)| ==> MergedOf(regions)[i] == Fold(RunsOf(sorted)[i]))
      && Ordered(Spans(MergedOf(regions)))
  {
    var sorted := SortedOf(Before, regions);
    SortedOfIs(Before, regions);
    assert InOrder(sorted);
    RunsOfIs(sorted);
    ProperStays(regions, sorted);
    MergedOrdered(RunsOf(sorted));
  }

  /** The tail of detection: sort, then merge. */
  method SortAndMerge(regions: seq<Region>) returns (merged: seq<Region>)
    ensures merged == MergedOf(regions)
  {
    var sorted := SortBy(Before, regions);
    merged := MergeRegions(sorted);
  }

  // ---- removal ----

  /** The removed regions are removable and disjoint, and what was passed over although removable
      starts inside one of them. */
  ghost predicate Taken(rs: seq<Region>, removed: seq<Region>) {
    && Ordered(Spans(removed)) && EndOf(Spans(removed)) >= 0
    && (forall i :: 0 <= i < |removed| ==> removed[i] in rs && removed[i].action == Remove)
    && (forall i :: 0 <= i < |rs| && rs[i].action == Remove ==>
      rs[i] in removed || Covered(Spans(removed), rs[i].start))
  }

  lemma TakenMore(rs: seq<Region>, removed: seq<Region>, reg: Region)
    requires Taken(rs, removed) && reg.action == Remove && EndOf(Spans(removed)) <= reg.start <= reg.end
    ensures Taken(rs + [reg], removed + [reg])
  {
    var s := Span(reg.start, reg.end);
    assert Spans(removed + [reg]) == Spans(removed) + [s];
    OrderedMore(Spans(removed), s);
    hide Ordered, Covered;
    assert (removed + [reg])[|removed|] == reg;
    forall x | x in removed ensures x in removed + [reg] {
    }
  }

  lemma TakenLess(rs: seq<Region>, removed: seq<Region>, reg: Region)
    requires Taken(rs, removed) && (forall i :: 0 <= i < |rs| ==> rs[i].start <= reg.start)
    requires reg.action == Remove ==> 0 <= reg.start < EndOf(Spans(removed))
    ensures Taken(rs + [reg], removed)
  {
    if reg.action == Remove {
      var n := |removed| - 1;
      assert removed[n] in rs;
      assert Spans(removed)[n].start <= reg.start < Spans(removed)[n].end;
      assert Covered(Spans(removed), reg.start);
    }
    hide Ordered, EndOf, Covered;
  }

  /** The regions removed: those not kept back by their action or by an earlier removed one. */
  function TakenOf(rs: seq<Region>): seq<Region> {
    if rs == [] then []
    else
      var (removed, reg) := (TakenOf(rs[..|rs| - 1]), rs[|rs| - 1]);
      if reg.action == Remove && EndOf(Spans(removed)) <= reg.start then removed + [reg] else removed
  }

  lemma {:induction false} TakenOfIs(rs: seq<Region>)
    requires Proper(rs) && SortedBy(StartsBefore, rs)
    ensures Taken(rs, TakenOf(rs))
  {
    if rs == [] {
      assert Spans([]) == [];
    } else {
      var (front, reg) := (rs[..|rs| - 1], rs[|rs| - 1]);
      assert rs == front + [reg];
      TakenOfIs(front);
      assert forall i :: 0 <= i < |front| ==> StartsBefore(rs[i], reg);
      if reg.action == Remove && EndOf(Spans(TakenOf(front))) <= reg.start {
        TakenMore(front, TakenOf(front), reg);
      } else {
        TakenLess(front, TakenOf(front), reg);
      }
    }
    hide Taken, Ordered, EndOf;
  }

  lemma TakenOfMore(rs: seq<Region>, reg: Region)
    ensures TakenOf(rs + [reg]) ==
            if reg.action == Remove && EndOf(Spans(TakenOf(rs))) <= reg.start then TakenOf(rs) + [reg] else TakenOf(rs)
  {
    assert (rs + [reg])[..|rs|] == rs;
  }

  /** A removable region is passed over exactly when it starts inside a region removed before it. */
  lemma PassedOverIff(rs: seq<Region>, i: nat)
    requires Proper(rs) && SortedBy(StartsBefore, rs) && i < |rs| && rs[i].action == Remove
    ensures
      var before := TakenOf(rs[..i]);
      TakenOf(rs[..i + 1]) == if Covered(Spans(before), rs[i].start) then before else before + [rs[i]]
  {
    var (front, reg) := (rs[..i], rs[i]);
    var before := TakenOf(front);
    assert rs[..i + 1] == front + [reg];
    TakenOfMore(front, reg);
    TakenOfIs(front);
    if EndOf(Spans(before)) <= reg.start {
      BeyondEnd(Spans(before));
    } else {
      var n := |before| - 1;
      assert before[n] in front && Spans(before)[n] == Span(before[n].start, before[n].end);
      var j :| 0 <= j < i && rs[j] == before[n];
      assert StartsBefore(rs[j], reg);
    }
    hide Taken, TakenOf;
  }

  /** The loop of the removal: what is copied so far is what the removed regions leave. */
  ghost predicate CopiedTo(text: string, rs: seq<Region>, removed: seq<Region>, parts: string, pos: int) {
    && Taken(rs, removed) && removed == TakenOf(rs) && pos == EndOf(Spans(removed)) >= 0
    && parts == Kept(text, Spans(removed), Clamp(text, pos))
  }

  /** The region starts no earlier than those before it, and is proper. */
  ghost predicate StartsLast(rs: seq<Region>, reg: Region) {
    0 <= reg.start <= reg.end && forall i :: 0 <= i < |rs| ==> rs[i].start <= reg.start
  }

  lemma StartsLastAt(order: seq<Region>, i: nat)
    requires Proper(order) && SortedBy(StartsBefore, order) && i < |order|
    ensures StartsLast(order[..i], order[i]) && 0 <= order[i].start <= order[i].end
  {
    assert forall k :: 0 <= k < i ==> StartsBefore(order[k], order[i]);
  }

  lemma PassOver(text: string, rs: seq<Region>, removed: seq<Region>, parts: string, pos: int, reg: Region)
    requires CopiedTo(text, rs, removed, parts, pos) && 0 <= reg.start
    requires reg.action == Preserve || reg.action == Review || reg.start < pos
    requires StartsLast(rs, reg)
    ensures CopiedTo(text, rs + [reg], removed, parts, pos)
  {
    TakenLess(rs, removed, reg);
    TakenOfMore(rs, reg);
    hide Taken, Kept, TakenOf;
  }

  lemma CutOut(text: string, rs: seq<Region>, removed: seq<Region>, parts: string, pos: int, reg: Region)
    requires CopiedTo(text, rs, removed, parts, pos) && reg.action == Remove && pos <= reg.start <= reg.end
    ensures pos >= 0 && 0 <= Clamp(text, pos) <= Clamp(text, reg.start)
    ensures CopiedTo(text, rs + [reg], removed + [reg],
                     parts + text[Clamp(text, pos)..Clamp(text, reg.start)], reg.end)
  {
    TakenIs(rs, removed);
    TakenMore(rs, removed, reg);
    TakenOfMore(rs, reg);
    CutText(text, removed, reg);
    hide Taken, Kept, Ordered, TakenOf, Spans;
  }

  lemma CutText(text: string, removed: seq<Region>, reg: Region)
    requires Ordered(Spans(removed)) && 0 <= EndOf(Spans(removed)) <= reg.start <= reg.end
    ensures EndOf(Spans(removed + [reg])) == reg.end
    ensures
      var (a, b) := (Clamp(text, EndOf(Spans(removed))), Clamp(text, reg.start));
      a <= b && Kept(text, Spans(removed + [reg]), Clamp(text, reg.end)) == Kept(text, Spans(removed), a) + text[a..b]
  {
    hide Kept, Ordered;
    assert Spans(removed + [reg]) == Spans(removed) + [Span(reg.start, reg.end)];
    KeptStep(text, Spans(removed), Span(reg.start, reg.end));
  }

  lemma CopyRest(text: string, rs: seq<Region>, removed: seq<Region>, parts: string, pos: int)
    requires CopiedTo(text, rs, removed, parts, pos)
    ensures pos >= 0 && removed == TakenOf(rs) && parts + text[Clamp(text, pos)..] == Kept(text, Spans(removed), |text|)
  {
    TakenIs(rs, removed);
    KeptEnd(text, Spans(removed));
    hide Taken, Kept;
  }

  lemma CopyNothing(text: string)
    ensures CopiedTo(text, [], [], "", 0)
  {
    assert Spans([]) == [];
  }

  /** Cutting out the removable regions. Before tidying, what is left is exactly the text outside the
      regions removed. */
  method ApplyRemovals(u: Unicode, text: string, regions: seq<Region>) returns (result: string, removed: seq<Region>)
    requires Proper(regions)
    ensures removed == TakenOf(SortedOf(StartsBefore, regions))
    ensures result == Tidy(u, Kept(text, Spans(removed), |text|))
  {
    var order := SortBy(StartsBefore, regions);
    SortedOfIs(StartsBefore, regions);
    ProperStays(regions, order);
    var parts;
    parts, removed := CopyOutside(text, order);
    result := Tidy(u, parts);
  }

  method CopyOutside(text: string, order: seq<Region>) returns (parts: string, removed: seq<Region>)
    requires Proper(order) && SortedBy(StartsBefore, order)
    ensures removed == TakenOf(order) && parts == Kept(text, Spans(removed), |text|)
  {
    hide Kept, CopiedTo, TakenOf, StartsLast;
    parts, removed := "", [];
    var pos := 0;
    CopyNothing(text);
    for i := 0 to |order|
      invariant CopiedTo(text, order[..i], removed, parts, pos)
    {
      var reg := order[i];
      assert order[..i + 1] == order[..i] + [reg];
      StartsLastAt(order, i);
      hide SortedBy, Proper;
      if reg.action == Preserve {
        PassOver(text, order[..i], removed, parts, pos, reg);
        continue;
      }
      if reg.action == Review {
        PassOver(text, order[..i], removed, parts, pos, reg);
        continue;
      }
      if reg.start < pos {
        PassOver(text, order[..i], removed, parts, pos, reg);
        continue;
      }
      CutOut(text, order[..i], removed, parts, pos, reg);
      parts := parts + text[Clamp(text, pos)..Clamp(text, reg.start)];
      removed := removed + [reg];
      pos := reg.end;
    }
    assert order[..|order|] == order;
    CopyRest(text, order, removed, parts, pos);
    parts := parts + text[Clamp(text, pos)..];
  }

  lemma ProperStays(rs: seq<Region>, order: seq<Region>)
    requires Proper(rs) && multiset(order) == multiset(rs)
    ensures Proper(order)
  {
    forall i | 0 <= i < |order| ensures 0 <= order[i].start <= order[i].end {
      assert order[i] in multiset(order);
      assert order[i] in multiset(rs);
    }
  }

  lemma TakenIs(rs: seq<Region>, removed: seq<Region>)
    requires Taken(rs, removed)
    ensures Ordered(Spans(removed)) && EndOf(Spans(removed)) >= 0
  {
  }

  function Removable(rs: seq<Region>): seq<Region> {
    if rs == [] then []
    else Removable(rs[..|rs| - 1]) + if rs[|rs| - 1].action == Remove then [rs[|rs| - 1]] else []
  }

  ghost predicate InRemovable(rs: seq<Region>, k: int) {
    exists i :: 0 <= i < |rs| && rs[i].action == Remove && rs[i].start <= k < rs[i].end
  }

  lemma InRemovableMore(rs: seq<Region>, r: Region, k: int)
    ensures InRemovable(rs + [r], k) <==> InRemovable(rs, k) || (r.action == Remove && r.start <= k < r.end)
  {
    var all := rs + [r];
    assert all[|rs|] == r;
    if InRemovable(rs, k) {
      var i :| 0 <= i < |rs| && rs[i].action == Remove && rs[i].start <= k < rs[i].end;
      assert all[i] == rs[i];
    }
  }

  lemma {:induction false} CoveredByRemovable(rs: seq<Region>, k: int)
    ensures Covered(Spans(Removable(rs)), k) <==> InRemovable(rs, k)
  {
    if rs != [] {
      var (front, last) := (rs[..|rs| - 1], rs[|rs| - 1]);
      assert rs == front + [last];
      CoveredByRemovable(front, k);
      assert Spans(Removable(front) + [last]) == Spans(Removable(front)) + [Span(last.start, last.end)];
      assert Removable(front) + [] == Removable(front);
      CoveredMore(Spans(Removable(front)), Span(last.start, last.end), k);
      InRemovableMore(front, last, k);
      hide Covered, InRemovable;
    }
  }

  /** A removable region that is not empty is removed when no other region overlaps it. */
  lemma DisjointTaken(rs: seq<Region>, removed: seq<Region>, i: nat)
    requires Taken(rs, removed) && Ordered(Spans(rs)) && i < |rs| && rs[i].action == Remove && rs[i].start < rs[i].end
    ensures rs[i] in removed
  {
    if rs[i] !in removed {
      var k :| 0 <= k < |removed| && Spans(removed)[k].start <= rs[i].start < Spans(removed)[k].end;
      var j :| 0 <= j < |rs| && rs[j] == removed[k];
      OneOwner(rs, i, j);
    }
  }

  lemma OneOwner(rs: seq<Region>, i: nat, j: nat)
    requires Ordered(Spans(rs)) && i < |rs| && j < |rs|
    requires rs[i].start < rs[i].end && rs[j].start <= rs[i].start < rs[j].end
    ensures i == j
  {
    assert Spans(rs)[i] == Span(rs[i].start, rs[i].end) && Spans(rs)[j] == Span(rs[j].start, rs[j].end);
  }

  /** Main result: on disjoint regions, such as merged ones, removal keeps exactly the characters
      outside the removable regions, in order. */
  lemma RemovalExact(text: string, rs: seq<Region>, removed: seq<Region>)
    requires Taken(rs, removed) && Ordered(Spans(rs))
    ensures Kept(text, Spans(removed), |text|) == Kept(text, Spans(Removable(rs)), |text|)
  {
    forall k ensures Covered(Spans(removed), k) <==> Covered(Spans(Removable(rs)), k) {
      CoveredByRemovable(rs, k);
      if Covered(Spans(removed), k) {
        var j :| 0 <= j < |removed| && removed[j].start <= k < removed[j].end;
        assert removed[j] in rs;
      }
      if InRemovable(rs, k) {
        var i :| 0 <= i < |rs| && rs[i].action == Remove && rs[i].start <= k < rs[i].end;
        DisjointTaken(rs, removed, i);
        var j :| 0 <= j < |removed| && removed[j] == rs[i];
        assert Spans(removed)[j] == Span(rs[i].start, rs[i].end);
      }
    }
    hide Covered, Taken;
    KeptSame(text, Spans(removed), Spans(Removable(rs)), |text|);
  }

  lemma OrderedStarts(rs: seq<Region>)
    requires Ordered(Spans(rs))
    ensures SortedBy(StartsBefore, rs) && Proper(rs)
  {
    assert forall i :: 0 <= i < |rs| ==> Spans(rs)[i] == Span(rs[i].start, rs[i].end);
  }

  /** Merging and removal together: exactly the text outside the removable merged regions is left,
      and tidying takes white space only. */
  method CutMerged(u: Unicode, text: string, regions: seq<Region>) returns (result: string)
    requires Proper(regions) && u.isSpace('\n')
    ensures result == Tidy(u, Kept(text, Spans(Removable(MergedOf(regions))), |text|))
    ensures Ink(u, result) == Ink(u, Kept(text, Spans(Removable(MergedOf(regions))), |text|))
  {
    hide Kept, Taken, Ink, Tidy, Ordered, MergedOf, TakenOf, Removable;
    var merged := SortAndMerge(regions);
    MergedIs(regions);
    OrderedStarts(merged);
    SortedOfIs(StartsBefore, merged);
    var removed;
    result, removed := ApplyRemovals(u, text, merged);
    TakenOfIs(merged);
    RemovalExact(text, merged, removed);
    TidyInk(u, Kept(text, Spans(removed), |text|));
  }
}
