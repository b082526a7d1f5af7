/** Rebuilding the dedup layers from the output file when a run resumes. */
module Replay {
  import opened Wrappers
  import opened ExactDedup
  import opened Semantic
  import opened SemanticResume

  /** One line of the output file. */
  datatype Row = Blank | Malformed | NotText | Text(text: string)

  /** The texts the file yields: lines that parse and hold a text that is not blank. */
  function Texts(isBlank: string -> bool, rows: seq<Row>): seq<string> {
    if rows == [] then []
    else
      var rest := Texts(isBlank, rows[..|rows| - 1]);
      var last := rows[|rows| - 1];
      if last.Text? && !isBlank(last.text) then rest + [last.text] else rest
  }

  method IterTexts(isBlank: string -> bool, rows: seq<Row>) returns (texts: seq<string>)
    ensures texts == Texts(isBlank, rows)
  {
    texts := [];
    for i := 0 to |rows|
      invariant texts == Texts(isBlank, rows[..i])
    {
      assert rows[..i + 1][..i] == rows[..i];
      match rows[i]
      case Blank => continue;
      case Malformed => continue;
      case NotText => continue;
      case Text(t) =>
        if !isBlank(t) {
          texts := texts + [t];
        }
    }
    assert rows[..|rows|] == rows;
  }

  function Hashes(hash: string -> string, texts: seq<string>): set<string> {
    set t | t in texts :: hash(t)
  }

  /** What is replayed: everything, or what follows the first `skip` texts. */
  function Replayed(texts: seq<string>, skip: nat, full: bool): seq<string> {
    if full then texts else if skip <= |texts| then texts[skip..] else []
  }

  /** The layers that are present are sound; the exact one knows `known`, the semantic one has
      registered `history`. */
  ghost predicate Layers(exact: ExactHashDedup?, semantic: StreamingSemanticDedup?, known: set<string>,
      history: seq<Entry>)
    reads if exact != null then exact.Repr else {}, semantic
  {
    && (exact != null ==> exact.Valid() && exact.Known() == known)
    && (semantic != null ==> semantic.Valid() && semantic.history == history)
  }

  /** Nothing is forgotten or renamed, and what is new came from resuming. */
  ghost predicate Resumed(before: map<string, string>, after: map<string, string>) {
    && (forall d :: d in before ==> d in after && after[d] == before[d])
    && (forall d :: d in after && d !in before ==> after[d] == "resume")
  }

  lemma ResumedOn(a: map<string, string>, b: map<string, string>, c: map<string, string>)
    requires Resumed(a, b) && Resumed(b, c)
    ensures Resumed(a, c)
  {
  }

  /** A present digest is reported to the index only where it was not asked for first. */
  method RestoreOne(
      exact: ExactHashDedup?, semantic: StreamingSemanticDedup?, text: string, ifMissing: bool,
      ghost known: set<string>, ghost history: seq<Entry>)
    requires Layers(exact, semantic, known, history)
    requires exact != null && semantic != null ==> semantic !in exact.Repr
    modifies if exact != null then exact.Repr else {}, semantic
    ensures Layers(exact, semantic,
      if exact != null then known + {exact.hash(text)} else known,
      if semantic != null then history + [Described(semantic.cfg, text)] else history)
    ensures exact != null && exact.index != null ==>
      && Resumed(old(exact.index.Contents()), exact.index.Contents())
      && exact.index.duplicates ==
         old(exact.index.duplicates)
         + if !ifMissing && exact.hash(text) in old(exact.index.Contents()) then 1 else 0
  {
    hide ExactHashDedup.Known, ExactHashDedup.Consistent, BucketsOk, RecentOk, Described;
    if exact != null {
      if ifMissing {
        var _ := exact.SeedTextIfMissing(text, "resume");
      } else {
        exact.SeedText(text, "resume");
      }
    }
    if semantic != null {
      var e := Describe(semantic.cfg, text);
      semantic.Register(e);
    }
  }

  ghost function KnownAfter(exact: ExactHashDedup?, known: set<string>, texts: seq<string>): set<string> {
    if exact != null then known + Hashes(exact.hash, texts) else known
  }

  ghost function HistoryAfter(semantic: StreamingSemanticDedup?, history: seq<Entry>, texts: seq<string>): seq<Entry> {
    if semantic != null then history + DescribedAll(semantic.cfg, texts) else history
  }

  lemma AfterOne(exact: ExactHashDedup?, semantic: StreamingSemanticDedup?, known: set<string>, history: seq<Entry>,
      texts: seq<string>, t: string)
    ensures KnownAfter(exact, known, []) == known && HistoryAfter(semantic, history, []) == history
    ensures KnownAfter(exact, known, texts + [t]) ==
            (if exact != null then KnownAfter(exact, known, texts) + {exact.hash(t)}
              else KnownAfter(exact, known, texts))
    ensures HistoryAfter(semantic, history, texts + [t]) ==
            (if semantic != null then HistoryAfter(semantic, history, texts) + [Described(semantic.cfg, t)]
             else HistoryAfter(semantic, history, texts))
  {
    if exact != null {
      assert Hashes(exact.hash, texts + [t]) == Hashes(exact.hash, texts) + {exact.hash(t)};
    }
    if semantic != null {
      assert DescribedAll(semantic.cfg, texts + [t]) ==
        DescribedAll(semantic.cfg, texts) + [Described(semantic.cfg, t)];
    }
  }

  lemma ReplayedOne(texts: seq<string>, i: nat, skip: nat, full: bool)
    requires i < |texts|
    ensures Replayed(texts[..i + 1], skip, full) ==
            if !full && i < skip then Replayed(texts[..i], skip, full)
              else Replayed(texts[..i], skip, full) + [texts[i]]
  {
    assert texts[..i + 1] == texts[..i] + [texts[i]];
  }

  /** `texts` have been replayed on top of `known` and `history`. */
  ghost predicate Underway(
    exact: ExactHashDedup?, semantic: StreamingSemanticDedup?, known: set<string>, history: seq<Entry>,
    texts: seq<string>)
    reads if exact != null then exact.Repr else {}, semantic
  {
    Layers(exact, semantic, KnownAfter(exact, known, texts), HistoryAfter(semantic, history, texts))
  }

  method ReplayText(
      exact: ExactHashDedup?, semantic: StreamingSemanticDedup?, text: string, ifMissing: bool,
      ghost known: set<string>, ghost history: seq<Entry>, ghost done: seq<string>)
    requires Underway(exact, semantic, known, history, done)
    requires exact != null && semantic != null ==> semantic !in exact.Repr
    modifies if exact != null then exact.Repr else {}, semantic
    ensures Underway(exact, semantic, known, history, done + [text])
    ensures exact != null && exact.index != null ==>
      && Resumed(old(exact.index.Contents()), exact.index.Contents())
      && (ifMissing ==> exact.index.duplicates == old(exact.index.duplicates))
  {
    hide Layers, KnownAfter, HistoryAfter;
    AfterOne(exact, semantic, known, history, done, text);
    RestoreOne(exact, semantic, text, ifMissing, KnownAfter(exact, known, done), HistoryAfter(semantic, history, done));
  }

  /** Every replayed text becomes known to the exact layer and joins the semantic history; the
      skipped ones reach neither layer. */
  method Restore(
      isBlank: string -> bool, file: Option<seq<Row>>,
      exact: ExactHashDedup?, semantic: StreamingSemanticDedup?, skip: nat, full: bool,
      ghost known: set<string>, ghost history: seq<Entry>)
    returns (count: nat)
    requires Layers(exact, semantic, known, history)
    requires exact != null && semantic != null ==> semantic !in exact.Repr
    modifies if exact != null then exact.Repr else {}, semantic
    ensures
      var texts := if file.Some? then Replayed(Texts(isBlank, file.value), skip, full) else [];
      count == |texts| && Underway(exact, semantic, known, history, texts)
    ensures exact != null && exact.index != null ==>
      && Resumed(old(exact.index.Contents()), exact.index.Contents())
      && (full && skip > 0 ==> exact.index.duplicates == old(exact.index.duplicates))
  {
    UnderwayNone(exact, semantic, known, history);
    hide Underway, Layers, Replayed;
    if file.None? {
      return 0;
    }
    var texts := IterTexts(isBlank, file.value);
    ghost var done: seq<string> := [];
    var skipped: nat := 0;
    count := 0;
    ReplayedEnds(texts, skip, full);
    for i := 0 to |texts|
      invariant skipped == (if full then 0 else if i < skip then i else skip) && count == |done|
      invariant done == Replayed(texts[..i], skip, full) && Underway(exact, semantic, known, history, done)
      invariant exact != null && exact.index != null ==>
        && Resumed(old(exact.index.Contents()), exact.index.Contents())
        && (full && skip > 0 ==> exact.index.duplicates == old(exact.index.duplicates))
    {
      hide Resumed;
      ReplayedOne(texts, i, skip, full);
      ghost var before := if exact != null && exact.index != null then exact.index.Contents() else map[];
      if !full && skipped < skip {
        skipped := skipped + 1;
      } else {
        ReplayText(exact, semantic, texts[i], full && skip > 0, known, history, done);
        if exact != null && exact.index != null {
          ResumedOn(old(exact.index.Contents()), before, exact.index.Contents());
        }
        done, count := done + [texts[i]], count + 1;
      }
    }
  }

  lemma UnderwayNone(exact: ExactHashDedup?, semantic: StreamingSemanticDedup?, known: set<string>, history: seq<Entry>)
    requires Layers(exact, semantic, known, history)
    ensures Underway(exact, semantic, known, history, [])
  {
    AfterOne(exact, semantic, known, history, [], "");
  }

  lemma ReplayedEnds(texts: seq<string>, skip: nat, full: bool)
    ensures Replayed(texts[..0], skip, full) == []
    ensures texts[..|texts|] == texts
  {
  }

  // ---- resuming ----

  function Digests(hash: string -> string, texts: seq<string>): seq<string> {
    seq(|texts|, i requires 0 <= i < |texts| => hash(texts[i]))
  }

  /** The texts of a stream the exact layer kept: the first of each digest not known before. */
  ghost function FirstSeen(hash: string -> string, known: set<string>, texts: seq<string>): seq<string> {
    if texts == [] then []
    else
      var front := texts[..|texts| - 1];
      var rest := FirstSeen(hash, known, front);
      var last := texts[|texts| - 1];
      if hash(last) in Asked(known, Digests(hash, front)) then rest else rest + [last]
  }

  /** The kept texts carry every digest the stream made known. */
  lemma {:induction false} KeptCarryDigests(hash: string -> string, known: set<string>, texts: seq<string>)
    ensures known + Hashes(hash, FirstSeen(hash, known, texts)) == Asked(known, Digests(hash, texts))
  {
    GrowOne(hash, known, [], "");
    if texts != [] {
      hide Hashes, Asked;
      var front := texts[..|texts| - 1];
      var last := texts[|texts| - 1];
      KeptCarryDigests(hash, known, front);
      assert texts == front + [last];
      GrowOne(hash, known, front, last);
      GrowOne(hash, known, FirstSeen(hash, known, front), last);
    }
  }

  lemma GrowOne(hash: string -> string, known: set<string>, texts: seq<string>, t: string)
    ensures Hashes(hash, []) == {} && Asked(known, Digests(hash, [])) == known
    ensures Hashes(hash, texts + [t]) == Hashes(hash, texts) + {hash(t)}
    ensures Asked(known, Digests(hash, texts + [t])) == Asked(known, Digests(hash, texts)) + {hash(t)}
  {
    assert Digests(hash, texts + [t]) == Digests(hash, texts) + [hash(t)];
  }

  /** The file a run that kept these texts has written. */
  function Written(kept: seq<string>): (rows: seq<Row>)
    ensures |rows| == |kept|
  {
    seq(|kept|, i requires 0 <= i < |kept| => Row.Text(kept[i]))
  }

  lemma {:induction false} TextsAre(isBlank: string -> bool, kept: seq<string>)
    ensures forall t :: t in Texts(isBlank, Written(kept)) <==> t in kept && !isBlank(t)
  {
    if kept != [] {
      var front := kept[..|kept| - 1];
      TextsAre(isBlank, front);
      assert kept == front + [kept[|kept| - 1]];
      assert Written(kept)[..|kept| - 1] == Written(front);
    }
  }

  /** What is replayed was kept. */
  lemma ReplayedKept(isBlank: string -> bool, kept: seq<string>, skip: nat, full: bool)
    ensures forall t :: t in Replayed(Texts(isBlank, Written(kept)), skip, full) ==> t in kept && !isBlank(t)
  {
    TextsAre(isBlank, kept);
  }

  /** What a rebuilt index knows, after a run that kept these texts, when `survived` is what was
      left of it. */
  function Rebuilt(
      hash: string -> string, isBlank: string -> bool, kept: seq<string>, survived: set<string>, skip: nat,
      full: bool): set<string>
  {
    survived + Hashes(hash, Replayed(Texts(isBlank, Written(kept)), skip, full))
  }

  /** A later stream gets the verdicts of a run that did not stop. */
  ghost predicate Resumes(known: set<string>, first: seq<string>, resumed: set<string>, second: seq<string>) {
    ExactDedup.Verdicts(known, first + second) ==
      ExactDedup.Verdicts(known, first) + ExactDedup.Verdicts(resumed, second)
  }

  /** Resuming the exact layer, exactly: every later stream gets the verdicts it would have had
      without stopping if and only if each kept text that is not read back is still in the index. */
  lemma ExactResumesIff(
      hash: string -> string, isBlank: string -> bool, known: set<string>, first: seq<string>, survived: set<string>,
      skip: nat, full: bool)
    requires known <= survived <= Asked(known, Digests(hash, first))
    ensures
      var kept := FirstSeen(hash, known, first);
      var resumed := Rebuilt(hash, isBlank, kept, survived, skip, full);
      (forall second :: Resumes(known, Digests(hash, first), resumed, second))
      <==> (forall t :: t in kept && t !in Replayed(Texts(isBlank, Written(kept)), skip, full) ==> hash(t) in survived)
  {
    var kept := FirstSeen(hash, known, first);
    var replayed := Replayed(Texts(isBlank, Written(kept)), skip, full);
    ReplayedKept(isBlank, kept, skip, full);
    KeptCarryDigests(hash, known, first);
    FirstSeenOnce(hash, known, first);
    var resumed := Rebuilt(hash, isBlank, kept, survived, skip, full);
    RebuiltIff(hash, known, kept, survived, replayed);
    hide Resumes, Asked, FirstSeen, Texts, Replayed, Hashes;
    ResumesIff(known, Digests(hash, first), resumed);
  }

  lemma ResumesIff(known: set<string>, first: seq<string>, resumed: set<string>)
    requires resumed <= Asked(known, first)
    ensures (forall second :: Resumes(known, first, resumed, second)) <==> resumed == Asked(known, first)
  {
    forall second ensures resumed == Asked(known, first) ==> Resumes(known, first, resumed, second) {
      ExactDedup.VerdictsResume(known, first, second);
    }
    if forall second :: Resumes(known, first, resumed, second) {
      forall d | d in Asked(known, first) ensures d in resumed {
        ResumesOne(known, first, resumed, d);
      }
    }
  }

  lemma ResumesOne(known: set<string>, first: seq<string>, resumed: set<string>, d: string)
    ensures Resumes(known, first, resumed, [d]) <==> (d in Asked(known, first) <==> d in resumed)
  {
    hide Asked;
    ExactDedup.VerdictsResume(known, first, [d]);
    VerdictOfOne(Asked(known, first), d);
    VerdictOfOne(resumed, d);
    hide ExactDedup.Verdicts;
    assert forall x: bool :: (ExactDedup.Verdicts(known, first) + [x])[|first|] == x;
  }

  lemma VerdictOfOne(known: set<string>, d: string)
    ensures ExactDedup.Verdicts(known, [d]) == [d in known]
  {
    assert [d][..0] == [];
  }

  /** No two kept texts have one digest, and none has a digest known before. */
  lemma {:induction false} FirstSeenOnce(hash: string -> string, known: set<string>, texts: seq<string>)
    ensures
      var kept := FirstSeen(hash, known, texts);
      && (forall t :: t in kept ==> hash(t) !in known)
      && (forall t, w :: t in kept && w in kept && hash(t) == hash(w) ==> t == w)
  {
    if texts != [] {
      var (front, last) := (texts[..|texts| - 1], texts[|texts| - 1]);
      FirstSeenOnce(hash, known, front);
      KeptCarryDigests(hash, known, front);
    }
    hide Asked;
  }

  lemma RebuiltIff(hash: string -> string, known: set<string>, kept: seq<string>, survived: set<string>,
      replayed: seq<string>)
    requires known <= survived <= known + Hashes(hash, kept)
    requires forall t :: t in replayed ==> t in kept
    requires forall t, w :: t in kept && w in kept && hash(t) == hash(w) ==> t == w
    ensures survived + Hashes(hash, replayed) <= known + Hashes(hash, kept)
    ensures survived + Hashes(hash, replayed) == known + Hashes(hash, kept)
       <==> forall t :: t in kept && t !in replayed ==> hash(t) in survived
  {
    var (resumed, all) := (survived + Hashes(hash, replayed), known + Hashes(hash, kept));
    if resumed == all {
      forall t | t in kept && t !in replayed ensures hash(t) in survived {
        assert hash(t) in Hashes(hash, kept);
      }
    } else {
      var d :| d in all && d !in resumed;
      var t :| t in kept && hash(t) == d;
      assert hash(t) in Hashes(hash, replayed) || t !in replayed;
    }
  }

  /** A kept text of white space is not read back: an index lost meanwhile does not know it, and
      lets it through a second time. */
  lemma BlankLost(hash: string -> string, isBlank: string -> bool, skip: nat, full: bool)
    requires isBlank("   ")
    ensures
      var first := ["   "];
      var resumed := Rebuilt(hash, isBlank, FirstSeen(hash, {}, first), {}, skip, full);
      !Resumes({}, Digests(hash, first), resumed, Digests(hash, first))
  {
    var first := ["   "];
    assert first[..0] == [] && Digests(hash, first) == [hash("   ")];
    KeptCarryDigests(hash, {}, first);
    FirstSeenWithin(hash, {}, first);
    ReplayedKept(isBlank, FirstSeen(hash, {}, first), skip, full);
    hide FirstSeen, Texts, Replayed, Resumes, Asked;
    ResumesOne({}, Digests(hash, first), Rebuilt(hash, isBlank, FirstSeen(hash, {}, first), {}, skip, full),
      hash("   "));
    assert hash("   ") in Asked({}, Digests(hash, first)) by {
      AskedOwn({}, Digests(hash, first));
    }
  }

  lemma AskedOwn(known: set<string>, stream: seq<string>)
    ensures forall d :: d in stream ==> d in Asked(known, stream)
  {
  }

  lemma {:induction false} FirstSeenWithin(hash: string -> string, known: set<string>, texts: seq<string>)
    ensures forall t :: t in FirstSeen(hash, known, texts) ==> t in texts
  {
    if texts != [] {
      FirstSeenWithin(hash, known, texts[..|texts| - 1]);
    }
    hide Asked;
  }

  /** A later stream gets the near-duplicate verdicts of a run that did not stop. */
  ghost predicate SemanticResumes(c: Config, first: seq<string>, resumed: seq<Entry>, second: seq<string>) {
    Semantic.Verdicts(c, [], first + second) == Semantic.Verdicts(c, [], first) + Semantic.Verdicts(c, resumed, second)
  }

  lemma SemanticResumesAs(c: Config, first: seq<string>, resumed: seq<Entry>, second: seq<string>)
    ensures SemanticResumes(c, first, resumed, second) <==> SameVerdicts(c, Kept(c, [], first), resumed, second)
  {
    Semantic.VerdictsResume(c, [], first, second);
    var (v, a, b) := (Semantic.Verdicts(c, [], first), Semantic.Verdicts(c, Kept(c, [], first), second),
      Semantic.Verdicts(c, resumed, second));
    hide Semantic.Verdicts, Kept;
    assert (v + a)[|v|..] == a && (v + b)[|v|..] == b;
  }

  /** Whatever is replayed: with the two windows of the filter that never stopped, every later stream
      gets its verdicts. */
  lemma WindowsResume(c: Config, first: seq<string>, replayed: seq<string>, second: seq<string>)
    requires SameWindows(c, Kept(c, [], first), DescribedAll(c, replayed))
    ensures SemanticResumes(c, first, DescribedAll(c, replayed), second)
  {
    hide SameWindows;
    WindowsDecide(c, Kept(c, [], first), DescribedAll(c, replayed), second);
    SemanticResumesAs(c, first, DescribedAll(c, replayed), second);
  }

  /** With every kept text replayed nothing is lost, whatever the thresholds. */
  lemma FullReplayResumes(c: Config, isBlank: string -> bool, first: seq<string>, skip: nat, full: bool,
      second: seq<string>)
    requires full || skip == 0
    requires forall t :: t in KeptTexts(c, [], first) ==> !isBlank(t)
    ensures
      var replayed := Replayed(Texts(isBlank, Written(KeptTexts(c, [], first))), skip, full);
      SemanticResumes(c, first, DescribedAll(c, replayed), second)
  {
    hide SemanticResumes, Texts, KeptTexts, Kept, DescribedAll;
    var kept := KeptTexts(c, [], first);
    TextsOfKept(isBlank, kept);
    assert Replayed(kept, skip, full) == kept;
    ReplayRebuilds(c, [], first);
    assert [] + DescribedAll(c, kept) == DescribedAll(c, kept);
    WindowsResume(c, first, kept, second);
  }

  /** How many of the kept texts, or of their entries, a replay leaves out. */
  function LeftOut<T>(history: seq<T>, skip: nat, full: bool): (n: nat)
    ensures n <= |history|
  {
    if full then 0 else if skip <= |history| then skip else |history|
  }

  lemma ReplayedDescribed(c: Config, kept: seq<string>, skip: nat, full: bool)
    ensures
      var history := DescribedAll(c, kept);
      DescribedAll(c, Replayed(kept, skip, full)) == history[LeftOut(history, skip, full)..]
  {
    hide Described;
  }

  /** Resuming the semantic layer, exactly: where a text with a word is near itself, the skipped texts
      have words and none kept since is near one of them but in its own bucket, every later stream
      gets the verdicts it would have had without stopping if and only if 128 texts were kept after
      the skipped ones, and `maxBucket` of the bucket of each skipped one. */
  lemma SemanticResumesIff(c: Config, isBlank: string -> bool, first: seq<string>, skip: nat, full: bool)
    requires Recognises(c)
    requires forall t :: t in KeptTexts(c, [], first) ==> !isBlank(t)
    requires
      var n := LeftOut(KeptTexts(c, [], first), skip, full);
      && (forall t :: t in KeptTexts(c, [], first)[..n] ==> c.words(t) != [])
      && n <= |Kept(c, [], first)| && Unlike(c, Kept(c, [], first), n)
    ensures
      var replayed := Replayed(Texts(isBlank, Written(KeptTexts(c, [], first))), skip, full);
      var history := Kept(c, [], first);
      (forall second :: SemanticResumes(c, first, DescribedAll(c, replayed), second))
      <==> Refilled(c, history, LeftOut(history, skip, full))
  {
    hide SameWindows, Refilled, Unlike, Apart, Texts, Replayed, KeptTexts, Kept, DescribedAll, SemanticResumes;
    hide SameVerdicts;
    var (kept, history) := (KeptTexts(c, [], first), Kept(c, [], first));
    TextsOfKept(isBlank, kept);
    ReplayRebuilds(c, [], first);
    assert [] + DescribedAll(c, kept) == DescribedAll(c, kept);
    DescribedSize(c, kept);
    var n := LeftOut(history, skip, full);
    KeptApart(c, first);
    VerdictsWithoutIff(c, kept, n);
    ReplayedDescribed(c, kept, skip, full);
    ResumesIfSame(c, first, history, history[n..]);
  }

  lemma ResumesIfSame(c: Config, first: seq<string>, history: seq<Entry>, resumed: seq<Entry>)
    requires history == Kept(c, [], first)
    ensures (forall second :: SemanticResumes(c, first, resumed, second))
       <==> (forall second :: SameVerdicts(c, history, resumed, second))
  {
    forall second
      ensures SemanticResumes(c, first, resumed, second) <==> SameVerdicts(c, history, resumed, second)
    {
      SemanticResumesAs(c, first, resumed, second);
    }
    hide SemanticResumes, SameVerdicts, Kept;
  }

  lemma DescribedSize(c: Config, texts: seq<string>)
    ensures |DescribedAll(c, texts)| == |texts|
  {
  }

  /** Nothing is lost between writing kept texts and reading them back, provided none is blank. */
  lemma {:induction false} TextsOfKept(isBlank: string -> bool, kept: seq<string>)
    requires forall t :: t in kept ==> !isBlank(t)
    ensures Texts(isBlank, Written(kept)) == kept
  {
    if kept != [] {
      var front := kept[..|kept| - 1];
      assert kept[|kept| - 1] in kept;
      TextsOfKept(isBlank, front);
      assert Written(kept)[..|kept| - 1] == Written(front);
    }
  }
}
