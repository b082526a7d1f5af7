/** What the hard limit on the length of a segment does, and what it does not do. */
module HardLimit {
  import opened Collections
  import opened Normalize
  import opened Paragraphs
  import opened Packing
  import opened Segment
  import opened Segmenter
  import opened Overlap
  import opened FenceParts

  ghost predicate AllWithin(xs: seq<string>, limit: int) {
    forall x :: x in xs ==> |x| <= limit
  }

  ghost predicate AllAloneIn(u: Unicode, ps: seq<string>) {
    forall i :: 0 <= i < |ps| ==> Paras(u, ps[i]) == [ps[i]]
  }

  // ---- paragraphs and chunks ----

  lemma {:induction false} ParasOfAll(u: Unicode, xs: seq<string>, p: string)
    ensures p in ParasAll(u, xs) <==> exists x :: x in xs && p in Paras(u, x)
  {
    if xs != [] {
      var (front, last) := (xs[..|xs| - 1], xs[|xs| - 1]);
      ParasOfAll(u, front, p);
      assert xs == front + [last];
    }
    hide Paras;
  }

  /** Segments within a limit have paragraphs within it. */
  lemma ParasFit(u: Unicode, chunks: seq<string>, limit: int)
    requires AllWithin(chunks, limit)
    ensures AllWithin(ParasAll(u, chunks), limit)
  {
    forall p | p in ParasAll(u, chunks) ensures |p| <= limit {
      ParasOfAll(u, chunks, p);
      var x :| x in chunks && p in Paras(u, x);
      ParasShorter(u, x);
    }
    hide Paras, ParasAll;
  }

  // ---- packing a packed chunk again ----

  function Shift(us: seq<Unit>, d: int): (r: seq<Unit>)
    ensures |r| == |us|
  {
    seq(|us|, i requires 0 <= i < |us| => us[i].(run := us[i].run + d))
  }

  function ShiftAll(gs: seq<seq<Unit>>, d: int): (r: seq<seq<Unit>>)
    ensures |r| == |gs|
  {
    seq(|gs|, i requires 0 <= i < |gs| => Shift(gs[i], d))
  }

  lemma {:induction false} SumShift(g: seq<Unit>, d: int)
    ensures Sum(Shift(g, d)) == Sum(g)
  {
    if g != [] {
      SumShift(g[..|g| - 1], d);
      assert Shift(g, d)[..|g| - 1] == Shift(g[..|g| - 1], d);
    }
  }

  /** Only whether runs are equal matters. */
  lemma ShiftGreedy(gs: seq<seq<Unit>>, d: int, max: int)
    requires Greedy(gs, max)
    ensures Greedy(ShiftAll(gs, d), max) && Chunks(ShiftAll(gs, d)) == Chunks(gs)
  {
    forall i | 0 <= i < |gs|
      ensures Fits(gs[i], max) && Fits(Shift(gs[i], d), max) && Texts(Shift(gs[i], d)) == Texts(gs[i])
      ensures Sum(Shift(gs[i], d)) == Sum(gs[i])
    {
      SumShift(gs[i], d);
    }
    hide Sum, Joined;
  }

  lemma {:induction false} FlatShift(gs: seq<seq<Unit>>, d: int)
    ensures Flat(ShiftAll(gs, d)) == Shift(Flat(gs), d)
  {
    if gs != [] {
      FlatShift(gs[..|gs| - 1], d);
      assert ShiftAll(gs, d)[..|gs| - 1] == ShiftAll(gs[..|gs| - 1], d);
    }
  }

  lemma ChunksShift(us: seq<Unit>, d: int, max: int)
    ensures Chunks(GroupsOf(Shift(us, d), max)) == Chunks(GroupsOf(us, max))
  {
    hide Greedy, Flat, Shift, ShiftAll, GroupsOf, Chunks;
    var gs := GroupsOf(us, max);
    GroupsGreedy(us, max);
    ShiftGreedy(gs, d, max);
    FlatShift(gs, d);
    GreedyIs(ShiftAll(gs, d), Shift(us, d), max);
  }

  /** Sections that follow others are packed as they would be alone, in later runs. */
  lemma {:induction false} UnitsJoin(u: Unicode, cfg: Config, m: Marks, xs: seq<string>, ys: seq<string>)
    ensures
      var ((us, run), (vs, more)) := (Units(u, cfg, m, xs), Units(u, cfg, m, ys));
      Units(u, cfg, m, xs + ys) == (us + Shift(vs, run), run + more)
  {
    hide Tokens, Paras, Units, Shift;
    if ys == [] {
      assert xs + ys == xs;
      NoUnits(u, cfg, m, Units(u, cfg, m, xs).0, Units(u, cfg, m, xs).1);
    } else {
      var (front, last) := (ys[..|ys| - 1], ys[|ys| - 1]);
      UnitsJoin(u, cfg, m, xs, front);
      assert xs + ys == xs + front + [last] && ys == front + [last];
      UnitsJoinOne(u, cfg, m, xs, front, last);
    }
  }

  lemma NoUnits(u: Unicode, cfg: Config, m: Marks, us: seq<Unit>, d: int)
    ensures Units(u, cfg, m, []) == ([], 0) && us + Shift([], d) == us
  {
  }

  lemma UnitsJoinOne(u: Unicode, cfg: Config, m: Marks, xs: seq<string>, front: seq<string>, last: string)
    requires
      var ((us, run), (vs, more)) := (Units(u, cfg, m, xs), Units(u, cfg, m, front));
      Units(u, cfg, m, xs + front) == (us + Shift(vs, run), run + more)
    ensures
      var ((us, run), (vs, more)) := (Units(u, cfg, m, xs), Units(u, cfg, m, front + [last]));
      Units(u, cfg, m, xs + front + [last]) == (us + Shift(vs, run), run + more)
  {
    hide Tokens, Paras, Units, Shift, ParaUnits, UnitOf;
    var ((us, run), (vs, more)) := (Units(u, cfg, m, xs), Units(u, cfg, m, front));
    UnitsMore(u, cfg, m, xs + front, last);
    UnitsMore(u, cfg, m, front, last);
    ShiftMore(vs, cfg, m, Paras(u, last), last, more, run);
    var (long, short) := (ParaUnits(cfg, m, Paras(u, last), run + more + 1), [UnitOf(cfg, m, last, run + more)]);
    assert us + Shift(vs, run) + long == us + (Shift(vs, run) + long);
    assert us + Shift(vs, run) + short == us + (Shift(vs, run) + short);
  }

  lemma ShiftMore(vs: seq<Unit>, cfg: Config, m: Marks, paras: seq<string>, last: string, run: int, d: int)
    ensures Shift(vs + ParaUnits(cfg, m, paras, run + 1), d) == Shift(vs, d) + ParaUnits(cfg, m, paras, d + run + 1)
    ensures Shift(vs + [UnitOf(cfg, m, last, run)], d) == Shift(vs, d) + [UnitOf(cfg, m, last, d + run)]
  {
    hide Tokens;
  }

  /** Paragraphs are packed one by one. */
  lemma {:induction false} UnitsOfParas(u: Unicode, cfg: Config, m: Marks, ps: seq<string>)
    requires AllAloneIn(u, ps)
    ensures Texts(Units(u, cfg, m, ps).0) == ps
  {
    hide Tokens, Paras;
    if ps != [] {
      UnitsOfParas(u, cfg, m, ps[..|ps| - 1]);
    }
  }

  lemma GreedyPart(gs: seq<seq<Unit>>, a: nat, b: nat, max: int)
    requires Greedy(gs, max) && a <= b <= |gs|
    ensures Greedy(gs[a..b], max)
  {
    forall i | 0 <= i < b - a - 1 ensures Apart(gs[a..b][i], gs[a..b][i + 1], max) {
      assert Apart(gs[a + i], gs[a + i + 1], max);
    }
  }

  /** The paragraphs of some consecutive chunks, packed alone, give these chunks. */
  lemma ChunksPart(u: Unicode, cfg: Config, m: Marks, ps: seq<string>, gs: seq<seq<Unit>>, a: nat, b: nat)
    requires AllAloneIn(u, ps) && gs == GroupsOf(Units(u, cfg, m, ps).0, cfg.maxTokens) && a <= b <= |gs|
    ensures
      var qs := Texts(Flat(gs[a..b]));
      Chunks(GroupsOf(Units(u, cfg, m, qs).0, cfg.maxTokens)) == Chunks(gs[a..b]) && AllAloneIn(u, qs)
  {
    hide Tokens, Paras, Greedy, Units, Flat, GroupsOf, Chunks;
    var max := cfg.maxTokens;
    var us := Units(u, cfg, m, ps).0;
    GroupsGreedy(us, max);
    GreedyPart(gs, a, b, max);
    FlatPart(gs, a, b);
    var (x, y, z) := (Flat(gs[..a]), Flat(gs[a..b]), Flat(gs[b..]));
    UnitsOfParas(u, cfg, m, ps);
    var d := UnitsPart(u, cfg, m, ps, Texts(x), Texts(y), Texts(z));
    var vs := Units(u, cfg, m, Texts(y)).0;
    assert us[|x|..|x| + |y|] == y;
    GreedyIs(gs[a..b], Shift(vs, d), max);
    ChunksShift(vs, d, max);
  }

  lemma UnitsPart(u: Unicode, cfg: Config, m: Marks, ps: seq<string>, xs: seq<string>, ys: seq<string>,
      zs: seq<string>) returns (d: int)
    requires AllAloneIn(u, ps) && ps == xs + ys + zs
    ensures |Units(u, cfg, m, ps).0| == |ps| && AllAloneIn(u, ys)
    ensures Units(u, cfg, m, ps).0[|xs|..|xs| + |ys|] == Shift(Units(u, cfg, m, ys).0, d)
  {
    hide Tokens, Paras, Units;
    d := Units(u, cfg, m, xs).1;
    UnitsJoin(u, cfg, m, xs + ys, zs);
    UnitsJoin(u, cfg, m, xs, ys);
    PartAlone(u, ps, xs, ys, zs);
    UnitsOfParas(u, cfg, m, ps);
    UnitsOfParas(u, cfg, m, xs);
    UnitsOfParas(u, cfg, m, ys);
  }

  lemma PartAlone(u: Unicode, ps: seq<string>, xs: seq<string>, ys: seq<string>, zs: seq<string>)
    requires AllAloneIn(u, ps) && ps == xs + ys + zs
    ensures AllAloneIn(u, xs) && AllAloneIn(u, ys)
  {
    hide Paras;
    assert forall i :: 0 <= i < |xs| ==> xs[i] == ps[i];
    assert forall i :: 0 <= i < |ys| ==> ys[i] == ps[|xs| + i];
  }

  lemma {:induction false} AbsorbedAlone(cfg: Config, g: seq<string>)
    requires Absorbed(cfg, g)
    ensures MergedOf(cfg, g) == [g]
  {
    hide Absorbs;
    var (front, last) := (g[..|g| - 1], g[|g| - 1]);
    assert g == front + [last];
    if front != [] {
      assert forall j :: 0 < j < |front| ==> front[..j] == g[..j] && front[j] == g[j];
      AbsorbedAlone(cfg, front);
    }
  }

  /** A packed chunk, cut into paragraphs and packed again, is itself. */
  lemma ChunkAgain(u: Unicode, cfg: Config, m: Marks, ps: seq<string>, i: nat)
    requires u.isSpace('\n') && AllAloneIn(u, ps) && i < |PackedOf(u, cfg, m, ps)|
    ensures PackedOf(u, cfg, m, Paras(u, PackedOf(u, cfg, m, ps)[i])) == [PackedOf(u, cfg, m, ps)[i]]
  {
    hide Tokens, Paras, Units, Flat, GroupsOf, Chunks, MergedOf, Joined, Absorbed;
    var gs := GroupsOf(Units(u, cfg, m, ps).0, cfg.maxTokens);
    var ms := MergedOf(cfg, Chunks(gs));
    MergedOfIs(cfg, Chunks(gs));
    FlatPart(ms, i, i + 1);
    assert ms[i..i + 1] == [ms[i]];
    FlatAlone(ms[i]);
    var a := |Flat(ms[..i])|;
    var b := a + |ms[i]|;
    assert ms[i] == Flat(ms)[a..b];
    ChunksAt(gs, a, b);
    ChunksPart(u, cfg, m, ps, gs, a, b);
    ParasOfChunks(u, gs[a..b]);
    AbsorbedAlone(cfg, ms[i]);
    assert JoinedAll([ms[i]]) == [Joined(ms[i])];
  }

  lemma FlatAlone<T>(g: seq<T>)
    ensures Flat([g]) == g
  {
    assert [g][..0] == [];
  }

  lemma ChunksAt(gs: seq<seq<Unit>>, a: nat, b: nat)
    requires a <= b <= |gs|
    ensures Chunks(gs[a..b]) == Chunks(gs)[a..b]
  {
    hide Joined;
  }

  lemma ParasOfChunks(u: Unicode, gs: seq<seq<Unit>>)
    requires u.isSpace('\n') && AllAloneIn(u, Texts(Flat(gs)))
    ensures Paras(u, Joined(Chunks(gs))) == Texts(Flat(gs))
  {
    hide Paras, Joined, Chunks, Flat, Texts;
    ParasJoined(u, Chunks(gs));
    ChunksAre(gs);
    JoinedAllParas(u, TextGroups(gs));
    AllAlone(u, Texts(Flat(gs)));
  }

  lemma {:induction false} InkIn(u: Unicode, xs: seq<string>, x: string, c: char)
    requires x in xs && c in Ink(u, x)
    ensures c in InkAll(u, xs)
  {
    hide Ink;
    var (front, last) := (xs[..|xs| - 1], xs[|xs| - 1]);
    assert xs == front + [last];
    if x in front {
      InkIn(u, front, x, c);
    }
  }

  lemma {:induction false} AgainAll(u: Unicode, cfg: Config, m: Marks, chunks: seq<string>)
    requires forall x :: x in chunks ==> PackedOf(u, cfg, m, BlocksOf(u, x, cfg.preserveCode)) == [x]
    ensures RepackedOf(u, cfg, m, chunks) == chunks
  {
    hide PackedOf, BlocksOf;
    if chunks != [] {
      var (front, last) := (chunks[..|chunks| - 1], chunks[|chunks| - 1]);
      assert chunks == front + [last];
      AgainAll(u, cfg, m, front);
    }
  }

  /** Packing chunks of paragraphs again changes nothing, whatever the limit. */
  lemma RepackIsIdle(u: Unicode, cfg: Config, m: Marks, ps: seq<string>)
    requires u.isSpace('\n') && AllAloneIn(u, ps) && Unfenced(u, cfg, InkAll(u, ps))
    ensures RepackedOf(u, cfg, m, PackedOf(u, cfg, m, ps)) == PackedOf(u, cfg, m, ps)
  {
    hide PackedOf, Paras, ParasAll, Ink, InkAll, SizeOk, BlocksOf;
    var chunks := PackedOf(u, cfg, m, ps);
    PackedConserved(u, cfg, m, ps);
    forall x | x in chunks ensures PackedOf(u, cfg, m, BlocksOf(u, x, cfg.preserveCode)) == [x] {
      var i :| 0 <= i < |chunks| && chunks[i] == x;
      if '`' in Ink(u, x) {
        InkIn(u, chunks, x, '`');
      }
      UnfencedBlocks(u, cfg, x);
      ChunkAgain(u, cfg, m, ps, i);
    }
    AgainAll(u, cfg, m, chunks);
  }

  lemma ParasAlone(u: Unicode, text: string)
    ensures AllAloneIn(u, Paras(u, text))
  {
    ParagraphAlone(u, text);
    forall i | 0 <= i < |Paras(u, text)| ensures Paras(u, Paras(u, text)[i]) == [Paras(u, text)[i]] {
      assert Paras(u, text)[i] in Paras(u, text);
    }
    hide Paras;
  }

  /** Main result. On a text without headings and fences the hard limit decides only whether the text
      is taken as it is: past that, the segments are the packed paragraphs, whatever the limit. */
  lemma HardLimitIsIdle(u: Unicode, cfg: Config, m: Marks, text: string)
    requires u.isSpace('\n') && text != "" && cfg.splitLong
    requires !m.anyHeading(text) && Unfenced(u, cfg, Ink(u, text))
    ensures WholeOf(u, cfg, m, text) ==
            if Tokens(cfg, text) <= cfg.maxTokens && |text| <= cfg.hardMaxChars then [text]
            else PackedOf(u, cfg, m, Paras(u, text))
  {
    hide PackedOf, RepackedOf, Paras, Ink, InkAll, Tokens, BlocksOf;
    UnfencedBlocks(u, cfg, text);
    ParasAlone(u, text);
    ParasInk(u, text);
    RepackIsIdle(u, cfg, m, Paras(u, text));
  }

  // ---- what comes out over the limit ----

  lemma PackedOne(u: Unicode, cfg: Config, m: Marks, ps: seq<string>, g: seq<Unit>)
    requires Units(u, cfg, m, ps).0 == g && Fits(g, cfg.maxTokens) && Texts(g) == ps
    ensures PackedOf(u, cfg, m, ps) == [Joined(ps)]
  {
    hide Units, Joined, Texts, Sum, Fits, MergedOf, Flat;
    FlatAlone(g);
    GreedyOne(g, cfg.maxTokens);
    GreedyIs([g], g, cfg.maxTokens);
    hide Greedy, GroupsOf;
    assert Chunks([g]) == [Joined(ps)];
    MergedOne(cfg, Joined(ps));
    OneJoined(Joined(ps));
    assert JoinedAll([[Joined(ps)]]) == [Joined([Joined(ps)])];
  }

  lemma GreedyOne(g: seq<Unit>, max: int)
    requires Fits(g, max)
    ensures Greedy([g], max)
  {
  }

  lemma MergedOne(cfg: Config, x: string)
    ensures MergedOf(cfg, [x]) == [[x]]
  {
    AbsorbedAlone(cfg, [x]);
  }

  lemma OneJoined(x: string)
    ensures Joined([x]) == x
  {
  }

  /** A paragraph too long for a chunk is packed as it is. */
  lemma LongPacked(u: Unicode, cfg: Config, m: Marks, p: string)
    requires Paras(u, p) == [p] && Tokens(cfg, p) > cfg.maxTokens
    ensures PackedOf(u, cfg, m, [p]) == [p]
  {
    hide Tokens, Paras;
    UnitsMore(u, cfg, m, [], p);
    assert [] + [p] == [p];
    var unit := UnitOf(cfg, m, p, 1);
    assert ParaUnits(cfg, m, [p], 1) == [unit] && [] + [unit] == [unit];
    hide Units;
    assert Texts([unit]) == [p];
    PackedOne(u, cfg, m, [p], [unit]);
    OneJoined(p);
  }

  ghost predicate NoneAtomic(m: Marks, ps: seq<string>) {
    forall i :: 0 <= i < |ps| ==> !m.atomic(ps[i])
  }

  lemma {:induction false} ShortUnits(u: Unicode, cfg: Config, m: Marks, ps: seq<string>)
    requires NoneAtomic(m, ps) && TokensOf(cfg, ps) <= cfg.maxTokens
    ensures
      var (g, run) := Units(u, cfg, m, ps);
      && run == 0 && Texts(g) == ps && Sum(g) == TokensOf(cfg, ps)
      && forall i :: 0 <= i < |g| ==> !g[i].hard && g[i].run == 0
  {
    hide Tokens, Paras, Units;
    if ps == [] {
      NoUnits(u, cfg, m, [], 0);
    } else {
      var (front, last) := (ps[..|ps| - 1], ps[|ps| - 1]);
      assert ps == front + [last] && last == ps[|front|];
      assert forall i :: 0 <= i < |front| ==> front[i] == ps[i];
      ShortUnits(u, cfg, m, front);
      UnitsMore(u, cfg, m, front, last);
      TextsMore(Units(u, cfg, m, front).0, UnitOf(cfg, m, last, 0));
      hide Texts, Sum;
    }
  }

  function TokensOf(cfg: Config, ps: seq<string>): nat {
    if ps == [] then 0 else TokensOf(cfg, ps[..|ps| - 1]) + Tokens(cfg, ps[|ps| - 1])
  }

  /** Paragraphs that fit a chunk together are packed as one, however long that is. */
  lemma ManyPacked(u: Unicode, cfg: Config, m: Marks, ps: seq<string>)
    requires ps != [] && NoneAtomic(m, ps) && TokensOf(cfg, ps) <= cfg.maxTokens
    ensures PackedOf(u, cfg, m, ps) == [Joined(ps)]
  {
    ShortUnits(u, cfg, m, ps);
    var g := Units(u, cfg, m, ps).0;
    hide Units, TokensOf, Joined;
    assert |g| == |Texts(g)|;
    PackedOne(u, cfg, m, ps, g);
  }

  /** The two ways over the limit: one paragraph too long for a chunk, and paragraphs that fit a
      chunk by their tokens. Either comes out as it is, whatever the limit. */
  lemma HardLimitExceeded(u: Unicode, cfg: Config, m: Marks, ps: seq<string>)
    requires u.isSpace('\n') && cfg.splitLong && ps != [] && AllAloneIn(u, ps) && Joined(ps) != ""
    requires !m.anyHeading(Joined(ps)) && Unfenced(u, cfg, Ink(u, Joined(ps)))
    requires (|ps| == 1 && Tokens(cfg, ps[0]) > cfg.maxTokens) ||
      (NoneAtomic(m, ps) && TokensOf(cfg, ps) <= cfg.maxTokens)
    ensures WholeOf(u, cfg, m, Joined(ps)) == [Joined(ps)]
  {
    hide Tokens, Paras, PackedOf, WholeOf, Ink, TokensOf, Joined, ParasAll;
    HardLimitIsIdle(u, cfg, m, Joined(ps));
    ParasJoined(u, ps);
    AllAlone(u, ps);
    if NoneAtomic(m, ps) && TokensOf(cfg, ps) <= cfg.maxTokens {
      ManyPacked(u, cfg, m, ps);
    } else {
      assert ps == [ps[0]];
      OneJoined(ps[0]);
      LongPacked(u, cfg, m, ps[0]);
    }
  }

  // ---- limits from the bound on ----

  /** The paragraphs of the blocks: those of the text, and of its fences one by one. */
  function Parts(u: Unicode, cfg: Config, text: string): seq<string> {
    ParasAll(u, BlocksOf(u, text, cfg.preserveCode))
  }

  lemma SectionsParts(u: Unicode, cfg: Config, m: Marks, text: string)
    requires u.isSpace('\n')
    ensures ParasAll(u, PackedOf(u, cfg, m, SectionsOf(u, cfg, m, text))) == Parts(u, cfg, text)
  {
    hide PackedOf, BlocksOf, JoinedAll, GroupsAtHeadings, Sectioned, ParasAll;
    var blocks := BlocksOf(u, text, cfg.preserveCode);
    PackedParas(u, cfg, m, SectionsOf(u, cfg, m, text));
    GroupsAreSections(m, blocks);
    JoinedAllParas(u, GroupsAtHeadings(m, blocks));
  }

  /** A chunk over such a limit is a paragraph too long for a chunk, and is packed as it is. */
  lemma LongAgain(u: Unicode, cfg: Config, m: Marks, text: string, x: string)
    requires u.isSpace('\n') && !u.isSpace('`') && cfg.hardMaxChars >= Bound(cfg)
    requires x in PackedOf(u, cfg, m, SectionsOf(u, cfg, m, text)) && |x| > cfg.hardMaxChars
    ensures PackedOf(u, cfg, m, BlocksOf(u, x, cfg.preserveCode)) == [x]
  {
    hide PackedOf, SectionsOf, BlocksOf, Paras, ParasAll, Tokens, Bound;
    var chunks := PackedOf(u, cfg, m, SectionsOf(u, cfg, m, text));
    var i :| 0 <= i < |chunks| && chunks[i] == x;
    PackedSized(u, cfg, m, SectionsOf(u, cfg, m, text), i);
    SectionsParts(u, cfg, m, text);
    ParasOfAll(u, chunks, x);
    assert Paras(u, x) == [x] && x in Paras(u, x);
    PartsAgain(u, text, cfg.preserveCode, x);
    LongPacked(u, cfg, m, x);
  }

  lemma {:induction false} NoneAgain(u: Unicode, cfg: Config, m: Marks, chunks: seq<string>)
    requires forall x :: x in chunks && |x| > cfg.hardMaxChars ==>
      PackedOf(u, cfg, m, BlocksOf(u, x, cfg.preserveCode)) == [x]
    ensures RepackedOf(u, cfg, m, chunks) == chunks
  {
    hide PackedOf, BlocksOf;
    if chunks != [] {
      var (front, last) := (chunks[..|chunks| - 1], chunks[|chunks| - 1]);
      assert chunks == front + [last];
      NoneAgain(u, cfg, m, front);
    }
  }

  /** From the bound on packing again changes nothing, on any text. */
  lemma RepackIsIdleAbove(u: Unicode, cfg: Config, m: Marks, text: string)
    requires u.isSpace('\n') && !u.isSpace('`') && cfg.hardMaxChars >= Bound(cfg)
    ensures
      var chunks := PackedOf(u, cfg, m, SectionsOf(u, cfg, m, text));
      RepackedOf(u, cfg, m, chunks) == chunks
  {
    hide PackedOf, SectionsOf, BlocksOf, Bound;
    var chunks := PackedOf(u, cfg, m, SectionsOf(u, cfg, m, text));
    forall x | x in chunks && |x| > cfg.hardMaxChars
      ensures PackedOf(u, cfg, m, BlocksOf(u, x, cfg.preserveCode)) == [x]
    {
      LongAgain(u, cfg, m, text, x);
    }
    NoneAgain(u, cfg, m, chunks);
  }

  /** Before overlap: from the bound on, chunks are within the limit exactly when the paragraphs are. */
  lemma ChunksWithinIff(u: Unicode, cfg: Config, m: Marks, text: string)
    requires u.isSpace('\n') && !u.isSpace('`') && text != "" && cfg.splitLong && cfg.hardMaxChars >= Bound(cfg)
    ensures AllWithin(WholeOf(u, cfg, m, text), cfg.hardMaxChars) <==> AllWithin(Parts(u, cfg, text), cfg.hardMaxChars)
  {
    hide PackedOf, SectionsOf, RepackedOf, Parts, Tokens, Bound, Paras, ParasAll;
    if Tokens(cfg, text) <= cfg.maxTokens && |text| <= cfg.hardMaxChars {
      PartsShorter(u, cfg, text);
    } else {
      var chunks := PackedOf(u, cfg, m, SectionsOf(u, cfg, m, text));
      RepackIsIdleAbove(u, cfg, m, text);
      SectionsParts(u, cfg, m, text);
      if AllWithin(chunks, cfg.hardMaxChars) {
        ParasFit(u, chunks, cfg.hardMaxChars);
      }
      forall x | x in chunks && |x| > cfg.hardMaxChars ensures x in Parts(u, cfg, text) {
        var i :| 0 <= i < |chunks| && chunks[i] == x;
        PackedSized(u, cfg, m, SectionsOf(u, cfg, m, text), i);
        ParasOfAll(u, chunks, x);
        assert x in Paras(u, x);
      }
    }
  }

  /** Without overlap: from the bound on, segments are within the limit exactly when the paragraphs
      are. */
  lemma HardLimitIff(u: Unicode, cfg: Config, m: Marks, text: string)
    requires u.isSpace('\n') && !u.isSpace('`') && text != "" && cfg.splitLong && cfg.hardMaxChars >= Bound(cfg)
    requires cfg.overlapRatio <= 0.0
    ensures AllWithin(SegmentsOf(u, cfg, m, text), cfg.hardMaxChars)
       <==> AllWithin(Parts(u, cfg, text), cfg.hardMaxChars)
  {
    hide WholeOf, WithOverlap, Parts, Bound, AllWithin;
    NoOverlap(u, cfg, m, WholeOf(u, cfg, m, text));
    ChunksWithinIff(u, cfg, m, text);
  }

  lemma {:induction false} BlocksShorter(u: Unicode, text: string, pos: nat)
    requires pos <= |text|
    ensures AllWithin(BlocksFrom(u, text, pos), |text|)
    decreases |text| - pos
  {
    hide Paras, Strip, NextFence;
    var (start, end) := NextFence(text, pos);
    if start < 0 {
      ParasShorter(u, text[pos..]);
    } else {
      ParasShorter(u, text[pos..start]);
      StripLeftShorter(u, text[start..end]);
      StripRightShorter(u, StripLeft(u, text[start..end]));
      StripIs(u, text[start..end]);
      BlocksShorter(u, text, end);
    }
  }

  lemma StripIs(u: Unicode, s: string)
    ensures Strip(u, s) == StripRight(u, StripLeft(u, s))
  {
  }

  lemma PartsShorter(u: Unicode, cfg: Config, text: string)
    ensures AllWithin(Parts(u, cfg, text), |text|)
  {
    hide Paras, ParasAll;
    BlocksShorter(u, text, 0);
    ParasShorter(u, text);
    ParasFit(u, BlocksOf(u, text, cfg.preserveCode), |text|);
  }
}
