/** Segmentation of a document: sections packed greedily, small chunks merged. */
module Segment {
  import opened Collections
  import opened Normalize
  import opened Paragraphs
  import opened Packing

  function UnitOf(cfg: Config, m: Marks, text: string, run: int): Unit {
    Unit(text, Tokens(cfg, text), m.atomic(text), run)
  }

  function ParaUnits(cfg: Config, m: Marks, paras: seq<string>, run: int): (us: seq<Unit>)
    ensures |us| == |paras|
  {
    seq(|paras|, i requires 0 <= i < |paras| => UnitOf(cfg, m, paras[i], run))
  }

  /** What is packed: a section, or the paragraphs of a section that is too long, in a run of their
      own. Also the run that sections are in afterwards. */
  function Units(u: Unicode, cfg: Config, m: Marks, sections: seq<string>): (r: (seq<Unit>, int))
    ensures forall i :: 0 <= i < |r.0| ==> r.0[i].run <= r.1
  {
    if sections == [] then ([], 0)
    else
      var ((us, run), last) := (Units(u, cfg, m, sections[..|sections| - 1]), sections[|sections| - 1]);
      if Tokens(cfg, last) > cfg.maxTokens then (us + ParaUnits(cfg, m, Paras(u, last), run + 1), run + 2)
      else (us + [UnitOf(cfg, m, last, run)], run)
  }

  // ---- packing ----

  /** The variables of a packing loop stand for closed groups and an open one. */
  ghost predicate Holds(
    units: seq<Unit>, run: int, max: int, closed: seq<seq<Unit>>, open: seq<Unit>,
    chunks: seq<string>, current: seq<string>, tokens: int) {
    && Packed(units, closed, open, run, max)
    && chunks == Chunks(closed) && current == Texts(open) && tokens == Sum(open)
  }

  function Flushed(chunks: seq<string>, current: seq<string>): seq<string> {
    if current != [] then chunks + [Joined(current)] else chunks
  }

  lemma HoldsFlushed(
    units: seq<Unit>, run: int, max: int, closed: seq<seq<Unit>>, open: seq<Unit>,
    chunks: seq<string>, current: seq<string>, tokens: int)
    requires Holds(units, run, max, closed, open, chunks, current, tokens)
    ensures Flushed(chunks, current) == Chunks(WithOpen(closed, open))
    ensures Greedy(WithOpen(closed, open), max) && Flat(WithOpen(closed, open)) == units
  {
    ChunksMore(closed, open);
  }

  lemma HoldsHard(
    units: seq<Unit>, run: int, max: int, closed: seq<seq<Unit>>, open: seq<Unit>,
    chunks: seq<string>, current: seq<string>, tokens: int, u: Unit)
    requires Holds(units, run, max, closed, open, chunks, current, tokens) && u.hard
    ensures Holds(units + [u], run, max, WithOpen(closed, open) + [[u]], [], Flushed(chunks, current) + [u.text], [], 0)
  {
    PackHard(units, closed, open, run, max, u);
    HoldsFlushed(units, run, max, closed, open, chunks, current, tokens);
    hide Packed;
    ChunksMore(WithOpen(closed, open), [u]);
    TextsMore([], u);
  }

  lemma HoldsOverflow(
    units: seq<Unit>, run: int, max: int, closed: seq<seq<Unit>>, open: seq<Unit>,
    chunks: seq<string>, current: seq<string>, tokens: int, u: Unit)
    requires Holds(units, run, max, closed, open, chunks, current, tokens) && !u.hard && u.run == run
    requires current != [] && tokens + u.tokens > max
    ensures Holds(units + [u], run, max, closed + [open], [u], chunks + [Joined(current)], [u.text], u.tokens)
  {
    PackOverflow(units, closed, open, run, max, u);
    hide Packed;
    ChunksMore(closed, open);
    TextsMore([], u);
  }

  lemma HoldsJoin(
    units: seq<Unit>, run: int, max: int, closed: seq<seq<Unit>>, open: seq<Unit>,
    chunks: seq<string>, current: seq<string>, tokens: int, u: Unit)
    requires Holds(units, run, max, closed, open, chunks, current, tokens) && !u.hard && u.run == run
    requires current != [] ==> tokens + u.tokens <= max
    ensures Holds(units + [u], run, max, closed, open + [u], chunks, current + [u.text], tokens + u.tokens)
  {
    PackJoin(units, closed, open, run, max, u);
    hide Packed;
    TextsMore(open, u);
  }

  /** The paragraphs of one section that is too long. */
  method PackParagraphs(cfg: Config, m: Marks, paras: seq<string>, ghost run: int)
    returns (chunks: seq<string>)
    ensures chunks == Chunks(GroupsOf(ParaUnits(cfg, m, paras, run), cfg.maxTokens))
  {
    hide Tokens, Greedy, Flat, Joined;
    chunks := [];
    var buf: seq<string>, bufTokens := [], 0;
    ghost var closed: seq<seq<Unit>>, open: seq<Unit> := [], [];
    StartHolds(run, cfg.maxTokens);
    assert ParaUnits(cfg, m, paras[..0], run) == [];
    for i := 0 to |paras|
      invariant Holds(ParaUnits(cfg, m, paras[..i], run), run, cfg.maxTokens, closed, open, chunks, buf, bufTokens)
    {
      hide Holds;
      var para := paras[i];
      var pt := Tokens(cfg, para);
      ghost var (before, unit) := (ParaUnits(cfg, m, paras[..i], run), UnitOf(cfg, m, para, run));
      assert ParaUnits(cfg, m, paras[..i + 1], run) == before + [unit];
      hide ParaUnits;
      if buf == [] {
        HoldsEmpty(before, run, cfg.maxTokens, closed, open, chunks, buf, bufTokens);
      }
      if m.atomic(para) {
        HoldsHard(before, run, cfg.maxTokens, closed, open, chunks, buf, bufTokens, unit);
        if buf != [] {
          chunks := chunks + [Joined(buf)];
          buf, bufTokens := [], 0;
        }
        chunks := chunks + [para];
        closed, open := WithOpen(closed, open) + [[unit]], [];
      } else if bufTokens + pt > cfg.maxTokens && buf != [] {
        HoldsOverflow(before, run, cfg.maxTokens, closed, open, chunks, buf, bufTokens, unit);
        chunks := chunks + [Joined(buf)];
        buf, bufTokens := [para], pt;
        closed, open := closed + [open], [unit];
      } else {
        HoldsJoin(before, run, cfg.maxTokens, closed, open, chunks, buf, bufTokens, unit);
        buf, bufTokens := buf + [para], bufTokens + pt;
        open := open + [unit];
      }
    }
    assert paras[..|paras|] == paras;
    HoldsFlushed(ParaUnits(cfg, m, paras, run), run, cfg.maxTokens, closed, open, chunks, buf, bufTokens);
    GreedyIs(WithOpen(closed, open), ParaUnits(cfg, m, paras, run), cfg.maxTokens);
    hide GroupsOf, Chunks, ParaUnits;
    if buf != [] {
      chunks := chunks + [Joined(buf)];
    }
  }

  lemma StartHolds(run: int, max: int)
    ensures Holds([], run, max, [], [], [], [], 0)
  {
  }

  lemma ChunksMore(gs: seq<seq<Unit>>, g: seq<Unit>)
    ensures Chunks(gs + [g]) == Chunks(gs) + [Joined(Texts(g))]
  {
  }

  lemma TextsMore(g: seq<Unit>, u: Unit)
    ensures Texts(g + [u]) == Texts(g) + [u.text] && Sum(g + [u]) == Sum(g) + u.tokens
    ensures Texts([u]) == [u.text] && Sum([u]) == u.tokens && Joined([u.text]) == u.text
  {
    SumMore(g, u);
    SumMore([], u);
    assert [] + [u] == [u];
  }

  /** A section that is not too long: what the packing loop does with it. */
  lemma HoldsSection(
    u: Unicode, cfg: Config, m: Marks, sections: seq<string>, closed: seq<seq<Unit>>, open: seq<Unit>,
    chunks: seq<string>, current: seq<string>, tokens: int, section: string) returns (unit: Unit)
    requires HoldsSections(u, cfg, m, sections, closed, open, chunks, current, tokens) &&
      Tokens(cfg, section) <= cfg.maxTokens
    ensures
      var (t, more) := (Tokens(cfg, section), sections + [section]);
      if m.atomic(section) then
        HoldsSections(u, cfg, m, more, WithOpen(closed, open) + [[unit]], [], Flushed(chunks, current) + [section],
          [], 0)
      else if tokens + t > cfg.maxTokens && current != [] then
        HoldsSections(u, cfg, m, more, closed + [open], [unit], chunks + [Joined(current)], [section], t)
      else HoldsSections(u, cfg, m, more, closed, open + [unit], chunks, current + [section], tokens + t)
  {
    hide Tokens, Units, Holds, Joined;
    var (before, run) := Units(u, cfg, m, sections);
    UnitsMore(u, cfg, m, sections, section);
    unit := UnitOf(cfg, m, section, run);
    if m.atomic(section) {
      HoldsHard(before, run, cfg.maxTokens, closed, open, chunks, current, tokens, unit);
    } else if tokens + unit.tokens > cfg.maxTokens && current != [] {
      HoldsOverflow(before, run, cfg.maxTokens, closed, open, chunks, current, tokens, unit);
    } else {
      HoldsJoin(before, run, cfg.maxTokens, closed, open, chunks, current, tokens, unit);
    }
  }

  lemma NoneCurrent(
    u: Unicode, cfg: Config, m: Marks, sections: seq<string>, closed: seq<seq<Unit>>, open: seq<Unit>,
    chunks: seq<string>, current: seq<string>, tokens: int)
    requires HoldsSections(u, cfg, m, sections, closed, open, chunks, current, tokens)
    ensures current == [] ==> tokens == 0
  {
    hide Units, Packed;
  }

  /** After the last section, the chunks are those of the greedy grouping. */
  lemma HoldsAll(
    u: Unicode, cfg: Config, m: Marks, sections: seq<string>, closed: seq<seq<Unit>>, open: seq<Unit>,
    chunks: seq<string>, current: seq<string>, tokens: int)
    requires HoldsSections(u, cfg, m, sections, closed, open, chunks, current, tokens)
    ensures Flushed(chunks, current) == Chunks(GroupsOf(Units(u, cfg, m, sections).0, cfg.maxTokens))
  {
    hide Units, Holds, Greedy, Flat, GroupsOf, Chunks;
    var (units, run) := Units(u, cfg, m, sections);
    HoldsFlushed(units, run, cfg.maxTokens, closed, open, chunks, current, tokens);
    GreedyIs(WithOpen(closed, open), units, cfg.maxTokens);
  }

  /** All sections, before small chunks are merged: the one greedy grouping of the units. */
  method Pack(u: Unicode, cfg: Config, m: Marks, sections: seq<string>)
    returns (chunks: seq<string>)
    ensures chunks == Chunks(GroupsOf(Units(u, cfg, m, sections).0, cfg.maxTokens))
  {
    hide Tokens, Greedy, Flat, Joined, Chunks, Texts, Paras, GroupsOf;
    chunks := [];
    var current: seq<string>, currentTokens := [], 0;
    ghost var closed: seq<seq<Unit>>, open: seq<Unit> := [], [];
    StartHolds(0, cfg.maxTokens);
    for i := 0 to |sections|
      invariant HoldsSections(u, cfg, m, sections[..i], closed, open, chunks, current, currentTokens)
    {
      hide HoldsSections, Units, WithOpen;
      var section := sections[i];
      var secTokens := Tokens(cfg, section);
      NoneCurrent(u, cfg, m, sections[..i], closed, open, chunks, current, currentTokens);
      assert sections[..i] + [section] == sections[..i + 1];
      ghost var unit := UnitOf(cfg, m, section, 0);
      if secTokens <= cfg.maxTokens {
        unit := HoldsSection(u, cfg, m, sections[..i], closed, open, chunks, current, currentTokens, section);
      }
      if m.atomic(section) && secTokens <= cfg.maxTokens {
        if current != [] {
          chunks := chunks + [Joined(current)];
          current, currentTokens := [], 0;
        }
        chunks := chunks + [section];
        closed, open := WithOpen(closed, open) + [[unit]], [];
        continue;
      }
      if secTokens > cfg.maxTokens {
        ghost var gs := LongGroups(u, cfg, m, sections[..i], section);
        HoldsRun(u, cfg, m, sections[..i], closed, open, chunks, current, currentTokens, section, gs);
        var inner := PackParagraphs(cfg, m, Paras(u, section), Units(u, cfg, m, sections[..i]).1 + 1);
        if current != [] {
          chunks := chunks + [Joined(current)];
          current, currentTokens := [], 0;
        }
        chunks := chunks + inner;
        closed, open := WithOpen(closed, open) + gs, [];
        continue;
      }
      if currentTokens + secTokens > cfg.maxTokens && current != [] {
        chunks := chunks + [Joined(current)];
        current, currentTokens := [section], secTokens;
        closed, open := closed + [open], [unit];
        continue;
      }
      current, currentTokens := current + [section], currentTokens + secTokens;
      open := open + [unit];
    }
    assert sections[..|sections|] == sections;
    HoldsAll(u, cfg, m, sections, closed, open, chunks, current, currentTokens);
    hide HoldsSections, Units;
    if current != [] {
      chunks := chunks + [Joined(current)];
    }
  }

  /** The groups that the paragraphs of a long section make. */
  lemma LongGroups(u: Unicode, cfg: Config, m: Marks, sections: seq<string>, section: string)
      returns (gs: seq<seq<Unit>>)
    ensures
      var units := ParaUnits(cfg, m, Paras(u, section), Units(u, cfg, m, sections).1 + 1);
      gs == GroupsOf(units, cfg.maxTokens) && Greedy(gs, cfg.maxTokens) && Flat(gs) == units
  {
    hide Greedy, Flat, GroupsOf, ParaUnits, Units, Paras;
    var units := ParaUnits(cfg, m, Paras(u, section), Units(u, cfg, m, sections).1 + 1);
    gs := GroupsOf(units, cfg.maxTokens);
    GroupsGreedy(units, cfg.maxTokens);
  }

  lemma UnitsMore(u: Unicode, cfg: Config, m: Marks, sections: seq<string>, last: string)
    ensures
      var (units, run) := Units(u, cfg, m, sections);
      Units(u, cfg, m, sections + [last]) ==
      if Tokens(cfg, last) > cfg.maxTokens then (units + ParaUnits(cfg, m, Paras(u, last), run + 1), run + 2)
      else (units + [UnitOf(cfg, m, last, run)], run)
  {
    assert (sections + [last])[..|sections|] == sections;
  }

  lemma HoldsEmpty(
    units: seq<Unit>, run: int, max: int, closed: seq<seq<Unit>>, open: seq<Unit>,
    chunks: seq<string>, current: seq<string>, tokens: int)
    requires Holds(units, run, max, closed, open, chunks, current, tokens) && current == []
    ensures tokens == 0
  {
  }

  ghost predicate HoldsSections(
    u: Unicode, cfg: Config, m: Marks, sections: seq<string>, closed: seq<seq<Unit>>, open: seq<Unit>,
    chunks: seq<string>, current: seq<string>, tokens: int) {
    var (units, run) := Units(u, cfg, m, sections);
    Holds(units, run, cfg.maxTokens, closed, open, chunks, current, tokens)
  }

  lemma HoldsRun(
    u: Unicode, cfg: Config, m: Marks, sections: seq<string>, closed: seq<seq<Unit>>, open: seq<Unit>,
    chunks: seq<string>, current: seq<string>, tokens: int, section: string, inner: seq<seq<Unit>>)
    requires HoldsSections(u, cfg, m, sections, closed, open, chunks, current, tokens) &&
      Tokens(cfg, section) > cfg.maxTokens
    requires Greedy(inner, cfg.maxTokens)
    requires Flat(inner) == ParaUnits(cfg, m, Paras(u, section), Units(u, cfg, m, sections).1 + 1)
    ensures HoldsSections(u, cfg, m, sections + [section], WithOpen(closed, open) + inner, [],
                          Flushed(chunks, current) + Chunks(inner), [], 0)
  {
    var (units, run) := Units(u, cfg, m, sections);
    HoldsFlushed(units, run, cfg.maxTokens, closed, open, chunks, current, tokens);
    PackRun(u, cfg, m, sections, closed, open, section, inner);
    ChunksJoin(WithOpen(closed, open), inner);
    hide Packed, Units, Greedy, Flat;
  }

  ghost predicate PackedSections(
    u: Unicode, cfg: Config, m: Marks, sections: seq<string>, closed: seq<seq<Unit>>, open: seq<Unit>) {
    var (units, run) := Units(u, cfg, m, sections);
    Packed(units, closed, open, run, cfg.maxTokens)
  }

  lemma ChunksJoin(gs: seq<seq<Unit>>, hs: seq<seq<Unit>>)
    ensures Chunks(gs + hs) == Chunks(gs) + Chunks(hs)
  {
  }

  /** The first unit of a group is one of the units. */
  lemma {:induction false} FirstOf(gs: seq<seq<Unit>>, i: nat) returns (k: nat)
    requires i < |gs| && gs[i] != []
    ensures k < |Flat(gs)| && Flat(gs)[k] == gs[i][0]
  {
    var n := |gs| - 1;
    if i == n {
      k := |Flat(gs[..n])|;
    } else {
      k := FirstOf(gs[..n], i);
    }
  }

  /** The groups of a long section follow on: they are of a later run. */
  lemma PackRun(
    u: Unicode, cfg: Config, m: Marks, sections: seq<string>, closed: seq<seq<Unit>>, open: seq<Unit>,
    section: string, inner: seq<seq<Unit>>)
    requires PackedSections(u, cfg, m, sections, closed, open) && Tokens(cfg, section) > cfg.maxTokens
    requires Greedy(inner, cfg.maxTokens)
    requires Flat(inner) == ParaUnits(cfg, m, Paras(u, section), Units(u, cfg, m, sections).1 + 1)
    ensures PackedSections(u, cfg, m, sections + [section], WithOpen(closed, open) + inner, [])
  {
    var (units, run) := Units(u, cfg, m, sections);
    var gs: seq<seq<Unit>> := WithOpen(closed, open);
    UnitsMore(u, cfg, m, sections, section);
    LaterRun(inner, run + 1, cfg.maxTokens);
    EarlierRun(gs, run, cfg.maxTokens);
    hide Flat, Units, ParaUnits, Greedy;
    GreedyJoin(gs, inner, cfg.maxTokens);
    FlatJoin(gs, inner);
  }

  lemma LaterRun(gs: seq<seq<Unit>>, run: int, max: int)
    requires Greedy(gs, max) && forall k :: 0 <= k < |Flat(gs)| ==> Flat(gs)[k].run == run
    ensures forall i :: 0 <= i < |gs| ==> gs[i] != [] && gs[i][0].run == run
  {
    forall i | 0 <= i < |gs| ensures gs[i] != [] && gs[i][0].run == run {
      assert Fits(gs[i], max);
      var k := FirstOf(gs, i);
    }
  }

  lemma EarlierRun(gs: seq<seq<Unit>>, run: int, max: int)
    requires Greedy(gs, max) && forall k :: 0 <= k < |Flat(gs)| ==> Flat(gs)[k].run <= run
    ensures forall i :: 0 <= i < |gs| ==> gs[i] != [] && gs[i][0].run <= run
  {
    forall i | 0 <= i < |gs|
      ensures gs[i] != [] && gs[i][0].run <= run
    {
      assert Fits(gs[i], max);
      var k := FirstOf(gs, i);
    }
  }

  lemma GreedyJoin(gs: seq<seq<Unit>>, hs: seq<seq<Unit>>, max: int)
    requires Greedy(gs, max) && Greedy(hs, max)
    requires gs != [] && hs != [] ==> gs[|gs| - 1] != [] && hs[0] != [] && Apart(gs[|gs| - 1], hs[0], max)
    ensures Greedy(gs + hs, max)
  {
    forall i | 0 <= i < |gs + hs| - 1 ensures Apart((gs + hs)[i], (gs + hs)[i + 1], max) {
      if i >= |gs| {
        assert Apart(hs[i - |gs|], hs[i - |gs| + 1], max);
      }
    }
  }

  // ---- merging small chunks ----

  function Pair(a: string, b: string): string {
    a + "\n\n" + b
  }

  function JoinedAll(ms: seq<seq<string>>): (cs: seq<string>)
    ensures |cs| == |ms|
  {
    seq(|ms|, i requires 0 <= i < |ms| => Joined(ms[i]))
  }

  predicate Small(cfg: Config, chunk: string) {
    Tokens(cfg, chunk) < cfg.minTokens / 2
  }

  /** Whether `chunk` goes into the chunk made of `g`. */
  predicate Absorbs(cfg: Config, g: seq<string>, chunk: string) {
    Small(cfg, chunk) && Tokens(cfg, Pair(Joined(g), chunk)) <= cfg.maxTokens
  }

  ghost predicate Absorbed(cfg: Config, g: seq<string>) {
    g != [] && forall j :: 0 < j < |g| ==> Absorbs(cfg, g[..j], g[j])
  }

  predicate StaysOut(cfg: Config, g: seq<string>, h: seq<string>) {
    h != [] && !Absorbs(cfg, g, h[0])
  }

  /** A chunk was absorbed exactly where it could be. */
  ghost predicate Merged(cfg: Config, ms: seq<seq<string>>) {
    && (forall i :: 0 <= i < |ms| ==> Absorbed(cfg, ms[i]))
    && (forall i :: 0 <= i < |ms| - 1 ==> StaysOut(cfg, ms[i], ms[i + 1]))
  }

  lemma JoinedMore(xs: seq<string>, x: string)
    ensures Joined(xs + [x]) == if xs == [] then x else Pair(Joined(xs), x)
  {
    assert (xs + [x])[..|xs|] == xs;
  }

  lemma MergedMore(cfg: Config, ms: seq<seq<string>>, g: seq<string>)
    requires Merged(cfg, ms) && Absorbed(cfg, g) && (ms == [] || StaysOut(cfg, ms[|ms| - 1], g))
    ensures Merged(cfg, ms + [g])
  {
    hide Absorbed, StaysOut;
    forall i | 0 <= i < |ms| ensures StaysOut(cfg, (ms + [g])[i], (ms + [g])[i + 1]) {
      assert (ms + [g])[i] == ms[i];
    }
  }

  lemma MergedLess(cfg: Config, ms: seq<seq<string>>, g: seq<string>)
    requires Merged(cfg, ms + [g])
    ensures Merged(cfg, ms) && Absorbed(cfg, g) && g != [] && (ms == [] || StaysOut(cfg, ms[|ms| - 1], g))
  {
    assert (ms + [g])[|ms|] == g;
    assert g != [];
    hide Absorbed, StaysOut;
    var all := ms + [g];
    assert all[|ms|] == g;
    forall i | 0 <= i < |ms| ensures Absorbed(cfg, ms[i]) {
      assert all[i] == ms[i];
    }
    forall i | 0 <= i < |ms| - 1 ensures StaysOut(cfg, ms[i], ms[i + 1]) {
      assert StaysOut(cfg, all[i], all[i + 1]);
    }
    if ms != [] {
      assert StaysOut(cfg, all[|ms| - 1], all[|ms|]);
    }
  }

  lemma JoinedAllMore(ms: seq<seq<string>>, g: seq<string>)
    ensures JoinedAll(ms + [g]) == JoinedAll(ms) + [Joined(g)]
  {
    hide Joined;
  }

  lemma MergedApart(cfg: Config, ms: seq<seq<string>>, chunk: string)
    requires Merged(cfg, ms) && (ms == [] || !Absorbs(cfg, ms[|ms| - 1], chunk))
    ensures Merged(cfg, ms + [[chunk]]) && JoinedAll(ms + [[chunk]]) == JoinedAll(ms) + [chunk]
    ensures Flat(ms + [[chunk]]) == Flat(ms) + [chunk]
  {
    FlatMore(ms, [chunk]);
    JoinedMore([], chunk);
    assert [] + [chunk] == [chunk];
    JoinedAllMore(ms, [chunk]);
    MergedMore(cfg, ms, [chunk]);
    hide Absorbs, Joined, Flat, Merged, JoinedAll;
  }

  lemma AbsorbedMore(cfg: Config, g: seq<string>, chunk: string)
    requires Absorbed(cfg, g) && Absorbs(cfg, g, chunk)
    ensures Absorbed(cfg, g + [chunk])
  {
    hide Absorbs;
    var all := g + [chunk];
    forall j | 0 < j < |all| ensures Absorbs(cfg, all[..j], all[j]) {
      if j == |g| {
        assert all[..j] == g;
      } else {
        assert all[..j] == g[..j];
      }
    }
  }

  lemma StaysOutMore(cfg: Config, g: seq<string>, h: seq<string>, chunk: string)
    requires StaysOut(cfg, g, h)
    ensures StaysOut(cfg, g, h + [chunk])
  {
    hide Absorbs;
    assert (h + [chunk])[0] == h[0];
  }

  /** The last chunk grows. */
  lemma MergedInto(cfg: Config, ms: seq<seq<string>>, g: seq<string>, chunk: string)
    requires Merged(cfg, ms + [g]) && Absorbs(cfg, g, chunk)
    ensures Merged(cfg, ms + [g + [chunk]]) && JoinedAll(ms + [g + [chunk]]) == JoinedAll(ms) + [Pair(Joined(g), chunk)]
    ensures Flat(ms + [g + [chunk]]) == Flat(ms + [g]) + [chunk]
  {
    hide Absorbs, Absorbed, StaysOut, Joined, Flat, Merged, JoinedAll;
    MergedLess(cfg, ms, g);
    AbsorbedMore(cfg, g, chunk);
    if ms != [] {
      StaysOutMore(cfg, ms[|ms| - 1], g, chunk);
    }
    MergedMore(cfg, ms, g + [chunk]);
    FlatMore(ms, g);
    FlatMore(ms, g + [chunk]);
    assert Flat(ms) + g + [chunk] == Flat(ms) + (g + [chunk]);
    JoinedMore(g, chunk);
    JoinedAllMore(ms, g + [chunk]);
  }

  /** Each chunk goes into the merged chunk before it if that can absorb it. */
  function MergedOf(cfg: Config, chunks: seq<string>): seq<seq<string>> {
    if chunks == [] then []
    else
      var (ms, chunk) := (MergedOf(cfg, chunks[..|chunks| - 1]), chunks[|chunks| - 1]);
      var n := |ms| - 1;
      if ms != [] && Absorbs(cfg, ms[n], chunk) then ms[..n] + [ms[n] + [chunk]] else ms + [[chunk]]
  }

  lemma {:induction false} MergedOfIs(cfg: Config, chunks: seq<string>)
    ensures Merged(cfg, MergedOf(cfg, chunks)) && Flat(MergedOf(cfg, chunks)) == chunks
  {
    hide Merged, Flat, Absorbs, JoinedAll, Joined;
    if chunks == [] {
      MergedNone(cfg);
    } else {
      var (front, chunk) := (chunks[..|chunks| - 1], chunks[|chunks| - 1]);
      MergedOfIs(cfg, front);
      assert chunks == front + [chunk];
      var ms := MergedOf(cfg, front);
      if ms != [] && Absorbs(cfg, ms[|ms| - 1], chunk) {
        assert ms == ms[..|ms| - 1] + [ms[|ms| - 1]];
        MergedInto(cfg, ms[..|ms| - 1], ms[|ms| - 1], chunk);
      } else {
        MergedApart(cfg, ms, chunk);
      }
    }
  }

  lemma MergedNone(cfg: Config)
    ensures Merged(cfg, []) && Flat<string>([]) == []
  {
  }

  lemma MergedOfMore(cfg: Config, chunks: seq<string>, chunk: string)
    ensures
      var (ms, merged) := (MergedOf(cfg, chunks), JoinedAll(MergedOf(cfg, chunks)));
      var n := |ms| - 1;
      JoinedAll(MergedOf(cfg, chunks + [chunk])) ==
      if ms != [] && Small(cfg, chunk) && Tokens(cfg, Pair(merged[n], chunk)) <= cfg.maxTokens
      then merged[..n] + [Pair(merged[n], chunk)] else merged + [chunk]
  {
    hide Merged, Flat, Tokens, Joined, Small, Pair;
    var ms := MergedOf(cfg, chunks);
    var n := |ms| - 1;
    assert (chunks + [chunk])[..|chunks|] == chunks;
    JoinedMore([], chunk);
    assert [] + [chunk] == [chunk];
    MergedOfIs(cfg, chunks);
    if ms != [] && Absorbs(cfg, ms[n], chunk) {
      assert ms == ms[..n] + [ms[n]];
      MergedLess(cfg, ms[..n], ms[n]);
      JoinedMore(ms[n], chunk);
      JoinedAllMore(ms[..n], ms[n] + [chunk]);
      JoinedAllMore(ms[..n], ms[n]);
    } else {
      JoinedAllMore(ms, [chunk]);
    }
  }

  method MergeSmall(cfg: Config, chunks: seq<string>) returns (merged: seq<string>)
    ensures merged == JoinedAll(MergedOf(cfg, chunks))
  {
    merged := [];
    for i := 0 to |chunks|
      invariant merged == JoinedAll(MergedOf(cfg, chunks[..i]))
    {
      hide MergedOf, Tokens;
      var chunk := chunks[i];
      assert chunks[..i + 1] == chunks[..i] + [chunk];
      MergedOfMore(cfg, chunks[..i], chunk);
      if merged != [] && Tokens(cfg, chunk) < cfg.minTokens / 2 {
        var n := |merged| - 1;
        var prev := merged[n];
        if Tokens(cfg, prev + "\n\n" + chunk) <= cfg.maxTokens {
          merged := merged[..n] + [prev + "\n\n" + chunk];
          continue;
        }
      }
      merged := merged + [chunk];
    }
    assert chunks[..|chunks|] == chunks;
  }

  /** After the merge, a chunk still too small could not have joined the chunk before it. */
  lemma NoSmallLeft(cfg: Config, ms: seq<seq<string>>, i: nat)
    requires Merged(cfg, ms) && i + 1 < |ms|
    ensures
      var (a, b) := (Joined(ms[i]), Joined(ms[i + 1]));
      Small(cfg, b) ==> Tokens(cfg, Pair(a, b)) > cfg.maxTokens
  {
    assert Absorbed(cfg, ms[i + 1]);
    var (a, b, first) := (Joined(ms[i]), Joined(ms[i + 1]), ms[i + 1][0]);
    JoinedLonger(ms[i + 1]);
    TokensMonotone(cfg, first, b);
    TokensMonotone(cfg, Pair(a, first), Pair(a, b));
    assert StaysOut(cfg, ms[i], ms[i + 1]);
    hide Tokens, Joined;
  }

  lemma {:induction false} JoinedLonger(xs: seq<string>)
    requires xs != []
    ensures |Joined(xs)| >= |xs[0]|
  {
    if |xs| > 1 {
      JoinedLonger(xs[..|xs| - 1]);
    }
  }

  // ---- conservation ----

  /** The packed units hold the paragraphs of the sections. */
  lemma {:induction false} UnitsParas(u: Unicode, cfg: Config, m: Marks, sections: seq<string>)
    ensures ParasAll(u, Texts(Units(u, cfg, m, sections).0)) == ParasAll(u, sections)
  {
    hide Tokens, Paras;
    if sections != [] {
      var (front, last) := (sections[..|sections| - 1], sections[|sections| - 1]);
      UnitsParas(u, cfg, m, front);
      var (us, run) := Units(u, cfg, m, front);
      assert sections == front + [last];
      UnitsMore(u, cfg, m, front, last);
      ParasAllMore(u, front, last);
      hide Units;
      if Tokens(cfg, last) > cfg.maxTokens {
        LongParas(u, cfg, m, us, run, last);
      } else {
        TextsMore(us, UnitOf(cfg, m, last, run));
        ParasAllMore(u, Texts(us), last);
      }
    }
  }

  lemma LongParas(u: Unicode, cfg: Config, m: Marks, us: seq<Unit>, run: int, last: string)
    ensures ParasAll(u, Texts(us + ParaUnits(cfg, m, Paras(u, last), run + 1))) ==
      ParasAll(u, Texts(us)) + Paras(u, last)
  {
    ParagraphAlone(u, last);
    var ps := Paras(u, last);
    hide Paras, Tokens;
    assert Texts(us + ParaUnits(cfg, m, ps, run + 1)) == Texts(us) + ps;
    ParasAllJoin(u, Texts(us), ps);
    AllAlone(u, ps);
  }

  lemma ParasAllMore(u: Unicode, xs: seq<string>, x: string)
    ensures ParasAll(u, xs + [x]) == ParasAll(u, xs) + Paras(u, x)
  {
    assert (xs + [x])[..|xs|] == xs;
  }

  lemma {:induction false} AllAlone(u: Unicode, ps: seq<string>)
    requires forall i :: 0 <= i < |ps| ==> Paras(u, ps[i]) == [ps[i]]
    ensures ParasAll(u, ps) == ps
  {
    hide Paras;
    if ps != [] {
      AllAlone(u, ps[..|ps| - 1]);
    }
  }

  lemma {:induction false} JoinedAllParas(u: Unicode, ms: seq<seq<string>>)
    requires u.isSpace('\n')
    ensures ParasAll(u, JoinedAll(ms)) == ParasAll(u, Flat(ms))
  {
    if ms != [] {
      var (front, last) := (ms[..|ms| - 1], ms[|ms| - 1]);
      JoinedAllParas(u, front);
      assert JoinedAll(ms) == JoinedAll(front) + [Joined(last)];
      ParasAllMore(u, JoinedAll(front), Joined(last));
      ParasJoined(u, last);
      ParasAllJoin(u, Flat(front), last);
    }
    hide Paras, Joined;
  }

  lemma {:induction false} ChunksAre(gs: seq<seq<Unit>>)
    ensures Chunks(gs) == JoinedAll(TextGroups(gs)) && Flat(TextGroups(gs)) == Texts(Flat(gs))
  {
    hide Joined, Texts;
    if gs == [] {
      NoTexts();
    } else {
      var (front, last) := (gs[..|gs| - 1], gs[|gs| - 1]);
      ChunksAre(front);
      assert TextGroups(gs) == TextGroups(front) + [Texts(last)];
      FlatMore(TextGroups(front), Texts(last));
      TextsJoin(Flat(front), last);
    }
  }

  lemma NoTexts()
    ensures Texts([]) == []
  {
  }

  lemma TextsJoin(a: seq<Unit>, b: seq<Unit>)
    ensures Texts(a + b) == Texts(a) + Texts(b)
  {
  }

  function TextGroups(gs: seq<seq<Unit>>): (ts: seq<seq<string>>)
    ensures |ts| == |gs|
  {
    seq(|gs|, i requires 0 <= i < |gs| => Texts(gs[i]))
  }

  // ---- size ----

  ghost predicate Measured(cfg: Config, us: seq<Unit>) {
    forall i :: 0 <= i < |us| ==> us[i].tokens == Tokens(cfg, us[i].text)
  }

  /** What one token of a chunk can take, with the separator after it: a text of one token can be
      just short of two tokens long, since token counts are rounded down. */
  function Width(cfg: Config): int {
    -(-2.0 * Scale(cfg)).Floor + 1
  }

  lemma WidthIs(cfg: Config)
    ensures 2.0 * Scale(cfg) <= (Width(cfg) - 1) as real < 2.0 * Scale(cfg) + 1.0 && Width(cfg) >= 3
  {
    hide Scale;
  }

  lemma TokensWeigh(cfg: Config, text: string)
    ensures |text| + 2 <= Tokens(cfg, text) * Width(cfg)
  {
    var (n, t, c, w) := (|text|, Tokens(cfg, text), Scale(cfg), Width(cfg));
    TokensBound(cfg, text);
    WidthIs(cfg);
    hide Tokens, Scale, Width;
    Weigh(n, t, c, w - 1);
    assert t * w == t * (w - 1) + t;
  }

  lemma Weigh(n: int, t: int, c: real, w: int)
    requires c >= 1.0 && t >= 1 && (n as real) < c * (t + 1) as real && 2.0 * c <= w as real
    ensures n < t * w
  {
    var (x, y) := (t as real, w as real);
    assert c * (t + 1) as real <= c * (2.0 * x) by {
      Stretched(c, (t + 1) as real, 2.0 * x);
    }
    assert c * (2.0 * x) == x * (2.0 * c);
    Stretched(x, 2.0 * c, y);
    assert x * y == (t * w) as real;
  }

  lemma Stretched(t: real, x: real, y: real)
    requires t >= 0.0 && x <= y
    ensures t * x <= t * y
  {
  }

  /** Token counts leave out separators and are rounded down, but each token still takes no more
      than its width. */
  lemma {:induction false} GroupLength(cfg: Config, g: seq<Unit>)
    requires g != [] && Measured(cfg, g)
    ensures |Joined(Texts(g))| + 2 <= Sum(g) * Width(cfg)
  {
    hide Tokens, Width, Joined, Texts, Sum;
    var (front, last) := (g[..|g| - 1], g[|g| - 1]);
    assert g == front + [last] && last.tokens == Tokens(cfg, last.text);
    TokensWeigh(cfg, last.text);
    TextsMore(front, last);
    if front == [] {
      assert g == [last];
    } else {
      GroupLength(cfg, front);
      TextsSize(front);
      JoinedMore(Texts(front), last.text);
      assert (Sum(front) + last.tokens) * Width(cfg) == Sum(front) * Width(cfg) + last.tokens * Width(cfg);
    }
  }

  lemma TextsSize(g: seq<Unit>)
    ensures |Texts(g)| == |g|
  {
  }

  /** The greatest length of a chunk that is not a single long paragraph. */
  function Bound(cfg: Config): int {
    cfg.maxTokens * Width(cfg) - 2
  }

  lemma Within(sum: int, max: int, width: int)
    requires sum <= max && width >= 0
    ensures sum * width <= max * width
  {
  }

  /** A single paragraph too long for a chunk, or a chunk of bounded length. */
  ghost predicate SizeOk(u: Unicode, cfg: Config, chunk: string) {
    (Paras(u, chunk) == [chunk] && Tokens(cfg, chunk) > cfg.maxTokens) || |chunk| <= Bound(cfg)
  }

  lemma ShortBounded(cfg: Config, chunk: string)
    requires Tokens(cfg, chunk) <= cfg.maxTokens
    ensures |chunk| <= Bound(cfg)
  {
    TokensWeigh(cfg, chunk);
    WidthIs(cfg);
    Within(Tokens(cfg, chunk), cfg.maxTokens, Width(cfg));
    hide Tokens, Width;
  }

  lemma GroupSized(u: Unicode, cfg: Config, g: seq<Unit>)
    requires Fits(g, cfg.maxTokens) && Measured(cfg, g)
    requires |g| == 1 && g[0].tokens > cfg.maxTokens ==> Paras(u, g[0].text) == [g[0].text]
    ensures SizeOk(u, cfg, Joined(Texts(g)))
  {
    hide Tokens, Scale, Paras;
    var max := cfg.maxTokens;
    if |g| == 1 {
      assert Joined(Texts(g)) == g[0].text;
      if g[0].tokens <= max {
        ShortBounded(cfg, g[0].text);
      }
    } else {
      GroupLength(cfg, g);
      WidthIs(cfg);
      Within(Sum(g), max, Width(cfg));
    }
  }

  /** A unit too long for a chunk is one paragraph. */
  ghost predicate LongAlone(u: Unicode, cfg: Config, us: seq<Unit>) {
    forall i :: 0 <= i < |us| && us[i].tokens > cfg.maxTokens ==> Paras(u, us[i].text) == [us[i].text]
  }

  lemma {:induction false} UnitsSized(u: Unicode, cfg: Config, m: Marks, sections: seq<string>)
    ensures Measured(cfg, Units(u, cfg, m, sections).0) && LongAlone(u, cfg, Units(u, cfg, m, sections).0)
  {
    hide Tokens, Paras;
    if sections != [] {
      var (front, last) := (sections[..|sections| - 1], sections[|sections| - 1]);
      UnitsSized(u, cfg, m, front);
      ParagraphAlone(u, last);
      var ps := Paras(u, last);
      assert forall i :: 0 <= i < |ps| ==> ps[i] in ps;
    }
  }

  lemma {:induction false} GroupWithin(gs: seq<seq<Unit>>, i: nat)
    requires i < |gs|
    ensures forall j :: 0 <= j < |gs[i]| ==> gs[i][j] in Flat(gs)
  {
    if i < |gs| - 1 {
      GroupWithin(gs[..|gs| - 1], i);
    }
  }

  lemma ChunkSized(u: Unicode, cfg: Config, us: seq<Unit>, gs: seq<seq<Unit>>, i: nat)
    requires Greedy(gs, cfg.maxTokens) && Flat(gs) == us && Measured(cfg, us) && LongAlone(u, cfg, us) && i < |gs|
    ensures SizeOk(u, cfg, Chunks(gs)[i])
  {
    hide Tokens, Scale, Paras, SizeOk;
    GroupWithin(gs, i);
    assert Fits(gs[i], cfg.maxTokens);
    forall j | 0 <= j < |gs[i]|
      ensures gs[i][j].tokens == Tokens(cfg, gs[i][j].text)
      ensures gs[i][j].tokens > cfg.maxTokens ==> Paras(u, gs[i][j].text) == [gs[i][j].text]
    {
      var k :| 0 <= k < |us| && us[k] == gs[i][j];
    }
    GroupSized(u, cfg, gs[i]);
  }

  lemma MergedSized(u: Unicode, cfg: Config, chunks: seq<string>, ms: seq<seq<string>>, i: nat)
    requires Merged(cfg, ms) && Flat(ms) == chunks && i < |ms|
    requires forall c :: c in chunks ==> SizeOk(u, cfg, c)
    ensures SizeOk(u, cfg, JoinedAll(ms)[i])
  {
    hide Tokens, Scale, Paras, SizeOk, Small;
    assert Absorbed(cfg, ms[i]);
    if |ms[i]| == 1 {
      MemberOfFlat(ms, i);
      assert Joined(ms[i]) == ms[i][0];
    } else {
      AbsorbedShort(cfg, ms[i]);
      ShortSized(u, cfg, Joined(ms[i]));
    }
    hide Absorbed, Joined, Merged, Flat;
  }

  lemma AbsorbedShort(cfg: Config, g: seq<string>)
    requires Absorbed(cfg, g) && |g| > 1
    ensures Tokens(cfg, Joined(g)) <= cfg.maxTokens
  {
    hide Tokens, Joined, Small, Pair;
    var n := |g| - 1;
    assert Absorbs(cfg, g[..n], g[n]);
    assert g == g[..n] + [g[n]];
    JoinedMore(g[..n], g[n]);
  }

  lemma ShortSized(u: Unicode, cfg: Config, chunk: string)
    requires Tokens(cfg, chunk) <= cfg.maxTokens
    ensures SizeOk(u, cfg, chunk)
  {
    ShortBounded(cfg, chunk);
  }

  lemma {:induction false} MemberOfFlat(ms: seq<seq<string>>, i: nat)
    requires i < |ms| && ms[i] != []
    ensures ms[i][0] in Flat(ms)
  {
    if i < |ms| - 1 {
      MemberOfFlat(ms[..|ms| - 1], i);
    }
  }

  function PackedOf(u: Unicode, cfg: Config, m: Marks, sections: seq<string>): seq<string> {
    JoinedAll(MergedOf(cfg, Chunks(GroupsOf(Units(u, cfg, m, sections).0, cfg.maxTokens))))
  }

  /** Packing keeps every paragraph, in order. */
  lemma PackedParas(u: Unicode, cfg: Config, m: Marks, sections: seq<string>)
    requires u.isSpace('\n')
    ensures ParasAll(u, PackedOf(u, cfg, m, sections)) == ParasAll(u, sections)
  {
    hide Paras, Tokens, Joined, Merged, Greedy, Flat, GroupsOf, MergedOf, Units, JoinedAll, Chunks;
    var us := Units(u, cfg, m, sections).0;
    var gs := GroupsOf(us, cfg.maxTokens);
    GroupsGreedy(us, cfg.maxTokens);
    MergedOfIs(cfg, Chunks(gs));
    UnitsParas(u, cfg, m, sections);
    ChunksAre(gs);
    JoinedAllParas(u, TextGroups(gs));
    JoinedAllParas(u, MergedOf(cfg, Chunks(gs)));
  }

  /** Every chunk is a paragraph too long for one, or of bounded length. */
  lemma PackedSized(u: Unicode, cfg: Config, m: Marks, sections: seq<string>, i: nat)
    requires i < |PackedOf(u, cfg, m, sections)|
    ensures SizeOk(u, cfg, PackedOf(u, cfg, m, sections)[i])
  {
    hide Paras, Tokens, Joined, Merged, Greedy, Flat, GroupsOf, MergedOf, Units, SizeOk;
    var us := Units(u, cfg, m, sections).0;
    var gs := GroupsOf(us, cfg.maxTokens);
    var chunks := Chunks(gs);
    GroupsGreedy(us, cfg.maxTokens);
    MergedOfIs(cfg, chunks);
    UnitsSized(u, cfg, m, sections);
    forall c | c in chunks ensures SizeOk(u, cfg, c) {
      var j :| 0 <= j < |chunks| && chunks[j] == c;
      ChunkSized(u, cfg, us, gs, j);
    }
    MergedSized(u, cfg, chunks, MergedOf(cfg, chunks), i);
  }

  /** A chunk left small could not have joined the chunk before it. */
  lemma PackedNoSmall(u: Unicode, cfg: Config, m: Marks, sections: seq<string>, i: nat)
    requires i + 1 < |PackedOf(u, cfg, m, sections)|
    ensures
      var (a, b) := (PackedOf(u, cfg, m, sections)[i], PackedOf(u, cfg, m, sections)[i + 1]);
      Small(cfg, b) ==> Tokens(cfg, Pair(a, b)) > cfg.maxTokens
  {
    hide Tokens, Joined, Merged, Flat, GroupsOf, MergedOf, Units, Small;
    var chunks := Chunks(GroupsOf(Units(u, cfg, m, sections).0, cfg.maxTokens));
    MergedOfIs(cfg, chunks);
    NoSmallLeft(cfg, MergedOf(cfg, chunks), i);
  }

  /** Main result. Packing keeps every paragraph, in order; every chunk is a paragraph too long for
      one, or of bounded length; and a chunk left small could not have joined its predecessor. */
  method PackSections(u: Unicode, cfg: Config, m: Marks, sections: seq<string>) returns (merged: seq<string>)
    requires u.isSpace('\n')
    ensures merged == PackedOf(u, cfg, m, sections)
    ensures ParasAll(u, merged) == ParasAll(u, sections)
    ensures forall i :: 0 <= i < |merged| ==> SizeOk(u, cfg, merged[i])
    ensures forall i :: 0 <= i < |merged| - 1 && Small(cfg, merged[i + 1]) ==>
      Tokens(cfg, Pair(merged[i], merged[i + 1])) > cfg.maxTokens
  {
    var chunks := Pack(u, cfg, m, sections);
    merged := MergeSmall(cfg, chunks);
    assert merged == PackedOf(u, cfg, m, sections);
    hide PackedOf, SizeOk, Small, Tokens, Pair, ParasAll;
    PackedParas(u, cfg, m, sections);
    forall i | 0 <= i < |merged| ensures SizeOk(u, cfg, merged[i]) {
      PackedSized(u, cfg, m, sections, i);
    }
    forall i | 0 <= i < |merged| - 1 && Small(cfg, merged[i + 1])
      ensures Tokens(cfg, Pair(merged[i], merged[i + 1])) > cfg.maxTokens
    {
      PackedNoSmall(u, cfg, m, sections, i);
    }
  }
}
