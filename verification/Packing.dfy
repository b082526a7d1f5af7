/** Packing of text units into chunks of bounded size: the greedy grouping, and its uniqueness. */
module Packing {
  import opened Collections
  import opened Paragraphs

  datatype Config = Config(
    minTokens: int, maxTokens: int, overlapRatio: real, charsPerToken: real, hardMaxChars: int,
    splitLong: bool, preserveCode: bool)

  /** The block predicates of the source, kept abstract. */
  datatype Marks = Marks(atomic: string -> bool, heading: string -> bool, anyHeading: string -> bool)

  function Scale(cfg: Config): (c: real)
    ensures c >= 1.0
  {
    if cfg.charsPerToken > 1.0 then cfg.charsPerToken else 1.0
  }

  function Tokens(cfg: Config, text: string): (t: int)
    ensures t >= 1
  {
    var n := (|text| as real / Scale(cfg)).Floor;
    if n > 1 then n else 1
  }

  lemma TokensBound(cfg: Config, text: string)
    ensures |text| as real < Scale(cfg) * (Tokens(cfg, text) + 1) as real
  {
    var q := |text| as real / Scale(cfg);
    assert q < (Tokens(cfg, text) + 1) as real;
    assert |text| as real == q * Scale(cfg);
    Scaled(Scale(cfg), q, (Tokens(cfg, text) + 1) as real);
  }

  lemma Scaled(c: real, x: real, y: real)
    requires c > 0.0 && x < y
    ensures x * c < c * y
  {
  }

  lemma TokensMonotone(cfg: Config, a: string, b: string)
    requires |a| <= |b|
    ensures Tokens(cfg, a) <= Tokens(cfg, b)
  {
    Quotients(|a| as real, |b| as real, Scale(cfg));
  }

  lemma Quotients(x: real, y: real, c: real)
    requires x <= y && c > 0.0
    ensures x / c <= y / c
  {
  }

  // ---- greedy grouping ----

  /** A text to be packed; `hard` units stand alone, and only units of one run share a chunk. */
  datatype Unit = Unit(text: string, tokens: nat, hard: bool, run: int)

  function Sum(g: seq<Unit>): nat {
    if g == [] then 0 else Sum(g[..|g| - 1]) + g[|g| - 1].tokens
  }

  function Texts(g: seq<Unit>): (ts: seq<string>)
    ensures |ts| == |g|
  {
    seq(|g|, i requires 0 <= i < |g| => g[i].text)
  }

  function Chunks(gs: seq<seq<Unit>>): (cs: seq<string>)
    ensures |cs| == |gs|
  {
    seq(|gs|, i requires 0 <= i < |gs| => Joined(Texts(gs[i])))
  }

  predicate Fits(g: seq<Unit>, max: int) {
    && g != []
    && (|g| == 1 || (Sum(g) <= max && forall i :: 0 <= i < |g| ==> !g[i].hard && g[i].run == g[0].run))
  }

  /** Why `h` does not start in the chunk of `g`. */
  predicate Apart(g: seq<Unit>, h: seq<Unit>, max: int)
    requires g != [] && h != []
  {
    g[0].hard || h[0].hard || g[0].run != h[0].run || Sum(g) + h[0].tokens > max
  }

  /** Every group fits, and none could have taken the first unit of the next. */
  predicate Greedy(gs: seq<seq<Unit>>, max: int) {
    && (forall i :: 0 <= i < |gs| ==> Fits(gs[i], max))
    && (forall i :: 0 <= i < |gs| - 1 ==> Apart(gs[i], gs[i + 1], max))
  }

  lemma SumMore(g: seq<Unit>, u: Unit)
    ensures Sum(g + [u]) == Sum(g) + u.tokens
  {
    assert (g + [u])[..|g|] == g;
  }

  lemma {:induction false} SumPrefix(g: seq<Unit>, n: nat)
    requires n < |g|
    ensures Sum(g[..n]) + g[n].tokens <= Sum(g)
  {
    if n == |g| - 1 {
    } else {
      SumPrefix(g[..|g| - 1], n);
      assert g[..|g| - 1][..n] == g[..n];
    }
  }

  /** A group of one greedy grouping is never shorter than that of another. */
  lemma FirstNotShorter(gs: seq<seq<Unit>>, hs: seq<seq<Unit>>, max: int)
    requires Greedy(gs, max) && Greedy(hs, max) && Flat(gs) == Flat(hs) && gs != [] && hs != []
    ensures |gs[0]| >= |hs[0]|
  {
    if |gs[0]| < |hs[0]| {
      NextOfFirst(gs, hs, max);
      assert Apart(gs[0], gs[1], max) && Fits(hs[0], max);
      SumPrefix(hs[0], |gs[0]|);
    }
  }

  /** Where the first group of one grouping is longer, it swallows the start of the next group. */
  lemma NextOfFirst(gs: seq<seq<Unit>>, hs: seq<seq<Unit>>, max: int)
    requires Greedy(gs, max) && Greedy(hs, max) && Flat(gs) == Flat(hs) && gs != [] && hs != []
    requires |gs[0]| < |hs[0]|
    ensures |gs| > 1 && gs[0] != [] && gs[1] != []
    ensures hs[0][|gs[0]|] == gs[1][0] && hs[0][..|gs[0]|] == gs[0] && hs[0][0] == gs[0][0]
  {
    FlatFirst(gs);
    FlatFirst(hs);
    var all := Flat(gs);
    assert hs[0] == all[..|hs[0]|] && gs[0] == all[..|gs[0]|];
    FlatFirst(gs[1..]);
    assert Fits(gs[1], max);
    assert all[|gs[0]|] == gs[1][0];
  }

  /** There is only one greedy grouping of a list of units. */
  lemma {:induction false} GreedyUnique(gs: seq<seq<Unit>>, hs: seq<seq<Unit>>, max: int)
    requires Greedy(gs, max) && Greedy(hs, max) && Flat(gs) == Flat(hs)
    ensures gs == hs
    decreases |gs|
  {
    if gs == [] {
      if hs != [] {
        FlatFirst(hs);
      }
    } else if hs == [] {
      FlatFirst(gs);
    } else {
      FirstNotShorter(gs, hs, max);
      FirstNotShorter(hs, gs, max);
      FlatFirst(gs);
      FlatFirst(hs);
      assert gs[0] == Flat(gs)[..|gs[0]|] && hs[0] == Flat(hs)[..|hs[0]|];
      assert Flat(gs[1..]) == Flat(gs)[|gs[0]|..] && Flat(hs[1..]) == Flat(hs)[|hs[0]|..];
      GreedyUnique(gs[1..], hs[1..], max);
      assert gs == [gs[0]] + gs[1..] && hs == [hs[0]] + hs[1..];
    }
  }

  // ---- one step of the packing loops ----

  /** The groups closed so far and, unless `open` is empty, the one still open. */
  function WithOpen(closed: seq<seq<Unit>>, open: seq<Unit>): seq<seq<Unit>> {
    if open == [] then closed else closed + [open]
  }

  /** With nothing open, the next unit of the run cannot belong to the last closed group. */
  ghost predicate Ready(closed: seq<seq<Unit>>, open: seq<Unit>, run: int) {
    && (open != [] ==> !open[0].hard && open[0].run == run)
    && (open == [] && closed != [] ==>
          closed[|closed| - 1] != [] && (closed[|closed| - 1][0].hard || closed[|closed| - 1][0].run < run))
  }

  ghost predicate Packed(units: seq<Unit>, closed: seq<seq<Unit>>, open: seq<Unit>, run: int, max: int) {
    Greedy(WithOpen(closed, open), max) && Flat(WithOpen(closed, open)) == units && Ready(closed, open, run)
  }

  lemma GreedyMore(gs: seq<seq<Unit>>, g: seq<Unit>, max: int)
    requires Greedy(gs, max) && Fits(g, max)
    requires gs == [] || Apart(gs[|gs| - 1], g, max)
    ensures Greedy(gs + [g], max)
  {
    forall i | 0 <= i < |gs| ensures Apart((gs + [g])[i], (gs + [g])[i + 1], max) {
      assert (gs + [g])[i] == gs[i];
    }
  }

  /** A unit that stands alone. */
  lemma PackHard(units: seq<Unit>, closed: seq<seq<Unit>>, open: seq<Unit>, run: int, max: int, u: Unit)
    requires Packed(units, closed, open, run, max) && u.hard
    ensures Packed(units + [u], WithOpen(closed, open) + [[u]], [], run, max)
  {
    var gs := WithOpen(closed, open);
    GreedyMore(gs, [u], max);
    FlatMore(gs, [u]);
  }

  /** A unit that overflows the open group starts the next. */
  lemma PackOverflow(units: seq<Unit>, closed: seq<seq<Unit>>, open: seq<Unit>, run: int, max: int, u: Unit)
    requires Packed(units, closed, open, run, max) && !u.hard && u.run == run
    requires open != [] && Sum(open) + u.tokens > max
    ensures Packed(units + [u], closed + [open], [u], run, max)
  {
    var gs := closed + [open];
    assert Fits([u], max);
    GreedyMore(gs, [u], max);
    FlatMore(gs, [u]);
  }

  /** A unit that joins the open group, or opens one. */
  lemma PackJoin(units: seq<Unit>, closed: seq<seq<Unit>>, open: seq<Unit>, run: int, max: int, u: Unit)
    requires Packed(units, closed, open, run, max) && !u.hard && u.run == run
    requires open != [] ==> Sum(open) + u.tokens <= max
    ensures Packed(units + [u], closed, open + [u], run, max)
  {
    if open == [] {
      GreedyMore(closed, [u], max);
      FlatMore(closed, [u]);
      assert open + [u] == [u];
    } else {
      GreedyLess(closed, open, max);
      PackExtend(units, closed, open, max, u);
    }
    hide Greedy;
  }

  lemma PackExtend(units: seq<Unit>, closed: seq<seq<Unit>>, open: seq<Unit>, max: int, u: Unit)
    requires Greedy(closed, max) && Fits(open, max) &&
      (closed != [] ==> closed[|closed| - 1] != [] && Apart(closed[|closed| - 1], open, max))
    requires open != [] && Flat(closed + [open]) == units
    requires !open[0].hard && !u.hard && u.run == open[0].run && Sum(open) + u.tokens <= max
    ensures Greedy(closed + [open + [u]], max) && Flat(closed + [open + [u]]) == units + [u]
  {
    hide Greedy, Flat, Fits, Apart, Sum;
    FitsMore(open, max, u);
    FlatMore(closed, open);
    FlatMore(closed, open + [u]);
    assert Flat(closed) + (open + [u]) == Flat(closed) + open + [u];
    if closed != [] {
      ApartMore(closed[|closed| - 1], open, max, u);
    }
    GreedyMore(closed, open + [u], max);
  }

  lemma FitsMore(open: seq<Unit>, max: int, u: Unit)
    requires Fits(open, max) && !open[0].hard && !u.hard && u.run == open[0].run && Sum(open) + u.tokens <= max
    ensures Fits(open + [u], max)
  {
    SumMore(open, u);
  }

  lemma ApartMore(g: seq<Unit>, open: seq<Unit>, max: int, u: Unit)
    requires g != [] && open != [] && Apart(g, open, max)
    ensures Apart(g, open + [u], max)
  {
    assert (open + [u])[0] == open[0];
  }

  lemma GreedyLess(gs: seq<seq<Unit>>, g: seq<Unit>, max: int)
    requires Greedy(gs + [g], max)
    ensures Greedy(gs, max) && Fits(g, max) && (gs != [] ==> gs[|gs| - 1] != [] && Apart(gs[|gs| - 1], g, max))
  {
    var all := gs + [g];
    assert all[|gs|] == g;
    forall i | 0 <= i < |gs| ensures Fits(gs[i], max) {
      assert all[i] == gs[i];
    }
    forall i | 0 <= i < |gs| - 1 ensures Apart(gs[i], gs[i + 1], max) {
      assert Apart(all[i], all[i + 1], max);
    }
    if gs != [] {
      assert Apart(all[|gs| - 1], all[|gs|], max);
    }
  }

  // ---- the greedy grouping ----

  /** Each unit goes into the last group unless something keeps them apart. */
  function GroupsOf(units: seq<Unit>, max: int): (gs: seq<seq<Unit>>)
    ensures forall i :: 0 <= i < |gs| ==> gs[i] != []
  {
    if units == [] then []
    else
      var (gs, u) := (GroupsOf(units[..|units| - 1], max), units[|units| - 1]);
      var n := |gs| - 1;
      if gs == [] || Apart(gs[n], [u], max) then gs + [[u]] else gs[..n] + [gs[n] + [u]]
  }

  lemma {:induction false} GroupsGreedy(units: seq<Unit>, max: int)
    ensures Greedy(GroupsOf(units, max), max) && Flat(GroupsOf(units, max)) == units
  {
    hide Greedy, Flat, Fits, Apart;
    if units == [] {
      GreedyNone(max);
    } else {
      var (front, u) := (units[..|units| - 1], units[|units| - 1]);
      assert units == front + [u];
      var gs := GroupsOf(front, max);
      GroupsGreedy(front, max);
      if gs == [] || Apart(gs[|gs| - 1], [u], max) {
        GreedyNew(gs, max, u);
      } else {
        GreedyExtend(gs, max, u);
      }
    }
  }

  lemma GreedyNew(gs: seq<seq<Unit>>, max: int, u: Unit)
    requires Greedy(gs, max) && (gs == [] || (gs[|gs| - 1] != [] && Apart(gs[|gs| - 1], [u], max)))
    ensures Greedy(gs + [[u]], max) && Flat(gs + [[u]]) == Flat(gs) + [u]
  {
    hide Greedy, Flat, Apart;
    FlatMore(gs, [u]);
    GreedyMore(gs, [u], max);
  }

  lemma GreedyExtend(gs: seq<seq<Unit>>, max: int, u: Unit)
    requires Greedy(gs, max) && gs != [] && gs[|gs| - 1] != [] && !Apart(gs[|gs| - 1], [u], max)
    ensures
      var n := |gs| - 1;
      Greedy(gs[..n] + [gs[n] + [u]], max) && Flat(gs[..n] + [gs[n] + [u]]) == Flat(gs) + [u]
  {
    hide Greedy, Flat, Fits, Sum;
    var n := |gs| - 1;
    assert gs == gs[..n] + [gs[n]];
    GreedyLess(gs[..n], gs[n], max);
    PackExtend(Flat(gs), gs[..n], gs[n], max, u);
  }

  lemma GreedyNone(max: int)
    ensures Greedy([], max) && Flat<Unit>([]) == []
  {
  }

  /** A greedy grouping of the units is the greedy grouping of them. */
  lemma GreedyIs(gs: seq<seq<Unit>>, units: seq<Unit>, max: int)
    requires Greedy(gs, max) && Flat(gs) == units
    ensures gs == GroupsOf(units, max)
  {
    GroupsGreedy(units, max);
    GreedyUnique(gs, GroupsOf(units, max), max);
  }
}
