/** From a document to its segments: blocks, sections, packing and overlap. */
module Segmenter {
  import opened Collections
  import opened Normalize
  import opened Paragraphs
  import opened Packing
  import opened Segment
  import CodeFences

  // ---- ink lemmas ----

  lemma {:induction false} InkAllJoin(u: Unicode, xs: seq<string>, ys: seq<string>)
    ensures InkAll(u, xs + ys) == InkAll(u, xs) + InkAll(u, ys)
  {
    hide Ink;
    if ys == [] {
      assert xs + ys == xs;
    } else {
      var (front, last) := (ys[..|ys| - 1], ys[|ys| - 1]);
      InkAllJoin(u, xs, front);
      assert xs + ys == xs + front + [last] && ys == front + [last];
      InkAllOne(u, xs + front, last);
      assert InkAll(u, xs) + InkAll(u, front) + Ink(u, last) == InkAll(u, xs) + (InkAll(u, front) + Ink(u, last));
    }
  }

  lemma {:induction false} InkStripLeft(u: Unicode, s: string)
    ensures Ink(u, StripLeft(u, s)) == Ink(u, s)
  {
    if s != "" && u.isSpace(s[0]) {
      InkStripLeft(u, s[1..]);
      assert s == [s[0]] + s[1..];
      InkJoin(u, [s[0]], s[1..]);
      InkBlank(u, [s[0]]);
    }
  }

  lemma {:induction false} InkStripRight(u: Unicode, s: string)
    ensures Ink(u, StripRight(u, s)) == Ink(u, s)
  {
    if s != "" && u.isSpace(s[|s| - 1]) {
      InkStripRight(u, s[..|s| - 1]);
    }
  }

  lemma InkStrip(u: Unicode, s: string)
    ensures Ink(u, Strip(u, s)) == Ink(u, s)
  {
    InkStripLeft(u, s);
    InkStripRight(u, StripLeft(u, s));
  }

  lemma {:induction false} InkOfParas(u: Unicode, xs: seq<string>)
    ensures InkAll(u, ParasAll(u, xs)) == InkAll(u, xs)
  {
    hide Ink, Paras;
    if xs != [] {
      var (front, last) := (xs[..|xs| - 1], xs[|xs| - 1]);
      InkOfParas(u, front);
      ParasInk(u, last);
      InkAllJoin(u, ParasAll(u, front), Paras(u, last));
    }
  }

  // ---- blocks ----

  /** Where the next fence from `pos` on starts and ends, or -1. */
  function NextFence(text: string, pos: nat): (r: (int, int))
    requires pos <= |text|
    ensures r.0 >= 0 ==> pos <= r.0 < r.0 + 3 < r.1 <= |text|
  {
    var open := CodeFences.Closing(text, pos);
    if open < 0 then (-1, -1)
    else
      var close := CodeFences.Closing(text, open + 3);
      if close < 0 then (-1, -1) else (open, close + 3)
  }

  /** The fences from `pos` on are blocks of their own; what stands between is cut at blank lines. */
  function BlocksFrom(u: Unicode, text: string, pos: nat): seq<string>
    requires pos <= |text|
    decreases |text| - pos
  {
    var (start, end) := NextFence(text, pos);
    if start < 0 then Paras(u, text[pos..])
    else Paras(u, text[pos..start]) + [Strip(u, text[start..end])] + BlocksFrom(u, text, end)
  }

  function BlocksOf(u: Unicode, text: string, preserveCode: bool): seq<string> {
    if preserveCode then BlocksFrom(u, text, 0) else Paras(u, text)
  }

  /** Blocks lose white space only. */
  lemma {:induction false} BlocksInk(u: Unicode, text: string, pos: nat)
    requires pos <= |text|
    ensures InkAll(u, BlocksFrom(u, text, pos)) == Ink(u, text[pos..])
    decreases |text| - pos
  {
    hide Ink, InkAll, Paras, Strip, NextFence;
    var (start, end) := NextFence(text, pos);
    if start < 0 {
      ParasInk(u, text[pos..]);
    } else {
      BlocksInk(u, text, end);
      FenceInk(u, text, pos, start, end, BlocksFrom(u, text, end));
    }
  }

  lemma FenceInk(u: Unicode, text: string, pos: nat, start: nat, end: nat, rest: seq<string>)
    requires pos <= start <= end <= |text| && InkAll(u, rest) == Ink(u, text[end..])
    ensures InkAll(u, Paras(u, text[pos..start]) + [Strip(u, text[start..end])] + rest) == Ink(u, text[pos..])
  {
    hide Ink, InkAll, Paras, Strip;
    var (a, b, c) := (text[pos..start], text[start..end], text[end..]);
    assert text[pos..] == a + b + c;
    InkJoin(u, a + b, c);
    InkJoin(u, a, b);
    ParasInk(u, a);
    InkStrip(u, b);
    InkAllOne(u, Paras(u, a), Strip(u, b));
    InkAllJoin(u, Paras(u, a) + [Strip(u, b)], rest);
  }

  // ---- fences ----

  predicate Ticks(text: string, k: int) {
    0 <= k && k + 3 <= |text| && text[k..k + 3] == "```"
  }

  /** From `pos` on, the first three ticks stand at `start`, and the first three after those end at `end`. */
  ghost predicate FenceAt(text: string, pos: nat, start: int, end: int) {
    && pos <= start && start + 6 <= end && Ticks(text, start) && Ticks(text, end - 3)
    && (forall k :: pos <= k < start ==> !Ticks(text, k))
    && (forall k :: start + 3 <= k < end - 3 ==> !Ticks(text, k))
  }

  lemma {:induction false} ClosingFirst(text: string, from: nat)
    ensures forall k :: from <= k && Ticks(text, k) ==> 0 <= CodeFences.Closing(text, from) <= k
    decreases |text| - from
  {
    if from + 3 <= |text| {
      ClosingFirst(text, from + 1);
    }
  }

  /** The next fence is the leftmost one, and closed as early as can be. */
  lemma NextFenceIs(text: string, pos: nat)
    requires pos <= |text|
    ensures
      var (start, end) := NextFence(text, pos);
      if start >= 0 then FenceAt(text, pos, start, end) else forall a, b :: !FenceAt(text, pos, a, b)
  {
    hide CodeFences.Closing;
    ClosingFirst(text, pos);
    var open := CodeFences.Closing(text, pos);
    if open >= 0 {
      ClosingFirst(text, open + 3);
    }
  }

  /** Where the fences of the text from `pos` on start and end. */
  function Fences(text: string, pos: nat): seq<(int, int)>
    requires pos <= |text|
    decreases |text| - pos
  {
    var (start, end) := NextFence(text, pos);
    if start < 0 then [] else [(start, end)] + Fences(text, end)
  }

  /** Every fence is one whole block: what stands before it went into the blocks before, and what
      stands after it makes the blocks after. */
  lemma {:induction false} FenceIsBlock(u: Unicode, text: string, pos: nat, k: nat) returns (i: nat)
    requires pos <= |text| && k < |Fences(text, pos)|
    ensures
      var ((start, end), blocks) := (Fences(text, pos)[k], BlocksFrom(u, text, pos));
      && pos <= start < end <= |text| && i < |blocks| && blocks[i] == Strip(u, text[start..end])
      && InkAll(u, blocks[..i]) == Ink(u, text[pos..start]) && blocks[i + 1..] == BlocksFrom(u, text, end)
    decreases |text| - pos
  {
    hide Ink, InkAll, Paras, Strip, NextFence;
    var (start, end) := NextFence(text, pos);
    var (before, rest) := (Paras(u, text[pos..start]), BlocksFrom(u, text, end));
    var fence := Strip(u, text[start..end]);
    var blocks := before + [fence] + rest;
    if k == 0 {
      i := |before|;
      assert blocks[..i] == before && blocks[i + 1..] == rest;
      ParasInk(u, text[pos..start]);
    } else {
      var j := FenceIsBlock(u, text, end, k - 1);
      var next := Fences(text, end)[k - 1].0;
      i := |before| + 1 + j;
      assert blocks[i] == rest[j] && blocks[i + 1..] == rest[j + 1..];
      assert blocks[..i] == before + [fence] + rest[..j];
      FenceInk(u, text[..next], pos, start, end, rest[..j]);
      assert text[..next][pos..] == text[pos..next] && text[..next][end..] == text[end..next];
      assert text[..next][pos..start] == text[pos..start] && text[..next][start..end] == text[start..end];
    }
  }

  lemma BlocksOfInk(u: Unicode, text: string, preserveCode: bool)
    ensures InkAll(u, BlocksOf(u, text, preserveCode)) == Ink(u, text)
  {
    hide Ink, InkAll, Paras;
    if preserveCode {
      BlocksInk(u, text, 0);
      assert text[0..] == text;
    } else {
      ParasInk(u, text);
    }
  }

  method SplitBlocks(u: Unicode, text: string, preserveCode: bool) returns (blocks: seq<string>)
    ensures blocks == BlocksOf(u, text, preserveCode)
  {
    hide Paras, Strip, CodeFences.Closing;
    assert text[0..] == text;
    if !preserveCode || CodeFences.Closing(text, 0) < 0 {
      return Paras(u, text);
    }
    blocks := [];
    var pos := 0;
    while true
      invariant 0 <= pos <= |text| && blocks + BlocksFrom(u, text, pos) == BlocksFrom(u, text, 0)
      decreases |text| - pos
    {
      var open := CodeFences.Closing(text, pos);
      if open < 0 {
        break;
      }
      var close := CodeFences.Closing(text, open + 3);
      if close < 0 {
        break;
      }
      ParasNothing(u);
      var between := if open > pos then Paras(u, text[pos..open]) else [];
      assert open == pos ==> text[pos..open] == "";
      var fence := Strip(u, text[open..close + 3]);
      Regroup(blocks, between, fence, BlocksFrom(u, text, close + 3));
      blocks := blocks + between + [fence];
      pos := close + 3;
    }
    ParasNothing(u);
    assert pos == |text| ==> text[pos..] == "";
    blocks := blocks + if pos < |text| then Paras(u, text[pos..]) else [];
  }

  lemma ParasNothing(u: Unicode)
    ensures Paras(u, "") == []
  {
  }

  lemma Regroup(a: seq<string>, b: seq<string>, x: string, c: seq<string>)
    ensures a + (b + [x] + c) == a + b + [x] + c
  {
  }

  // ---- sections ----

  /** Every group but the first starts with a heading, and no other block in it is one. */
  ghost predicate Sectioned(m: Marks, gs: seq<seq<string>>) {
    && (forall i :: 0 <= i < |gs| ==> gs[i] != [])
    && (forall i :: 0 < i < |gs| ==> gs[i] != [] && m.heading(gs[i][0]))
    && (forall i, j :: 0 <= i < |gs| && 0 < j < |gs[i]| ==> !m.heading(gs[i][j]))
  }

  /** Blocks grouped so that a heading opens a new group. */
  function GroupsAtHeadings(m: Marks, blocks: seq<string>): seq<seq<string>> {
    if blocks == [] then []
    else
      var (gs, block) := (GroupsAtHeadings(m, blocks[..|blocks| - 1]), blocks[|blocks| - 1]);
      var n := |gs| - 1;
      if gs == [] || m.heading(block) then gs + [[block]] else gs[..n] + [gs[n] + [block]]
  }

  lemma SectionedMore(m: Marks, gs: seq<seq<string>>, block: string)
    requires Sectioned(m, gs)
    ensures gs == [] || m.heading(block) ==> Sectioned(m, gs + [[block]])
    ensures gs != [] && !m.heading(block) ==> Sectioned(m, gs[..|gs| - 1] + [gs[|gs| - 1] + [block]])
  {
  }

  lemma {:induction false} GroupsAreSections(m: Marks, blocks: seq<string>)
    ensures Sectioned(m, GroupsAtHeadings(m, blocks)) && Flat(GroupsAtHeadings(m, blocks)) == blocks
  {
    hide Sectioned;
    if blocks == [] {
      SectionedNone(m);
    } else {
      var (front, block) := (blocks[..|blocks| - 1], blocks[|blocks| - 1]);
      GroupsAreSections(m, front);
      assert blocks == front + [block];
      var gs := GroupsAtHeadings(m, front);
      SectionedMore(m, gs, block);
      if gs == [] || m.heading(block) {
        FlatMore(gs, [block]);
      } else {
        var n := |gs| - 1;
        assert gs == gs[..n] + [gs[n]];
        FlatMore(gs[..n], gs[n]);
        FlatMore(gs[..n], gs[n] + [block]);
        assert Flat(gs[..n]) + (gs[n] + [block]) == Flat(gs[..n]) + gs[n] + [block];
      }
    }
  }

  ghost predicate HeadingWithin(m: Marks, blocks: seq<string>) {
    exists i :: 0 < i < |blocks| && m.heading(blocks[i])
  }

  /** There are several groups exactly when some block but the first is a heading. */
  lemma {:induction false} SeveralGroupsIff(m: Marks, blocks: seq<string>)
    ensures |GroupsAtHeadings(m, blocks)| > 1 <==> HeadingWithin(m, blocks)
    ensures blocks != [] ==> GroupsAtHeadings(m, blocks) != []
  {
    if blocks != [] {
      var n := |blocks| - 1;
      SeveralGroupsIff(m, blocks[..n]);
      assert HeadingWithin(m, blocks) <==> HeadingWithin(m, blocks[..n]) || (n > 0 && m.heading(blocks[n])) by {
        if i :| 0 < i < |blocks| && m.heading(blocks[i]) {
          assert i < n ==> blocks[..n][i] == blocks[i];
        }
      }
    }
  }

  lemma SectionedNone(m: Marks)
    ensures Sectioned(m, [])
  {
  }

  /** The loop: closed groups are joined already, and `current` is the last one. */
  ghost predicate SectionsTo(m: Marks, blocks: seq<string>, sections: seq<string>, current: seq<string>) {
    var gs := GroupsAtHeadings(m, blocks);
    if blocks == [] then sections == [] && current == []
    else gs != [] && current == gs[|gs| - 1] != [] && sections == JoinedAll(gs[..|gs| - 1])
  }

  lemma SectionNext(m: Marks, blocks: seq<string>, sections: seq<string>, current: seq<string>, block: string)
    requires SectionsTo(m, blocks, sections, current)
    ensures
      if m.heading(block) && current != [] then SectionsTo(m, blocks + [block], sections + [Joined(current)], [block])
      else SectionsTo(m, blocks + [block], sections, current + [block])
  {
    var gs := GroupsAtHeadings(m, blocks);
    var n := |gs| - 1;
    assert (blocks + [block])[..|blocks|] == blocks;
    if gs != [] {
      assert gs == gs[..n] + [gs[n]];
      JoinedAllMore(gs[..n], gs[n]);
    }
    hide Joined;
  }

  lemma SectionsEnd(m: Marks, blocks: seq<string>, sections: seq<string>, current: seq<string>)
    requires SectionsTo(m, blocks, sections, current)
    ensures JoinedAll(GroupsAtHeadings(m, blocks)) == if current != [] then sections + [Joined(current)] else sections
  {
    var gs := GroupsAtHeadings(m, blocks);
    if gs != [] {
      assert gs == gs[..|gs| - 1] + [gs[|gs| - 1]];
      JoinedAllMore(gs[..|gs| - 1], gs[|gs| - 1]);
    }
    hide Joined;
  }

  /** Blocks grouped at their headings, or left alone when that gives one group only. */
  method SplitBySections(u: Unicode, m: Marks, blocks: seq<string>) returns (r: seq<string>)
    requires u.isSpace('\n')
    ensures r == if |GroupsAtHeadings(m, blocks)| > 1 then JoinedAll(GroupsAtHeadings(m, blocks)) else blocks
    ensures ParasAll(u, r) == ParasAll(u, blocks)
  {
    hide Joined, Paras, Flat, Sectioned;
    var sections: seq<string>, current: seq<string> := [], [];
    for i := 0 to |blocks|
      invariant SectionsTo(m, blocks[..i], sections, current)
    {
      hide SectionsTo;
      var block := blocks[i];
      assert blocks[..i + 1] == blocks[..i] + [block];
      SectionNext(m, blocks[..i], sections, current, block);
      if m.heading(block) && current != [] {
        sections := sections + [Joined(current)];
        current := [block];
      } else {
        current := current + [block];
      }
    }
    assert blocks[..|blocks|] == blocks;
    SectionsEnd(m, blocks, sections, current);
    if current != [] {
      sections := sections + [Joined(current)];
    }
    r := if |sections| > 1 then sections else blocks;
    GroupsAreSections(m, blocks);
    JoinedAllParas(u, GroupsAtHeadings(m, blocks));
  }
}
