/** Blocks cut again: a paragraph of a block is one whole block when it is cut on its own. */
module FenceParts {
  import opened Normalize
  import opened Paragraphs
  import opened Segment
  import opened Segmenter
  import opened Overlap
  import CodeFences

  /** `p` stands in `s` at `i`, at the start or after white space. */
  ghost predicate PartAt(u: Unicode, s: string, p: string, i: int) {
    0 <= i && i + |p| <= |s| && s[i..i + |p|] == p && (i == 0 || u.isSpace(s[i - 1]))
  }

  lemma PartLonger(u: Unicode, s: string, c: char, p: string, i: int)
    requires PartAt(u, s, p, i)
    ensures PartAt(u, s + [c], p, i)
  {
    assert (s + [c])[i..i + |p|] == s[i..i + |p|];
  }

  /** Where the paragraph being read stands. */
  ghost predicate CurAt(u: Unicode, s: string, r: Reading) {
    var i := |s| - |r.pend| - |r.cur|;
    && 0 <= i && s[i..] == r.cur + r.pend && Blank(u, r.pend)
    && (r.cur == "" ==> i == 0) && (i == 0 || u.isSpace(s[i - 1]))
  }

  /** The text grows by white space, or by a character that joins the paragraph. */
  lemma CurLonger(s: string, i: int, cur: string, pend: string, c: char)
    requires 0 <= i <= |s| && s[i..] == cur + pend
    ensures (s + [c])[i..] == cur + (pend + [c]) == cur + pend + [c] + ""
    ensures i + |cur| <= |s| && s[i..i + |cur|] == cur
  {
    assert (s + [c])[i..] == s[i..] + [c];
    assert s[i..][..|cur|] == s[i..i + |cur|];
  }

  /** A text that ends in white space, if there is one. */
  lemma EndsBlank(u: Unicode, s: string, r: Reading)
    requires CurAt(u, s, r) && (r.cur == "" || r.pend != "")
    ensures s == "" || u.isSpace(s[|s| - 1])
  {
    var i := |s| - |r.pend| - |r.cur|;
    if s != "" {
      assert s[|s| - 1] == s[i..][|s| - 1 - i];
      assert s[|s| - 1] == r.pend[|r.pend| - 1];
    }
  }

  /** Where the last character stands alone. */
  lemma StartsAt(u: Unicode, s: string, done: seq<string>, c: char)
    requires s == "" || u.isSpace(s[|s| - 1])
    ensures CurAt(u, s + [c], Reading(done, [c], ""))
  {
    assert (s + [c])[|s|..] == [c] + "";
    assert s != "" ==> (s + [c])[|s| - 1] == s[|s| - 1];
  }

  lemma CurNext(u: Unicode, s: string, r: Reading, c: char)
    requires CurAt(u, s, r)
    ensures CurAt(u, s + [c], Next(u, r, c))
    ensures r.cur != "" ==> PartAt(u, s, r.cur, |s| - |r.pend| - |r.cur|)
  {
    var i := |s| - |r.pend| - |r.cur|;
    CurLonger(s, i, r.cur, r.pend, c);
    assert i > 0 ==> (s + [c])[i - 1] == s[i - 1];
    assert Newlines("") == 0;
    hide Newlines, Blank;
    if u.isSpace(c) {
      BlankOne(u, c);
      BlankJoin(u, r.pend, [c]);
    } else if r.cur == "" || Newlines(r.pend) >= 2 {
      EndsBlank(u, s, r);
      StartsAt(u, s, Next(u, r, c).done, c);
    } else {
      BlankNone(u);
    }
  }

  lemma BlankOne(u: Unicode, c: char)
    requires u.isSpace(c)
    ensures Blank(u, [c])
  {
  }

  lemma BlankNone(u: Unicode)
    ensures Blank(u, "")
  {
  }

  lemma {:induction false} ReadParts(u: Unicode, s: string)
    ensures CurAt(u, s, Read(u, s)) && forall p :: p in Read(u, s).done ==> exists i :: PartAt(u, s, p, i)
  {
    if s == "" {
      ReadEmpty(u);
    } else {
      var (front, c) := (s[..|s| - 1], s[|s| - 1]);
      assert s == front + [c];
      ReadParts(u, front);
      ReadMore(u, front, c);
      var r := Read(u, front);
      CurNext(u, front, r, c);
      forall p | p in Read(u, s).done ensures exists i :: PartAt(u, s, p, i) {
        DoneNext(u, r, c, p);
        var i :| PartAt(u, front, p, i);
        PartLonger(u, front, c, p, i);
      }
    }
    hide Read, CurAt, PartAt, Next;
  }

  lemma DoneNext(u: Unicode, r: Reading, c: char, p: string)
    requires p in Next(u, r, c).done
    ensures p in r.done || (p == r.cur && p != "")
  {
  }

  /** A paragraph is a part of its text that starts after white space. */
  lemma ParasParts(u: Unicode, s: string, p: string) returns (i: int)
    requires p in Paras(u, s)
    ensures PartAt(u, s, p, i)
  {
    ReadParts(u, s);
    var r := Read(u, s);
    hide Read;
    if p in r.done {
      i :| PartAt(u, s, p, i);
    } else {
      i := |s| - |r.pend| - |r.cur|;
      assert s[i..][..|r.cur|] == s[i..i + |r.cur|];
    }
  }

  lemma SliceOfSlice(s: string, a: int, b: int, i: int, j: int)
    requires 0 <= a <= b <= |s| && 0 <= i <= j <= b - a
    ensures s[a..b][i..j] == s[a + i..a + j]
  {
    var t := s[a..b];
    forall k | 0 <= k < j - i ensures t[i..j][k] == s[a + i..a + j][k] {
      assert t[i + k] == s[a + i + k];
    }
  }

  lemma TicksMove(s: string, p: string, i: int, k: int)
    requires 0 <= i && i + |p| <= |s| && s[i..i + |p|] == p && Ticks(p, k)
    ensures Ticks(s, i + k)
  {
    SliceOfSlice(s, i, i + |p|, k, k + 3);
  }

  /** No fence from `pos` on, so none in any part. */
  lemma NoneInPart(text: string, pos: nat, p: string, i: int)
    requires pos <= |text| && NextFence(text, pos).0 < 0
    requires 0 <= i && pos + i + |p| <= |text| && text[pos + i..pos + i + |p|] == p
    ensures NextFence(p, 0).0 < 0
  {
    hide CodeFences.Closing, Ticks;
    NextFenceIs(p, 0);
    var (a, b) := NextFence(p, 0);
    if a >= 0 {
      TicksMove(text, p, pos + i, a);
      TicksMove(text, p, pos + i, b - 3);
      ClosingFirst(text, pos);
      ClosingFirst(text, CodeFences.Closing(text, pos) + 3);
    }
  }

  /** A paragraph of what stands before the next fence holds none. */
  lemma NoneBefore(text: string, pos: nat, start: int, end: int, p: string, i: int)
    requires pos <= |text| && FenceAt(text, pos, start, end)
    requires 0 <= i && pos + i + |p| <= start && text[pos + i..pos + i + |p|] == p
    ensures NextFence(p, 0).0 < 0
  {
    NextFenceIs(p, 0);
    hide NextFence;
    var (a, b) := NextFence(p, 0);
    if a >= 0 {
      TicksMove(text, p, pos + i, a);
    }
    hide Ticks;
  }

  /** A paragraph of a fence is the fence, or holds none. */
  lemma WholeFence(u: Unicode, f: string, p: string, i: int)
    requires !u.isSpace('`') && FenceAt(f, 0, 0, |f|) && PartAt(u, f, p, i)
    ensures NextFence(p, 0).0 < 0 || (p == f && NextFence(p, 0) == (0, |p|))
  {
    hide NextFence, Ticks, FenceAt, PartAt;
    NextFenceIs(p, 0);
    var (a, b) := NextFence(p, 0);
    if a >= 0 {
      FenceEnds(p, 0, a, b);
      PartTicks(u, f, p, i, a);
      PartTicks(u, f, p, i, b - 3);
      FenceTicks(f, i + a);
      FenceTicks(f, i + b - 3);
      StartsWhole(u, f, p, i);
      FirstTicks(p, a, b);
    }
  }

  lemma PartTicks(u: Unicode, s: string, p: string, i: int, k: int)
    requires PartAt(u, s, p, i) && Ticks(p, k)
    ensures Ticks(s, i + k) && i >= 0 && i + |p| <= |s|
  {
    hide Ticks;
    TicksMove(s, p, i, k);
  }

  lemma StartsWhole(u: Unicode, f: string, p: string, i: int)
    requires !u.isSpace('`') && PartAt(u, f, p, i) && i < 3 && i + |p| == |f| && Ticks(f, 0)
    ensures i == 0 && p == f
  {
    TicksAt(f);
    hide Ticks;
    assert f[0..|f|] == f;
  }

  lemma FenceEnds(p: string, pos: nat, a: int, b: int)
    requires FenceAt(p, pos, a, b)
    ensures pos <= a && a + 6 <= b <= |p| && Ticks(p, a) && Ticks(p, b - 3)
  {
  }

  /** A fence has ticks at its ends only. */
  lemma FenceTicks(f: string, k: int)
    requires FenceAt(f, 0, 0, |f|) && Ticks(f, k)
    ensures 0 <= k && (k < 3 || k == |f| - 3)
    ensures Ticks(f, 0) && |f| >= 6
  {
  }

  lemma FirstTicks(p: string, a: int, b: int)
    requires FenceAt(p, 0, a, b) && Ticks(p, 0)
    ensures a == 0
  {
  }

  lemma TicksAt(f: string)
    requires Ticks(f, 0)
    ensures |f| >= 3 && forall k :: 0 <= k < 3 ==> f[k] == '`'
  {
    assert forall k :: 0 <= k < 3 ==> f[0..3][k] == f[k];
  }

  lemma BlockAlone(u: Unicode, p: string)
    requires Paras(u, p) == [p] && (NextFence(p, 0).0 < 0 || (NextFence(p, 0) == (0, |p|) && Strip(u, p) == p))
    ensures BlocksFrom(u, p, 0) == [p]
  {
    hide NextFence, Strip, Paras;
    ParasNothing(u);
    assert p[0..] == p && p[0..0] == "" && p[0..|p|] == p && p[|p|..] == "";
    if NextFence(p, 0).0 >= 0 {
      NextFenceAtEnd(p);
      assert [] + [p] + [] == [p];
    }
  }

  lemma NextFenceAtEnd(p: string)
    ensures NextFence(p, |p|).0 < 0
  {
  }

  lemma StripFence(u: Unicode, f: string)
    requires !u.isSpace('`') && FenceAt(f, 0, 0, |f|)
    ensures Strip(u, f) == f
  {
    assert f[0..3] == "```" && f[|f| - 3..|f|] == "```";
    assert f[0] == '`' && f[|f| - 1] == f[|f| - 3..|f|][2];
    assert "" + f + "" == f;
    StripPadded(u, "", f, "");
  }

  /** The paragraphs of a block are blocks when cut again. */
  lemma {:induction false} PartsOfBlocks(u: Unicode, text: string, pos: nat, p: string)
    requires !u.isSpace('`') && pos <= |text| && p in ParasAll(u, BlocksFrom(u, text, pos))
    ensures BlocksFrom(u, p, 0) == [p]
    decreases |text| - pos
  {
    hide Paras, ParasAll, Strip, NextFence, PartAt, FenceAt;
    var (start, end) := NextFence(text, pos);
    NextFenceIs(text, pos);
    if start < 0 {
      assert text[pos..|text|] == text[pos..];
      ParasOfParas(u, text[pos..]);
      PartOfText(u, text[pos..], p);
      var i := ParasParts(u, text[pos..], p);
      PartMoves(u, text, pos, |text|, p, i);
      NoneInPart(text, pos, p, i);
      BlockAlone(u, p);
    } else {
      var (before, f, rest) := (text[pos..start], text[start..end], BlocksFrom(u, text, end));
      FenceCut(text, pos, start, end);
      StripFence(u, f);
      ParasAllJoin(u, Paras(u, before) + [f], rest);
      ParasAllMore(u, Paras(u, before), f);
      ParasOfParas(u, before);
      if p in ParasAll(u, rest) {
        PartsOfBlocks(u, text, end, p);
      } else if p in Paras(u, before) {
        PartOfText(u, before, p);
        var i := ParasParts(u, before, p);
        PartMoves(u, text, pos, start, p, i);
        NoneBefore(text, pos, start, end, p, i);
        BlockAlone(u, p);
      } else {
        PartOfText(u, f, p);
        var i := ParasParts(u, f, p);
        WholeFence(u, f, p, i);
        BlockAlone(u, p);
      }
    }
  }

  lemma PartOfText(u: Unicode, s: string, p: string)
    requires p in Paras(u, s)
    ensures Paras(u, p) == [p]
  {
    ParagraphAlone(u, s);
    hide Paras;
  }

  lemma PartMoves(u: Unicode, text: string, pos: nat, end: nat, p: string, i: int)
    requires pos <= end <= |text| && PartAt(u, text[pos..end], p, i)
    ensures 0 <= i && pos + i + |p| <= end && text[pos + i..pos + i + |p|] == p
  {
    SliceOfSlice(text, pos, end, i, i + |p|);
  }

  lemma FenceCut(text: string, pos: nat, start: int, end: int)
    requires FenceAt(text, pos, start, end)
    ensures end <= |text| && FenceAt(text[start..end], 0, 0, end - start)
  {
    var f := text[start..end];
    SliceOfSlice(text, start, end, 0, 3);
    SliceOfSlice(text, start, end, end - start - 3, end - start);
    forall k | 3 <= k < |f| - 3 ensures !Ticks(f, k) {
      SliceOfSlice(text, start, end, k, k + 3);
      assert !Ticks(text, start + k);
    }
  }

  lemma PartsAgain(u: Unicode, text: string, preserveCode: bool, p: string)
    requires !u.isSpace('`') && p in ParasAll(u, BlocksOf(u, text, preserveCode))
    ensures BlocksOf(u, p, preserveCode) == [p]
  {
    hide Paras, ParasAll;
    if preserveCode {
      PartsOfBlocks(u, text, 0, p);
    } else {
      ParasOfParas(u, text);
      PartOfText(u, text, p);
    }
  }
}
