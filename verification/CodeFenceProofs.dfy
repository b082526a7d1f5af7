/** When restoring gives back the protected text, exactly. */
module CodeFenceProofs {
  import opened CodeFences

  // ---- cutting and weaving ----

  lemma SplitUnfolds(s: string)
    requires s != ""
    ensures
      var n := MatchLength(s);
      if n > 0 then
        && Split(s).gaps == [""] + Split(s[n..]).gaps
        && Split(s).fences == [s[..n]] + Split(s[n..]).fences
      else
        && Split(s).gaps == [[s[0]] + Split(s[1..]).gaps[0]] + Split(s[1..]).gaps[1..]
        && Split(s).fences == Split(s[1..]).fences
  {
  }

  /** Cutting loses nothing. */
  lemma {:induction false} WeaveSplit(s: string)
    ensures Weave(Split(s).gaps, Split(s).fences) == s
  {
    if s == "" {
      NothingToWeave();
    } else if MatchLength(s) > 0 {
      WeaveSplit(s[MatchLength(s)..]);
      WeaveFence(s);
    } else {
      WeaveSplit(s[1..]);
      WeaveChar(s);
    }
    hide Weave, Split, MatchLength;
  }

  lemma NothingToWeave()
    ensures Weave(Split("").gaps, Split("").fences) == ""
  {
  }

  lemma WeaveFence(s: string)
    requires s != "" && MatchLength(s) > 0
    requires var p := Split(s[MatchLength(s)..]); Weave(p.gaps, p.fences) == s[MatchLength(s)..]
    ensures Weave(Split(s).gaps, Split(s).fences) == s
  {
    hide MatchLength, Split, Weave;
    SplitUnfolds(s);
    var n := MatchLength(s);
    FenceWeave(s[..n], Split(s[n..]).gaps, Split(s[n..]).fences);
    assert s == s[..n] + s[n..];
  }

  lemma WeaveChar(s: string)
    requires s != "" && MatchLength(s) == 0
    requires var p := Split(s[1..]); Weave(p.gaps, p.fences) == s[1..]
    ensures Weave(Split(s).gaps, Split(s).fences) == s
  {
    hide MatchLength, Split, Weave;
    SplitUnfolds(s);
    PrependWeave(s[0], Split(s[1..]).gaps, Split(s[1..]).fences);
    assert s == [s[0]] + s[1..];
  }

  lemma FenceWeave(fence: string, gaps: seq<string>, fences: seq<string>)
    requires |gaps| == |fences| + 1
    ensures Weave([""] + gaps, [fence] + fences) == fence + Weave(gaps, fences)
  {
    assert ([""] + gaps)[1..] == gaps && ([fence] + fences)[1..] == fences;
    assert "" + fence == fence;
  }

  lemma {:induction false} FencesStart(s: string)
    ensures forall f :: f in Split(s).fences ==> '`' in f
  {
    if s != "" {
      SplitUnfolds(s);
      hide Split;
      var n := MatchLength(s);
      FencesStart(s[if n > 0 then n else 1..]);
      if n > 0 {
        assert s[..n][0] == '`';
      }
    }
  }

  lemma {:induction false} SplitNulFree(s: string)
    requires NulFree(s)
    ensures AllNulFree(Split(s).gaps) && AllNulFree(Split(s).fences)
  {
    if s == "" {
      assert AllNulFree([""]);
    } else {
      SplitUnfolds(s);
      hide MatchLength, Split;
      var n := MatchLength(s);
      var tail := s[if n > 0 then n else 1..];
      var p := Split(tail);
      SplitNulFree(tail);
      assert s[0] in s && NulFree(s[..n]);
      assert p.gaps[0] in p.gaps && AllNulFree(p.gaps[1..]);
    }
  }

  lemma PrependWeave(c: char, gaps: seq<string>, fences: seq<string>)
    requires |gaps| == |fences| + 1
    ensures Weave([[c] + gaps[0]] + gaps[1..], fences) == [c] + Weave(gaps, fences)
  {
    assert ([[c] + gaps[0]] + gaps[1..])[1..] == gaps[1..];
  }

  lemma {:induction false} DecimalInjective(a: nat, b: nat)
    requires Decimal(a) == Decimal(b)
    ensures a == b
  {
    if a >= 10 && b >= 10 {
      var (da, db) := (Decimal(a), Decimal(b));
      assert da[..|da| - 1] == Decimal(a / 10) && db[..|db| - 1] == Decimal(b / 10);
      assert da[|da| - 1] == db[|db| - 1];
      DecimalInjective(a / 10, b / 10);
    }
  }

  lemma BodyIs(i: nat)
    ensures NulFree(Body(i)) && '`' !in Body(i)
    ensures forall j: nat :: Body(j) == Body(i) ==> i == j
  {
    assert "FENCE"[0] == 'F';
    forall j: nat | Body(j) == Body(i)
      ensures i == j
    {
      assert Body(i)[5..] == Decimal(i) && Body(j)[5..] == Decimal(j);
      DecimalInjective(i, j);
    }
  }

  // ---- the protected text, by segments ----

  /** The protected text reads, between NULs, as the gaps and the key bodies in turn. */
  lemma {:induction false} ProtectedJoins(gaps: seq<string>, from: nat)
    requires gaps != []
    ensures Protected(gaps, from) == Join(Segments(gaps, from))
  {
    if |gaps| > 1 {
      ProtectedJoins(gaps[1..], from + 1);
      var rest := Segments(gaps[1..], from + 1);
      assert ([gaps[0], Body(from)] + rest)[1..] == [Body(from)] + rest;
      assert ([Body(from)] + rest)[1..] == rest;
    }
  }

  lemma {:induction false} SegmentsNulFree(gaps: seq<string>, from: nat)
    requires gaps != [] && AllNulFree(gaps)
    ensures AllNulFree(Segments(gaps, from))
  {
    BodyIs(from);
    if |gaps| > 1 {
      assert gaps[0] in gaps && AllNulFree(gaps[1..]);
      SegmentsNulFree(gaps[1..], from + 1);
    }
  }

  lemma {:induction false} ReplaceSegmentsNulFree(segs: seq<string>, body: string, val: string)
    requires segs != [] && AllNulFree(segs) && NulFree(val)
    ensures AllNulFree(ReplaceSegments(segs, body, val))
  {
    if |segs| >= 3 {
      assert segs[0] in segs && AllNulFree(segs[1..]) && AllNulFree(segs[2..]);
      if segs[1] == body {
        ReplaceSegmentsNulFree(segs[2..], body, val);
        var r := ReplaceSegments(segs[2..], body, val);
        assert r[0] in r && AllNulFree(r[1..]);
      } else {
        ReplaceSegmentsNulFree(segs[1..], body, val);
      }
    }
  }

  /** Some gap with a placeholder on each side reads as the body of key `k`. */
  ghost predicate BadGap(gaps: seq<string>, k: nat) {
    exists p :: 1 <= p < |gaps| - 1 && gaps[p] == Body(k)
  }

  /** No later key and no inner gap matches: replacement leaves the segments alone. */
  lemma {:induction false} NoFalseKey(gaps: seq<string>, from: nat, k: nat, val: string)
    requires gaps != [] && k < from && !BadGap(gaps, k)
    ensures ReplaceSegments(Segments(gaps, from), Body(k), val) == Segments(gaps, from)
  {
    if |gaps| > 1 {
      hide Body, Decimal;
      BodyIs(k);
      var rest := Segments(gaps[1..], from + 1);
      var segs := [gaps[0], Body(from)] + rest;
      assert segs[1..] == [Body(from)] + rest && segs[1..][1..] == rest;
      assert rest[0] == gaps[1..][0] == gaps[1];
      forall p | 1 <= p < |gaps[1..]| - 1
        ensures gaps[1..][p] != Body(k)
      {
        assert gaps[1..][p] == gaps[p + 1];
      }
      NoFalseKey(gaps[1..], from + 1, k, val);
    }
  }

  /** A backtick stands in a segment of the given parity. */
  ghost predicate Marked(segs: seq<string>, odd: bool) {
    exists i :: 0 <= i < |segs| && (i % 2 == 1) == odd && '`' in segs[i]
  }

  lemma MarkedTail(segs: seq<string>, odd: bool)
    requires segs != []
    ensures Marked(segs, odd) <==> (!odd && '`' in segs[0]) || Marked(segs[1..], !odd)
  {
    if Marked(segs, odd) {
      var i :| 0 <= i < |segs| && (i % 2 == 1) == odd && '`' in segs[i];
      if i > 0 {
        assert '`' in segs[1..][i - 1] && ((i - 1) % 2 == 1) == !odd;
      }
    }
    if Marked(segs[1..], !odd) {
      var j :| 0 <= j < |segs[1..]| && (j % 2 == 1) == !odd && '`' in segs[1..][j];
      assert '`' in segs[j + 1] && ((j + 1) % 2 == 1) == odd;
    }
    if !odd && '`' in segs[0] {
      assert 0 % 2 == 0 && '`' in segs[0];
    }
  }

  /** Once a backtick sits in an odd segment no key replacement ever moves it to an even one. */
  lemma {:induction false} MarkedStays(segs: seq<string>, odd: bool, body: string, val: string)
    requires segs != [] && Marked(segs, odd) && '`' !in body
    ensures Marked(ReplaceSegments(segs, body, val), odd)
  {
    hide Marked;
    if |segs| >= 3 {
      MarkedTail(segs, odd);
      if segs[1] == body {
        MarkedTail(segs[1..], !odd);
        assert segs[1..][1..] == segs[2..];
        var r := ReplaceSegments(segs[2..], body, val);
        var s := [segs[0] + val + r[0]] + r[1..];
        assert s[1..] == r[1..];
        MarkedTail(s, odd);
        MarkedTail(r, odd);
        if Marked(segs[2..], odd) {
          MarkedStays(segs[2..], odd, body, val);
        }
      } else {
        var r := ReplaceSegments(segs[1..], body, val);
        assert ([segs[0]] + r)[1..] == r;
        MarkedTail([segs[0]] + r, odd);
        if Marked(segs[1..], !odd) {
          MarkedStays(segs[1..], !odd, body, val);
        }
      }
    }
  }

  /** A false key swallows the NULs of two placeholders and leaves a mark in an odd segment. */
  lemma {:induction false} FalseKeyMarks(gaps: seq<string>, from: nat, k: nat, val: string)
    requires gaps != [] && k < from && BadGap(gaps, k) && '`' in val
    ensures Marked(ReplaceSegments(Segments(gaps, from), Body(k), val), true)
  {
    hide Body, Decimal, Marked;
    BodyIs(k);
    var rest := Segments(gaps[1..], from + 1);
    var segs := [gaps[0], Body(from)] + rest;
    assert segs[1..] == [Body(from)] + rest && segs[1..][1..] == rest && segs[1..][2..] == rest[1..];
    assert rest[0] == gaps[1..][0] == gaps[1];
    var p :| 1 <= p < |gaps| - 1 && gaps[p] == Body(k);
    var inner := ReplaceSegments(segs[1..], Body(k), val);
    assert ([gaps[0]] + inner)[1..] == inner;
    MarkedTail([gaps[0]] + inner, true);
    MarkedTail(inner, false);
    if gaps[1] == Body(k) {
      assert |rest| >= 3;
      assert '`' in inner[0];
    } else {
      assert gaps[1..][p - 1] == Body(k);
      FalseKeyMarks(gaps[1..], from + 1, k, val);
      var r := ReplaceSegments(rest, Body(k), val);
      assert inner == [Body(from)] + r && inner[1..] == r;
    }
  }

  // ---- restoring ----

  lemma KeyIs(k: nat)
    ensures Key(k) == "\0" + Body(k) + "\0" && Key(k) != ""
  {
  }

  lemma {:induction false} StashKeys(fences: seq<string>, from: nat)
    ensures forall p :: p in Stash(fences, from) ==> p.0 != ""
  {
    if fences != [] {
      StashKeys(fences[1..], from + 1);
    }
  }

  /** A marked text still holds a NUL when every remaining key has been replaced. */
  lemma {:induction false} MarkedEnds(segs: seq<string>, fences: seq<string>, from: nat)
    requires segs != [] && Marked(segs, true) && AllNulFree(segs) && AllNulFree(fences)
    ensures forall p :: p in Stash(fences, from) ==> p.0 != ""
    ensures !NulFree(Restored(Join(segs), Stash(fences, from)))
    decreases |fences|
  {
    StashKeys(fences, from);
    if fences == [] {
      assert |segs| > 1;
      assert Join(segs)[|segs[0]|] == '\0';
    } else {
      hide Marked, Body, Decimal, Join, ReplaceSegments, Replace;
      BodyIs(from);
      KeyIs(from);
      assert fences[0] in fences && AllNulFree(fences[1..]);
      ReplaceJoin(segs, Body(from), fences[0]);
      MarkedStays(segs, true, Body(from), fences[0]);
      ReplaceSegmentsNulFree(segs, Body(from), fences[0]);
      MarkedEnds(ReplaceSegments(segs, Body(from), fences[0]), fences[1..], from + 1);
    }
  }

  /** Some key still to be replaced meets a bad gap: key `k + m` one after the first `m` gaps. */
  ghost predicate BadFrom(gaps: seq<string>, k: nat) {
    gaps != [] && (BadGap(gaps, k) || BadFrom(gaps[1..], k + 1))
  }

  lemma {:induction false} WeaveNulFree(gaps: seq<string>, fences: seq<string>)
    requires |gaps| == |fences| + 1 && AllNulFree(gaps) && AllNulFree(fences)
    ensures NulFree(Weave(gaps, fences))
  {
    assert gaps[0] in gaps;
    if fences != [] {
      assert fences[0] in fences && AllNulFree(gaps[1..]) && AllNulFree(fences[1..]);
      WeaveNulFree(gaps[1..], fences[1..]);
    }
  }

  /** One key: with no bad gap in sight its fence goes back where it was. */
  lemma RestoreOne(w: string, gaps: seq<string>, fence: string, k: nat)
    requires gaps != [] && !BadGap(gaps, k)
    ensures ReplaceSegments(Segments([w] + gaps, k), Body(k), fence)
         == Segments([w + fence + gaps[0]] + gaps[1..], k + 1)
  {
    hide Body;
    var rest := Segments(gaps, k + 1);
    NoFalseKey(gaps, k + 1, k, fence);
    assert ([w] + gaps)[1..] == gaps;
    var segs := [w, Body(k)] + rest;
    assert segs[2..] == rest && ([w + fence + gaps[0]] + gaps[1..])[1..] == gaps[1..];
  }

  lemma MarkOne(w: string, gaps: seq<string>, fence: string, k: nat)
    requires gaps != [] && BadGap(gaps, k) && '`' in fence
    ensures Marked(ReplaceSegments(Segments([w] + gaps, k), Body(k), fence), true)
  {
    hide Body, Marked;
    var rest := Segments(gaps, k + 1);
    FalseKeyMarks(gaps, k + 1, k, fence);
    assert ([w] + gaps)[1..] == gaps;
    var segs := [w, Body(k)] + rest;
    assert segs[2..] == rest;
    var r := ReplaceSegments(rest, Body(k), fence);
    var s := [w + fence + r[0]] + r[1..];
    assert s[1..] == r[1..];
    MarkedTail(r, true);
    MarkedTail(s, true);
  }

  /** Restoring from key `k` on, with the text before it already whole. */
  lemma {:induction false} RestoreFrom(w: string, gaps: seq<string>, fences: seq<string>, k: nat)
    requires |gaps| == |fences| && NulFree(w) && AllNulFree(gaps) && AllNulFree(fences)
    requires forall f :: f in fences ==> '`' in f
    ensures forall p :: p in Stash(fences, k) ==> p.0 != ""
    ensures Restored(Join(Segments([w] + gaps, k)), Stash(fences, k)) == Weave([w] + gaps, fences) <==>
      !BadFrom(gaps, k)
    decreases |gaps|
  {
    StashKeys(fences, k);
    if gaps != [] {
      hide Body, Marked, Replace, Join, ReplaceSegments, Segments, BadGap, NulFree;
      var segs := Segments([w] + gaps, k);
      var next := ReplaceSegments(segs, Body(k), fences[0]);
      KeyIs(k);
      BodyIs(k);
      assert fences[0] in fences && AllNulFree(fences[1..]) && gaps[0] in gaps && AllNulFree(gaps[1..]);
      assert AllNulFree([w] + gaps);
      SegmentsNulFree([w] + gaps, k);
      ReplaceJoin(segs, Body(k), fences[0]);
      var w' := w + fences[0] + gaps[0];
      WeaveStep(w, gaps, fences);
      if BadGap(gaps, k) {
        MarkOne(w, gaps, fences[0], k);
        ReplaceSegmentsNulFree(segs, Body(k), fences[0]);
        MarkedEnds(next, fences[1..], k + 1);
        WeaveNulFree([w] + gaps, fences);
      } else {
        RestoreOne(w, gaps, fences[0], k);
        NulFreeConcat(w, fences[0], gaps[0]);
        RestoreFrom(w', gaps[1..], fences[1..], k + 1);
      }
    }
  }

  lemma WeaveStep(w: string, gaps: seq<string>, fences: seq<string>)
    requires |gaps| == |fences| && gaps != []
    ensures Weave([w] + gaps, fences) == Weave([w + fences[0] + gaps[0]] + gaps[1..], fences[1..])
  {
    assert ([w] + gaps)[1..] == gaps;
    assert ([w + fences[0] + gaps[0]] + gaps[1..])[1..] == gaps[1..];
  }

  lemma NulFreeConcat(a: string, b: string, c: string)
    requires NulFree(a) && NulFree(b) && NulFree(c)
    ensures NulFree(a + b + c)
  {
  }

  /** With placeholders `k`, `k + 1`, ... after the gaps from the first on, inner gap `p` reads as
      the body of key `j`, whose own placeholder is not next to it on the left. */
  ghost predicate Clash(gaps: seq<string>, k: nat, p: nat, j: nat) {
    k <= j && j - k + 1 <= p < |gaps| - 1 && gaps[p] == Body(j)
  }

  lemma {:induction false} BadFromIff(gaps: seq<string>, k: nat)
    ensures BadFrom(gaps, k) <==> exists p: nat, j: nat :: Clash(gaps, k, p, j)
  {
    hide Body;
    if gaps != [] {
      BadFromIff(gaps[1..], k + 1);
      if BadFrom(gaps[1..], k + 1) {
        var p: nat, j: nat :| Clash(gaps[1..], k + 1, p, j);
        assert Clash(gaps, k, p + 1, j);
      }
      if p: nat, j: nat :| Clash(gaps, k, p, j) {
        if j > k {
          assert Clash(gaps[1..], k + 1, p - 1, j);
        }
      }
      if BadGap(gaps, k) {
        var p :| 1 <= p < |gaps| - 1 && gaps[p] == Body(k);
        assert Clash(gaps, k, p, k);
      }
    }
  }

  /** The text between two fences reads as the placeholder body of a fence before the first of
      them: gap `q` lies between fences `q - 1` and `q`, and names some fence `k < q - 1`. */
  ghost predicate FalseKey(gaps: seq<string>) {
    exists q: nat, k: nat :: k + 2 <= q < |gaps| - 1 && gaps[q] == Body(k)
  }

  lemma FalseKeyIff(gaps: seq<string>)
    requires gaps != []
    ensures BadFrom(gaps[1..], 0) <==> FalseKey(gaps)
  {
    hide Body;
    BadFromIff(gaps[1..], 0);
    if q: nat, k: nat :| k + 2 <= q < |gaps| - 1 && gaps[q] == Body(k) {
      assert Clash(gaps[1..], 0, q - 1, k);
    }
    if p: nat, j: nat :| Clash(gaps[1..], 0, p, j) {
      assert gaps[p + 1] == Body(j);
    }
  }

  /** Protect, then restore. */
  ghost function RoundTrip(text: string): string {
    var p := Split(text);
    StashKeys(p.fences, 0);
    Restored(Protected(p.gaps, 0), Stash(p.fences, 0))
  }

  /** Main result: for a text without NUL, restoring what was protected gives the text back
      exactly when no gap between two fences reads as the placeholder of an earlier fence. */
  lemma RestoreProtectedIff(text: string)
    requires NulFree(text)
    ensures RoundTrip(text) == text <==> !FalseKey(Split(text).gaps)
  {
    hide FalseKey, Split, Protected, Segments, Join, BadFrom, Weave, NulFree;
    var (gaps, fences) := (Split(text).gaps, Split(text).fences);
    StashKeys(fences, 0);
    WeaveSplit(text);
    FencesStart(text);
    SplitNulFree(text);
    ProtectedJoins(gaps, 0);
    assert gaps[0] in gaps && AllNulFree(gaps[1..]);
    assert [gaps[0]] + gaps[1..] == gaps;
    RestoreFrom(gaps[0], gaps[1..], fences, 0);
    FalseKeyIff(gaps);
  }

  ghost predicate Mentions(text: string, word: string) {
    exists before, after :: text == before + word + after
  }

  /** Text that never mentions the placeholder word is always restored. */
  lemma RestoresPlainText(text: string)
    requires NulFree(text) && !Mentions(text, "FENCE")
    ensures RoundTrip(text) == text
  {
    hide RoundTrip, Split, NulFree;
    RestoreProtectedIff(text);
    var gaps := Split(text).gaps;
    if q: nat, k: nat :| k + 2 <= q < |gaps| - 1 && gaps[q] == Body(k) {
      WeaveSplit(text);
      GapMentions(gaps, Split(text).fences, q, k);
    }
  }

  lemma GapMentions(gaps: seq<string>, fences: seq<string>, q: nat, k: nat)
    requires q < |gaps| == |fences| + 1 && gaps[q] == Body(k)
    ensures Mentions(Weave(gaps, fences), "FENCE")
  {
    hide Weave, Decimal;
    var before, after := GapInside(gaps, fences, q);
    assert Weave(gaps, fences) == before + "FENCE" + (Decimal(k) + after);
  }

  /** Every gap is a stretch of the woven text. */
  lemma {:induction false} GapInside(gaps: seq<string>, fences: seq<string>, q: nat)
      returns (before: string, after: string)
    requires q < |gaps| == |fences| + 1
    ensures Weave(gaps, fences) == before + gaps[q] + after
  {
    if q == 0 {
      before, after := "", if fences == [] then "" else fences[0] + Weave(gaps[1..], fences[1..]);
    } else {
      before, after := GapInside(gaps[1..], fences[1..], q - 1);
      assert gaps[1..][q - 1] == gaps[q];
      before := gaps[0] + fences[0] + before;
    }
  }

  lemma {:induction false} SplitPlain(plain: string, rest: string)
    requires '`' !in plain
    ensures
      var p := Split(rest);
      Split(plain + rest) == Pieces([plain + p.gaps[0]] + p.gaps[1..], p.fences)
  {
    if plain == "" {
      assert plain + rest == rest;
      assert "" + Split(rest).gaps[0] == Split(rest).gaps[0];
      assert [Split(rest).gaps[0]] + Split(rest).gaps[1..] == Split(rest).gaps;
    } else {
      var s := plain + rest;
      assert s[0] == plain[0] && plain[0] in plain && s[1..] == plain[1..] + rest;
      SplitUnfolds(s);
      SplitPlain(plain[1..], rest);
      assert [plain[0]] + (plain[1..] + Split(rest).gaps[0]) == plain + Split(rest).gaps[0];
    }
  }

  lemma SplitInline(c: char, rest: string)
    requires c != '`' && c != '\n'
    ensures Split(['`', c, '`'] + rest) == Pieces([""] + Split(rest).gaps, [['`', c, '`']] + Split(rest).fences)
  {
    var s := ['`', c, '`'] + rest;
    assert s[1] == c && s[2] == '`' && s[..3][1] == c;
    assert InlineEnd(s, 1) == 3 && MatchLength(s) == 3;
    assert s[..3] == ['`', c, '`'] && s[3..] == rest;
    SplitUnfolds(s);
  }

  /** The failing family is real: the key of the first of three fences stands between the other
      two, and the text does not come back. */
  lemma FailingText()
    ensures
      var text := "`a``b`" + "FENCE0" + "`c`";
      RoundTrip(text) != text
  {
    var text := "`a``b`" + "FENCE0" + "`c`";
    hide RoundTrip, Split;
    var tail := "`c`";
    SplitNothing();
    SplitInline('c', "");
    assert "`c`" + "" == tail && [""] + [""] == ["", ""];
    SplitPlain("FENCE0", tail);
    assert "FENCE0" + "" == "FENCE0" && ["", ""][1..] == [""];
    assert Split("FENCE0" + tail).gaps == ["FENCE0", ""];
    SplitInline('b', "FENCE0" + tail);
    SplitInline('a', "`b`" + ("FENCE0" + tail));
    assert text == "`a`" + ("`b`" + ("FENCE0" + tail));
    var gaps := Split(text).gaps;
    assert Decimal(0) == "0" && Body(0) == "FENCE0";
    assert gaps == ["", "", "FENCE0", ""];
    assert gaps[2] == Body(0);
    RestoreProtectedIff(text);
  }

  lemma SplitNothing()
    ensures Split("") == Pieces([""], [])
  {
  }
}
