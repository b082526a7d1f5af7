/** The overlap put in front of a segment: the tail of the segment before it. */
module Overlap {
  import opened Collections
  import opened Normalize
  import opened Paragraphs
  import opened Packing
  import opened Segment
  import opened Segmenter
  import CodeFences

  // ---- sentences ----

  /** Finished sentences, the one being read, and whether white space after an end mark is being
      skipped. */
  datatype Scan = Scan(done: seq<string>, cur: string, gap: bool)

  function ScanTo(u: Unicode, s: string): Scan {
    if s == "" then Scan([], "", false)
    else
      var (r, c) := (ScanTo(u, s[..|s| - 1]), s[|s| - 1]);
      if u.isSpace(c) && r.gap then r
      else if u.isSpace(c) && r.cur != "" && r.cur[|r.cur| - 1] in ".!?" then Scan(r.done + [r.cur], "", true)
      else Scan(r.done, r.cur + [c], false)
  }

  /** The text cut at white space that follows a full stop, an exclamation mark or a question
      mark. */
  function Sentences(u: Unicode, s: string): seq<string> {
    ScanTo(u, s).done + [ScanTo(u, s).cur]
  }

  function InkScan(u: Unicode, t: Scan): string {
    InkAll(u, t.done) + Ink(u, t.cur)
  }

  lemma InkSame(a: string, b: string, c: char)
    ensures a + (b + [c]) == a + b + [c] && a + b + "" == a + b
  {
  }

  lemma {:induction false} SentencesInk(u: Unicode, s: string)
    ensures InkScan(u, ScanTo(u, s)) == Ink(u, s)
    ensures InkAll(u, Sentences(u, s)) == Ink(u, s)
  {
    var t := ScanTo(u, s);
    InkAllOne(u, t.done, t.cur);
    if s != "" {
      var (front, c) := (s[..|s| - 1], s[|s| - 1]);
      SentencesInk(u, front);
      var r := ScanTo(u, front);
      InkAllOne(u, r.done, r.cur);
      InkOne(u, r.cur, c);
      InkBlankEmpty(u);
      InkSame(InkAll(u, r.done), Ink(u, r.cur), c);
      InkSame(InkScan(u, r), "", c);
      hide InkAll;
    }
  }

  /** A stop: an end mark followed by white space. */
  ghost predicate Stop(u: Unicode, s: string, i: int) {
    0 <= i < |s| - 1 && s[i] in ".!?" && u.isSpace(s[i + 1])
  }

  lemma {:induction false} ScanWhole(u: Unicode, s: string)
    requires forall i :: !Stop(u, s, i)
    ensures ScanTo(u, s) == Scan([], s, false)
  {
    if s != "" {
      var front := s[..|s| - 1];
      forall i ensures !Stop(u, front, i) {
        assert Stop(u, front, i) ==> Stop(u, s, i);
      }
      ScanWhole(u, front);
      assert s == front + [s[|s| - 1]];
      assert front != "" ==> !Stop(u, s, |s| - 2);
    }
  }

  /** White space after an end mark closes the sentence. */
  lemma {:induction false} ScanGap(u: Unicode, a: string, w: string)
    requires a != "" && a[|a| - 1] in ".!?" && !u.isSpace(a[|a| - 1]) && w != ""
    requires forall c :: c in w ==> u.isSpace(c)
    ensures ScanTo(u, a + w) == Scan(Sentences(u, a), "", true)
  {
    var front := w[..|w| - 1];
    assert (a + w)[..|a + w| - 1] == a + front && (a + w)[|a + w| - 1] == w[|w| - 1];
    assert w[|w| - 1] in w && forall c :: c in front ==> c in w;
    if front == "" {
      assert a + front == a;
    } else {
      ScanGap(u, a, front);
    }
  }

  /** Reading on after a gap is reading anew. */
  lemma {:induction false} ScanOn(u: Unicode, a: string, b: string)
    requires ScanTo(u, a).cur == "" && ScanTo(u, a).gap && b != "" && !u.isSpace(b[0])
    ensures
      var (r, t) := (ScanTo(u, a), ScanTo(u, b));
      ScanTo(u, a + b) == Scan(r.done + t.done, t.cur, t.gap)
  {
    var front := b[..|b| - 1];
    assert (a + b)[..|a + b| - 1] == a + front && (a + b)[|a + b| - 1] == b[|b| - 1];
    if front == "" {
      assert a + front == a && ScanTo(u, front) == Scan([], "", false);
      assert "" + [b[0]] == b && ScanTo(u, a).done + [] == ScanTo(u, a).done;
    } else {
      ScanOn(u, a, front);
    }
  }

  /** Sentences end where white space follows an end mark, and nowhere else. */
  lemma SentencesAre(u: Unicode, a: string, w: string, b: string)
    ensures (forall i :: !Stop(u, a, i)) ==> Sentences(u, a) == [a]
    ensures
      a != "" && a[|a| - 1] in ".!?" && !u.isSpace(a[|a| - 1]) && w != "" && (forall c :: c in w ==> u.isSpace(c))
      && b != "" && !u.isSpace(b[0]) ==>
        Sentences(u, a + w + b) == Sentences(u, a) + Sentences(u, b)
  {
    if forall i :: !Stop(u, a, i) {
      ScanWhole(u, a);
    }
    if a != "" && a[|a| - 1] in ".!?" && !u.isSpace(a[|a| - 1]) && w != "" && (forall c :: c in w ==> u.isSpace(c))
       && b != "" && !u.isSpace(b[0]) {
      ScanGap(u, a, w);
      ScanOn(u, a + w, b);
    }
    hide ScanTo;
  }

  // ---- the tail ----

  function TokenSum(cfg: Config, xs: seq<string>): int {
    if xs == [] then 0 else Tokens(cfg, xs[0]) + TokenSum(cfg, xs[1..])
  }

  function Ratio(cfg: Config): (r: real)
    ensures 0.0 <= r <= 0.2
  {
    if cfg.overlapRatio < 0.0 then 0.0 else if cfg.overlapRatio > 0.2 then 0.2 else cfg.overlapRatio
  }

  function Target(cfg: Config, prev: string): (t: int)
    ensures t >= 1
  {
    var n := (Tokens(cfg, prev) as real * Ratio(cfg)).Floor;
    if n > 1 then n else 1
  }

  /** The texts stripped, blank ones left out. */
  function NonBlank(u: Unicode, xs: seq<string>): seq<string> {
    if xs == [] then []
    else
      var x := Strip(u, xs[|xs| - 1]);
      NonBlank(u, xs[..|xs| - 1]) + if x != "" then [x] else []
  }

  /** What an overlap can be made of: atomic paragraphs whole, others sentence by sentence. */
  function PiecesOf(u: Unicode, m: Marks, block: string): seq<string> {
    if m.atomic(block) then [block] else NonBlank(u, Sentences(u, block))
  }

  function Pieces(u: Unicode, m: Marks, blocks: seq<string>): seq<string> {
    if blocks == [] then [] else Pieces(u, m, blocks[..|blocks| - 1]) + PiecesOf(u, m, blocks[|blocks| - 1])
  }

  /** The target is the configured share of the tokens of the segment before, a fifth at most, rounded
      down, but never less than one. */
  lemma TargetIs(cfg: Config, prev: string)
    requires cfg.overlapRatio > 0.0
    ensures
      var share := Tokens(cfg, prev) as real * if cfg.overlapRatio < 0.2 then cfg.overlapRatio else 0.2;
      && (Target(cfg, prev) == 1 || Target(cfg, prev) as real <= share)
      && Target(cfg, prev) >= 1 && share < Target(cfg, prev) as real + 1.0
  {
    hide Tokens;
  }

  lemma {:induction false} NonBlankSplit(u: Unicode, a: seq<string>, x: string, b: seq<string>)
    ensures NonBlank(u, a + [x] + b) ==
            NonBlank(u, a) + (if Strip(u, x) == "" then [] else [Strip(u, x)]) + NonBlank(u, b)
  {
    hide Strip;
    if b == [] {
      assert a + [x] + b == a + [x] && (a + [x])[..|a|] == a;
    } else {
      NonBlankSplit(u, a, x, b[..|b| - 1]);
      assert (a + [x] + b)[..|a| + |b|] == a + [x] + b[..|b| - 1];
    }
  }

  lemma PiecesMore(u: Unicode, m: Marks, blocks: seq<string>, block: string)
    ensures Pieces(u, m, blocks + [block]) == Pieces(u, m, blocks) + PiecesOf(u, m, block)
    ensures Pieces(u, m, []) == []
  {
    assert (blocks + [block])[..|blocks|] == blocks;
  }

  lemma {:induction false} PiecesSplit(u: Unicode, m: Marks, a: seq<string>, block: string, b: seq<string>)
    ensures Pieces(u, m, a + [block] + b) == Pieces(u, m, a) + PiecesOf(u, m, block) + Pieces(u, m, b)
  {
    hide Pieces, PiecesOf;
    PiecesMore(u, m, a, block);
    var one := Pieces(u, m, a) + PiecesOf(u, m, block);
    if b == [] {
      assert a + [block] + b == a + [block] && one + [] == one;
    } else {
      var (front, last) := (b[..|b| - 1], b[|b| - 1]);
      PiecesSplit(u, m, a, block, front);
      PiecesMore(u, m, front, last);
      PiecesMore(u, m, a + [block] + front, last);
      SplitLast(a + [block], front, b);
      Grouped(one, Pieces(u, m, front), PiecesOf(u, m, last));
    }
  }

  /** The pieces of a segment: paragraph by paragraph, an atomic one whole, any other as its sentences,
      stripped and without the blank ones. */
  lemma PiecesAre(
      u: Unicode, m: Marks, a: seq<string>, block: string, b: seq<string>, before: seq<string>, sentence: string,
      after: seq<string>)
    requires Sentences(u, block) == before + [sentence] + after
    ensures
      var cut := NonBlank(u, before) + (if Strip(u, sentence) == "" then [] else [Strip(u, sentence)])
        + NonBlank(u, after);
      Pieces(u, m, a + [block] + b) ==
        Pieces(u, m, a) + (if m.atomic(block) then [block] else cut) + Pieces(u, m, b)
  {
    PiecesSplit(u, m, a, block, b);
    NonBlankSplit(u, before, sentence, after);
    hide Pieces, NonBlank, Strip, Sentences;
  }

  /** `picked` with pieces from the end of `ps` put in front of it while the target allows; the first
      piece is taken whatever its size. */
  function Grow(cfg: Config, ps: seq<string>, picked: seq<string>, target: int): seq<string>
    decreases |ps|
  {
    if ps == [] then picked
    else
      var x := ps[|ps| - 1];
      if picked != [] && TokenSum(cfg, picked) + Tokens(cfg, x) > target then picked
      else Grow(cfg, ps[..|ps| - 1], [x] + picked, target)
  }

  function TailOf(u: Unicode, cfg: Config, m: Marks, prev: string): seq<string> {
    if Ratio(cfg) <= 0.0 then [] else Grow(cfg, Pieces(u, m, Paras(u, prev)), [], Target(cfg, prev))
  }

  lemma TokenSumMore(cfg: Config, x: string, xs: seq<string>)
    ensures TokenSum(cfg, [x] + xs) == Tokens(cfg, x) + TokenSum(cfg, xs)
  {
    assert ([x] + xs)[1..] == xs;
  }

  lemma GrowMore(cfg: Config, ps: seq<string>, x: string, picked: seq<string>, target: int)
    ensures Grow(cfg, ps + [x], picked, target) ==
            if picked != [] && TokenSum(cfg, picked) + Tokens(cfg, x) > target then picked
            else Grow(cfg, ps, [x] + picked, target)
  {
    assert (ps + [x])[..|ps|] == ps;
  }

  lemma GrowFull(cfg: Config, ps: seq<string>, picked: seq<string>, target: int)
    requires picked != [] && TokenSum(cfg, picked) >= target
    ensures Grow(cfg, ps, picked, target) == picked
  {
    assert forall x :: Tokens(cfg, x) >= 1;
    hide Tokens, TokenSum;
  }

  /** What is picked is a tail of the pieces: within the target unless it is one piece, and the next
      piece would have gone over. */
  lemma {:induction false} GrowIs(cfg: Config, ps: seq<string>, picked: seq<string>, target: int) returns (n: nat)
    requires |picked| <= 1 || TokenSum(cfg, picked) <= target
    ensures n <= |ps| && Grow(cfg, ps, picked, target) == ps[n..] + picked
    ensures
      var r := ps[n..] + picked;
      && (|r| <= 1 || TokenSum(cfg, r) <= target)
      && (n > 0 ==> r != [] && TokenSum(cfg, r) + Tokens(cfg, ps[n - 1]) > target)
    decreases |ps|
  {
    hide Tokens, TokenSum;
    if ps == [] || (picked != [] && TokenSum(cfg, picked) + Tokens(cfg, ps[|ps| - 1]) > target) {
      n := |ps|;
      assert ps[n..] == [];
      assert ps[n..] + picked == picked;
    } else {
      var (front, x) := (ps[..|ps| - 1], ps[|ps| - 1]);
      TokenSumMore(cfg, x, picked);
      n := GrowIs(cfg, front, [x] + picked, target);
      assert ps[n..] == front[n..] + [x];
      assert front[n..] + ([x] + picked) == ps[n..] + picked;
    }
  }

  // ---- the ink of the pieces ----

  lemma InkAllAlone(u: Unicode, x: string)
    ensures InkAll(u, [x]) == Ink(u, x)
  {
    InkAllOne(u, [], x);
    assert [] + [x] == [x];
    hide Ink;
  }

  lemma {:induction false} NonBlankInk(u: Unicode, xs: seq<string>)
    ensures InkAll(u, NonBlank(u, xs)) == InkAll(u, xs)
  {
    hide Ink, Strip;
    if xs != [] {
      var (front, last) := (xs[..|xs| - 1], xs[|xs| - 1]);
      NonBlankInk(u, front);
      InkStrip(u, last);
      InkBlankEmpty(u);
      InkAllOne(u, NonBlank(u, front), Strip(u, last));
      assert InkAll(u, front) + "" == InkAll(u, front) && NonBlank(u, front) + [] == NonBlank(u, front);
    }
  }

  lemma {:induction false} PiecesInk(u: Unicode, m: Marks, blocks: seq<string>)
    ensures InkAll(u, Pieces(u, m, blocks)) == InkAll(u, blocks)
  {
    hide Ink, Sentences;
    if blocks != [] {
      var (front, last) := (blocks[..|blocks| - 1], blocks[|blocks| - 1]);
      PiecesInk(u, m, front);
      InkAllJoin(u, Pieces(u, m, front), PiecesOf(u, m, last));
      SentencesInk(u, last);
      NonBlankInk(u, Sentences(u, last));
      InkAllAlone(u, last);
    }
  }

  predicate EndsWith(s: string, t: string): (r: bool)
    ensures r ==> exists front :: s == front + t
  {
    if |t| <= |s| && s[|s| - |t|..] == t then
      assert s == s[..|s| - |t|] + t;
      true
    else false
  }

  /** The ink of the overlap is the last ink of the segment before. There is an overlap whenever the
      ratio is positive and that segment has any ink. */
  lemma TailInk(u: Unicode, cfg: Config, m: Marks, prev: string)
    requires u.isSpace('\n')
    ensures EndsWith(Ink(u, prev), Ink(u, Joined(TailOf(u, cfg, m, prev))))
    ensures cfg.overlapRatio > 0.0 && Ink(u, prev) != "" ==> TailOf(u, cfg, m, prev) != []
  {
    hide Ink, InkAll, Joined, Pieces, Paras, Grow, TokenSum, Tokens, Target;
    var ps := Pieces(u, m, Paras(u, prev));
    ParasInk(u, prev);
    PiecesInk(u, m, Paras(u, prev));
    InkJoined(u, TailOf(u, cfg, m, prev));
    InkAllNone(u, []);
    if Ratio(cfg) > 0.0 {
      var n := GrowIs(cfg, ps, [], Target(cfg, prev));
      assert ps[n..] + [] == ps[n..] && ps == ps[..n] + ps[n..];
      InkAllJoin(u, ps[..n], ps[n..]);
    }
  }

  lemma InkAllNone(u: Unicode, xs: seq<string>)
    requires xs == []
    ensures InkAll(u, xs) == ""
  {
  }

  lemma {:induction false} InkJoined(u: Unicode, xs: seq<string>)
    requires u.isSpace('\n')
    ensures Ink(u, Joined(xs)) == InkAll(u, xs)
  {
    if |xs| == 1 {
      InkAllAlone(u, xs[0]);
    } else if |xs| > 1 {
      var (front, last) := (xs[..|xs| - 1], xs[|xs| - 1]);
      InkJoined(u, front);
      InkPair(u, Joined(front), last);
    } else {
      InkBlankEmpty(u);
    }
    hide Ink;
  }

  lemma InkPair(u: Unicode, a: string, b: string)
    requires u.isSpace('\n')
    ensures Ink(u, Pair(a, b)) == Ink(u, a) + Ink(u, b)
  {
    hide Ink;
    InkJoin(u, a + "\n\n", b);
    InkJoin(u, a, "\n\n");
    InkBlank(u, "\n\n");
  }

  // ---- how long the overlap is ----

  lemma {:induction false} TokenSumLast(cfg: Config, xs: seq<string>, x: string)
    ensures TokenSum(cfg, xs + [x]) == TokenSum(cfg, xs) + Tokens(cfg, x)
  {
    hide Tokens;
    if xs != [] {
      TokenSumLast(cfg, xs[1..], x);
      assert (xs + [x])[1..] == xs[1..] + [x];
    }
  }

  lemma {:induction false} JoinedWeigh(cfg: Config, xs: seq<string>)
    requires xs != []
    ensures |Joined(xs)| + 2 <= TokenSum(cfg, xs) * Width(cfg)
  {
    hide Tokens, Width, Joined, TokenSum;
    var (front, last) := (xs[..|xs| - 1], xs[|xs| - 1]);
    assert xs == front + [last];
    TokenSumLast(cfg, front, last);
    TokensWeigh(cfg, last);
    JoinedMore(front, last);
    if front == [] {
      TokenSumNone(cfg);
    } else {
      JoinedWeigh(cfg, front);
      assert TokenSum(cfg, xs) * Width(cfg) == TokenSum(cfg, front) * Width(cfg) + Tokens(cfg, last) * Width(cfg);
    }
  }

  lemma TokenSumNone(cfg: Config)
    ensures TokenSum(cfg, []) == 0
  {
  }

  lemma {:induction false} ScanShorter(u: Unicode, s: string)
    ensures |ScanTo(u, s).cur| <= |s| && forall x :: x in ScanTo(u, s).done ==> |x| <= |s|
  {
    if s != "" {
      ScanShorter(u, s[..|s| - 1]);
    }
  }

  lemma {:induction false} StripLeftShorter(u: Unicode, s: string)
    ensures |StripLeft(u, s)| <= |s|
  {
    if s != "" {
      StripLeftShorter(u, s[1..]);
    }
  }

  lemma {:induction false} StripRightShorter(u: Unicode, s: string)
    ensures |StripRight(u, s)| <= |s|
  {
    if s != "" {
      StripRightShorter(u, s[..|s| - 1]);
    }
  }

  lemma {:induction false} NonBlankShorter(u: Unicode, xs: seq<string>, n: nat)
    requires forall x :: x in xs ==> |x| <= n
    ensures forall x :: x in NonBlank(u, xs) ==> |x| <= n
  {
    if xs != [] {
      var (front, last) := (xs[..|xs| - 1], xs[|xs| - 1]);
      assert xs == front + [last];
      NonBlankShorter(u, front, n);
      StripLeftShorter(u, last);
      StripRightShorter(u, StripLeft(u, last));
    }
  }

  lemma {:induction false} PiecesShorter(u: Unicode, m: Marks, blocks: seq<string>, n: nat)
    requires forall x :: x in blocks ==> |x| <= n
    ensures forall x :: x in Pieces(u, m, blocks) ==> |x| <= n
  {
    if blocks != [] {
      var (front, last) := (blocks[..|blocks| - 1], blocks[|blocks| - 1]);
      assert blocks == front + [last];
      PiecesShorter(u, m, front, n);
      ScanShorter(u, last);
      NonBlankShorter(u, Sentences(u, last), n);
      hide NonBlank, ScanTo;
    }
  }

  /** The overlap is within what its target of tokens can take, or it is one piece, which is no longer
      than the segment it comes from. */
  lemma OverlapBound(u: Unicode, cfg: Config, m: Marks, prev: string)
    ensures
      var tail := TailOf(u, cfg, m, prev);
      && (|tail| > 1 ==> |Joined(tail)| + 2 <= Target(cfg, prev) * Width(cfg))
      && (|tail| == 1 ==> |Joined(tail)| <= |prev|)
  {
    hide Joined, Pieces, Paras, Grow, TokenSum, Tokens, Target, Width;
    var (tail, target) := (TailOf(u, cfg, m, prev), Target(cfg, prev));
    if Ratio(cfg) > 0.0 {
      var ps := Pieces(u, m, Paras(u, prev));
      var n := GrowIs(cfg, ps, [], target);
      assert tail == ps[n..];
      if |tail| > 1 {
        JoinedWeigh(cfg, tail);
        WidthIs(cfg);
        Within(TokenSum(cfg, tail), target, Width(cfg));
      }
      ParasShorter(u, prev);
      PiecesShorter(u, m, Paras(u, prev), |prev|);
      if |tail| == 1 {
        JoinedOne(tail);
        assert tail[0] == ps[n];
      }
    }
  }

  lemma JoinedOne(xs: seq<string>)
    requires |xs| == 1
    ensures Joined(xs) == xs[0]
  {
  }

  /** A segment is longer than its chunk by its overlap and two newlines at most. */
  lemma SegmentBound(u: Unicode, cfg: Config, m: Marks, chunks: seq<string>, i: nat)
    requires u.isSpace('\n') && 0 < i < |chunks|
    ensures
      var out := WithOverlap(u, cfg, m, chunks);
      || |out[i]| <= |chunks[i]| + Target(cfg, out[i - 1]) * Width(cfg)
      || |out[i]| <= |chunks[i]| + 2 + |out[i - 1]|
  {
    hide Joined, TailOf, Ink, EndsWith, WithOverlap, Target, Width;
    var prev := WithOverlap(u, cfg, m, chunks)[i - 1];
    OverlapRepeats(u, cfg, m, chunks, i);
    OverlapBound(u, cfg, m, prev);
    if TailOf(u, cfg, m, prev) == [] {
      JoinedNone();
    }
  }

  // ---- picking ----

  /** The last sentences of a block, put in front of what is picked already; `before` is what stands
      before the block. */
  method TailSentences(u: Unicode, cfg: Config, block: string, target: int, start: seq<string>, startAcc: int,
      ghost before: seq<string>)
    returns (picked: seq<string>, acc: int, full: bool)
    requires startAcc == TokenSum(cfg, start)
    ensures acc == TokenSum(cfg, picked)
    ensures Grow(cfg, before + NonBlank(u, Sentences(u, block)), start, target) ==
            if full then picked else Grow(cfg, before, picked, target)
  {
    hide Tokens, Sentences, Strip, TokenSum, Grow;
    picked, acc, full := start, startAcc, false;
    var sentences := Sentences(u, block);
    var j := |sentences|;
    assert sentences[..j] == sentences;
    while j > 0
      invariant j <= |sentences| && acc == TokenSum(cfg, picked)
      invariant Grow(cfg, before + NonBlank(u, sentences[..j]), picked, target)
             == Grow(cfg, before + NonBlank(u, sentences), start, target)
    {
      NonBlankLast(u, sentences, j);
      j := j - 1;
      var sentence := Strip(u, sentences[j]);
      ghost var rest := before + NonBlank(u, sentences[..j]);
      if sentence == "" {
        assert NonBlank(u, sentences[..j]) + [] == NonBlank(u, sentences[..j]);
        continue;
      }
      assert before + (NonBlank(u, sentences[..j]) + [sentence]) == rest + [sentence];
      GrowMore(cfg, rest, sentence, picked, target);
      TokenSumMore(cfg, sentence, picked);
      var sentenceTokens := Tokens(cfg, sentence);
      if acc + sentenceTokens > target && picked != [] {
        full := true;
        return;
      }
      picked, acc := [sentence] + picked, acc + sentenceTokens;
      if acc >= target {
        GrowFull(cfg, rest, picked, target);
        full := true;
        return;
      }
    }
    assert sentences[..0] == [] && before + [] == before;
  }

  lemma NonBlankLast(u: Unicode, xs: seq<string>, i: nat)
    requires 0 < i <= |xs|
    ensures
      var x := Strip(u, xs[i - 1]);
      NonBlank(u, xs[..i]) == NonBlank(u, xs[..i - 1]) + if x != "" then [x] else []
  {
    assert xs[..i][..i - 1] == xs[..i - 1];
  }

  lemma PiecesLast(u: Unicode, m: Marks, blocks: seq<string>, i: nat)
    requires 0 < i <= |blocks|
    ensures Pieces(u, m, blocks[..i]) == Pieces(u, m, blocks[..i - 1]) + PiecesOf(u, m, blocks[i - 1])
  {
    assert blocks[..i][..i - 1] == blocks[..i - 1];
  }

  method TailOverlapText(u: Unicode, cfg: Config, m: Marks, prev: string) returns (overlap: string)
    ensures overlap == Joined(TailOf(u, cfg, m, prev))
  {
    hide Tokens, Target, TokenSum, Paras, Grow, Joined, PiecesOf;
    if Ratio(cfg) <= 0.0 {
      JoinedNone();
      return "";
    }
    var picked := TailPieces(u, cfg, m, Paras(u, prev), Target(cfg, prev));
    overlap := Joined(picked);
  }

  lemma JoinedNone()
    ensures Joined([]) == ""
  {
  }

  method TailPieces(u: Unicode, cfg: Config, m: Marks, blocks: seq<string>, target: int) returns (picked: seq<string>)
    ensures picked == Grow(cfg, Pieces(u, m, blocks), [], target)
  {
    var acc := 0;
    picked := [];
    var i := |blocks|;
    assert blocks[..i] == blocks && TokenSum(cfg, picked) == 0;
    hide Tokens, TokenSum, Pieces;
    while i > 0
      invariant i <= |blocks| && acc == TokenSum(cfg, picked)
      invariant Grow(cfg, Pieces(u, m, blocks[..i]), picked, target) == Grow(cfg, Pieces(u, m, blocks), [], target)
    {
      hide Grow;
      PiecesLast(u, m, blocks, i);
      i := i - 1;
      var block := blocks[i];
      ghost var before := Pieces(u, m, blocks[..i]);
      if m.atomic(block) {
        var blockTokens := Tokens(cfg, block);
        GrowMore(cfg, before, block, picked, target);
        TokenSumMore(cfg, block, picked);
        if acc + blockTokens > target && picked != [] {
          return;
        }
        picked, acc := [block] + picked, acc + blockTokens;
        continue;
      }
      var full;
      picked, acc, full := TailSentences(u, cfg, block, target, picked, acc, before);
      if full {
        return;
      }
    }
    PiecesNone(u, m, blocks[..0]);
  }

  lemma PiecesNone(u: Unicode, m: Marks, blocks: seq<string>)
    requires blocks == []
    ensures Pieces(u, m, blocks) == []
  {
  }

  // ---- overlapping segments ----

  function After(overlap: string, chunk: string): string {
    if overlap != "" then Pair(overlap, chunk) else chunk
  }

  /** Every segment but the first gets the tail of the one before it, overlap included. */
  function WithOverlap(u: Unicode, cfg: Config, m: Marks, chunks: seq<string>): (out: seq<string>)
    ensures |out| == |chunks|
  {
    if |chunks| <= 1 then chunks
    else
      var out := WithOverlap(u, cfg, m, chunks[..|chunks| - 1]);
      out + [After(Joined(TailOf(u, cfg, m, out[|out| - 1])), chunks[|chunks| - 1])]
  }

  lemma {:induction false} NoOverlap(u: Unicode, cfg: Config, m: Marks, chunks: seq<string>)
    requires cfg.overlapRatio <= 0.0
    ensures WithOverlap(u, cfg, m, chunks) == chunks
  {
    JoinedNone();
    if |chunks| > 1 {
      NoOverlap(u, cfg, m, chunks[..|chunks| - 1]);
    }
    hide Joined;
  }

  /** A segment is its chunk, after an overlap that repeats the last ink of the segment before. */
  lemma {:induction false} OverlapRepeats(u: Unicode, cfg: Config, m: Marks, chunks: seq<string>, i: nat)
    requires u.isSpace('\n') && i < |chunks|
    ensures
      var out := WithOverlap(u, cfg, m, chunks);
      if i == 0 then out[i] == chunks[i]
      else
        var overlap := Joined(TailOf(u, cfg, m, out[i - 1]));
        && out[i] == (if overlap == "" then chunks[i] else overlap + "\n\n" + chunks[i])
        && EndsWith(Ink(u, out[i - 1]), Ink(u, overlap))
  {
    hide Joined, TailOf, Ink, EndsWith;
    var out := WithOverlap(u, cfg, m, chunks);
    if i > 0 {
      TailInk(u, cfg, m, out[i - 1]);
    }
    if |chunks| > 1 && i < |chunks| - 1 {
      OverlapRepeats(u, cfg, m, chunks[..|chunks| - 1], i);
    }
  }

  lemma OverlapMore(u: Unicode, cfg: Config, m: Marks, chunks: seq<string>, chunk: string)
    requires chunks != []
    ensures
      var out := WithOverlap(u, cfg, m, chunks);
      WithOverlap(u, cfg, m, chunks + [chunk]) == out + [After(Joined(TailOf(u, cfg, m, out[|out| - 1])), chunk)]
  {
    hide Joined, TailOf, After;
    var more := chunks + [chunk];
    assert more[..|more| - 1] == chunks && more[|more| - 1] == chunk;
  }

  method ApplyOverlap(u: Unicode, cfg: Config, m: Marks, chunks: seq<string>) returns (out: seq<string>)
    ensures out == WithOverlap(u, cfg, m, chunks)
  {
    hide Joined, TailOf, Pair;
    if |chunks| <= 1 || cfg.overlapRatio <= 0.0 {
      if cfg.overlapRatio <= 0.0 {
        NoOverlap(u, cfg, m, chunks);
      }
      return chunks;
    }
    out := [chunks[0]];
    assert chunks[..1] == [chunks[0]];
    for i := 1 to |chunks|
      invariant |out| == i && out == WithOverlap(u, cfg, m, chunks[..i])
    {
      hide WithOverlap;
      assert chunks[..i + 1] == chunks[..i] + [chunks[i]];
      OverlapMore(u, cfg, m, chunks[..i], chunks[i]);
      var overlap := TailOverlapText(u, cfg, m, out[i - 1]);
      if overlap != "" {
        out := out + [Pair(overlap, chunks[i])];
      } else {
        out := out + [chunks[i]];
      }
    }
    assert chunks[..|chunks|] == chunks;
  }

  // ---- the whole segmentation ----

  /** Chunks over the hard limit are cut into blocks again and packed again. */
  function RepackedOf(u: Unicode, cfg: Config, m: Marks, chunks: seq<string>): seq<string> {
    if chunks == [] then []
    else
      var last := chunks[|chunks| - 1];
      RepackedOf(u, cfg, m, chunks[..|chunks| - 1])
      + if |last| > cfg.hardMaxChars then PackedOf(u, cfg, m, BlocksOf(u, last, cfg.preserveCode)) else [last]
  }

  lemma RepackMore(u: Unicode, cfg: Config, m: Marks, chunks: seq<string>, chunk: string)
    ensures RepackedOf(u, cfg, m, chunks + [chunk]) ==
            RepackedOf(u, cfg, m, chunks)
            + if |chunk| <= cfg.hardMaxChars then [chunk]
              else PackedOf(u, cfg, m, BlocksOf(u, chunk, cfg.preserveCode))
    ensures RepackedOf(u, cfg, m, []) == []
  {
    hide PackedOf, BlocksOf;
    assert (chunks + [chunk])[..|chunks|] == chunks;
  }

  /** Chunks are taken one by one: one over the hard limit gives way to the packing of its blocks. */
  lemma {:induction false} RepackSplit(
      u: Unicode, cfg: Config, m: Marks, a: seq<string>, chunk: string, b: seq<string>)
    ensures RepackedOf(u, cfg, m, a + [chunk] + b) ==
            RepackedOf(u, cfg, m, a)
            + (if |chunk| <= cfg.hardMaxChars then [chunk]
               else PackedOf(u, cfg, m, BlocksOf(u, chunk, cfg.preserveCode)))
            + RepackedOf(u, cfg, m, b)
  {
    hide RepackedOf, PackedOf, BlocksOf;
    RepackMore(u, cfg, m, a, chunk);
    var one := RepackedOf(u, cfg, m, a + [chunk]);
    if b == [] {
      assert a + [chunk] + b == a + [chunk] && one + [] == one;
    } else {
      var (front, last) := (b[..|b| - 1], b[|b| - 1]);
      var more := if |last| <= cfg.hardMaxChars then [last]
        else PackedOf(u, cfg, m, BlocksOf(u, last, cfg.preserveCode));
      RepackSplit(u, cfg, m, a, chunk, front);
      RepackMore(u, cfg, m, front, last);
      RepackMore(u, cfg, m, a + [chunk] + front, last);
      SplitLast(a + [chunk], front, b);
      Grouped(one, RepackedOf(u, cfg, m, front), more);
    }
  }

  method Repack(u: Unicode, cfg: Config, m: Marks, chunks: seq<string>) returns (r: seq<string>)
    requires u.isSpace('\n')
    ensures r == RepackedOf(u, cfg, m, chunks)
  {
    hide PackedOf, BlocksOf, SizeOk, Small, Tokens, Pair, ParasAll;
    r := [];
    for i := 0 to |chunks|
      invariant r == RepackedOf(u, cfg, m, chunks[..i])
    {
      assert chunks[..i + 1][..i] == chunks[..i];
      if |chunks[i]| > cfg.hardMaxChars {
        var subBlocks := SplitBlocks(u, chunks[i], cfg.preserveCode);
        var packed := PackSections(u, cfg, m, subBlocks);
        r := r + packed;
      } else {
        r := r + [chunks[i]];
      }
    }
    assert chunks[..|chunks|] == chunks;
  }

  /** No fence is cut out of a text with this ink. */
  predicate Unfenced(u: Unicode, cfg: Config, ink: string) {
    !cfg.preserveCode || (!u.isSpace('`') && '`' !in ink)
  }

  lemma {:induction false} NoClosing(text: string, from: nat)
    requires '`' !in text
    ensures CodeFences.Closing(text, from) == -1
    decreases |text| - from
  {
    if from + 3 <= |text| {
      assert text[from..from + 3][0] == text[from];
      NoClosing(text, from + 1);
    }
  }

  lemma {:induction false} InInk(u: Unicode, s: string, c: char)
    requires c in s && !u.isSpace(c)
    ensures c in Ink(u, s)
  {
    var (front, last) := (s[..|s| - 1], s[|s| - 1]);
    assert s == front + [last];
    if c in front {
      InInk(u, front, c);
    }
  }

  lemma UnfencedBlocks(u: Unicode, cfg: Config, text: string)
    requires Unfenced(u, cfg, Ink(u, text))
    ensures BlocksOf(u, text, cfg.preserveCode) == Paras(u, text)
  {
    if cfg.preserveCode {
      if '`' in text {
        InInk(u, text, '`');
      }
      NoClosing(text, 0);
      assert text[0..] == text;
    }
    hide Ink, Paras;
  }

  /** Same ink, every chunk of allowed size, and unless fences are cut out the same paragraphs. */
  ghost predicate Conserved(u: Unicode, cfg: Config, chunks: seq<string>, ink: string, paras: seq<string>) {
    && InkAll(u, chunks) == ink
    && (Unfenced(u, cfg, ink) ==> ParasAll(u, chunks) == paras)
    && (forall i :: 0 <= i < |chunks| ==> SizeOk(u, cfg, chunks[i]))
  }

  lemma ConservedJoin(u: Unicode, cfg: Config, a: seq<string>, b: seq<string>, inkA: string, inkB: string,
      pa: seq<string>, pb: seq<string>)
    requires Conserved(u, cfg, a, inkA, pa) && Conserved(u, cfg, b, inkB, pb)
    ensures Conserved(u, cfg, a + b, inkA + inkB, pa + pb)
  {
    InkAllJoin(u, a, b);
    ParasAllJoin(u, a, b);
    hide InkAll, ParasAll, SizeOk;
  }

  lemma PackedInk(u: Unicode, xs: seq<string>, ys: seq<string>)
    requires ParasAll(u, xs) == ParasAll(u, ys)
    ensures InkAll(u, xs) == InkAll(u, ys)
  {
    InkOfParas(u, xs);
    InkOfParas(u, ys);
    hide InkAll, ParasAll;
  }

  lemma ParasOfParas(u: Unicode, s: string)
    ensures ParasAll(u, Paras(u, s)) == Paras(u, s)
  {
    ParagraphAlone(u, s);
    AllAlone(u, Paras(u, s));
    hide Paras;
  }

  lemma PackedConserved(u: Unicode, cfg: Config, m: Marks, sections: seq<string>)
    requires u.isSpace('\n')
    ensures Conserved(u, cfg, PackedOf(u, cfg, m, sections), InkAll(u, sections), ParasAll(u, sections))
  {
    hide PackedOf, InkAll, ParasAll, SizeOk;
    var packed := PackedOf(u, cfg, m, sections);
    PackedParas(u, cfg, m, sections);
    PackedInk(u, sections, packed);
    forall i | 0 <= i < |packed| ensures SizeOk(u, cfg, packed[i]) {
      PackedSized(u, cfg, m, sections, i);
    }
  }

  lemma BlocksConserved(u: Unicode, cfg: Config, m: Marks, text: string)
    requires u.isSpace('\n')
    ensures Conserved(u, cfg, PackedOf(u, cfg, m, BlocksOf(u, text, cfg.preserveCode)), Ink(u, text), Paras(u, text))
  {
    PackedConserved(u, cfg, m, BlocksOf(u, text, cfg.preserveCode));
    BlocksOfInk(u, text, cfg.preserveCode);
    ParasOfParas(u, text);
    if Unfenced(u, cfg, Ink(u, text)) {
      UnfencedBlocks(u, cfg, text);
    }
    hide PackedOf, InkAll, ParasAll, SizeOk, Ink, Paras, BlocksFrom;
  }

  lemma OneConserved(u: Unicode, cfg: Config, text: string)
    requires SizeOk(u, cfg, text)
    ensures Conserved(u, cfg, [text], Ink(u, text), Paras(u, text))
  {
    InkAllAlone(u, text);
    ParasAllAlone(u, text);
    hide InkAll, ParasAll, SizeOk, Ink, Paras;
  }

  lemma {:induction false} RepackConserved(u: Unicode, cfg: Config, m: Marks, chunks: seq<string>)
    requires u.isSpace('\n') && forall i :: 0 <= i < |chunks| ==> SizeOk(u, cfg, chunks[i])
    ensures Conserved(u, cfg, RepackedOf(u, cfg, m, chunks), InkAll(u, chunks), ParasAll(u, chunks))
  {
    if chunks != [] {
      var (front, last) := (chunks[..|chunks| - 1], chunks[|chunks| - 1]);
      RepackConserved(u, cfg, m, front);
      BlocksConserved(u, cfg, m, last);
      OneConserved(u, cfg, last);
      var packed := PackedOf(u, cfg, m, BlocksOf(u, last, cfg.preserveCode));
      var more := if |last| > cfg.hardMaxChars then packed else [last];
      ConservedJoin(u, cfg, RepackedOf(u, cfg, m, front), more, InkAll(u, front), Ink(u, last), ParasAll(u, front),
        Paras(u, last));
    }
    hide PackedOf, BlocksOf, SizeOk, Ink, Paras, Conserved;
  }

  function SectionsOf(u: Unicode, cfg: Config, m: Marks, text: string): seq<string> {
    var blocks := BlocksOf(u, text, cfg.preserveCode);
    var gs := GroupsAtHeadings(m, blocks);
    if m.anyHeading(text) && |gs| > 1 then JoinedAll(gs) else blocks
  }

  /** The segments before overlap. */
  function WholeOf(u: Unicode, cfg: Config, m: Marks, text: string): seq<string> {
    if text == "" then []
    else if !cfg.splitLong then (if |text| <= cfg.hardMaxChars then [text] else [])
    else if Tokens(cfg, text) <= cfg.maxTokens && |text| <= cfg.hardMaxChars then [text]
    else RepackedOf(u, cfg, m, PackedOf(u, cfg, m, SectionsOf(u, cfg, m, text)))
  }

  lemma SectionsConserved(u: Unicode, cfg: Config, m: Marks, text: string)
    requires u.isSpace('\n')
    ensures InkAll(u, SectionsOf(u, cfg, m, text)) == Ink(u, text)
    ensures Unfenced(u, cfg, Ink(u, text)) ==> ParasAll(u, SectionsOf(u, cfg, m, text)) == Paras(u, text)
  {
    var blocks := BlocksOf(u, text, cfg.preserveCode);
    BlocksOfInk(u, text, cfg.preserveCode);
    ParasOfParas(u, text);
    GroupsAreSections(m, blocks);
    JoinedAllParas(u, GroupsAtHeadings(m, blocks));
    PackedInk(u, blocks, JoinedAll(GroupsAtHeadings(m, blocks)));
    if Unfenced(u, cfg, Ink(u, text)) {
      UnfencedBlocks(u, cfg, text);
    }
    hide InkAll, ParasAll, Ink, Paras, BlocksFrom, JoinedAll, Sectioned, GroupsAtHeadings;
  }

  /** Blocks are packed section by section when the text has a heading and some block but the first is
      one, and else block by block; a section runs from one heading to the next. */
  lemma SectionsAre(u: Unicode, cfg: Config, m: Marks, text: string)
    ensures
      var blocks := BlocksOf(u, text, cfg.preserveCode);
      var gs := GroupsAtHeadings(m, blocks);
      && SectionsOf(u, cfg, m, text) ==
         (if m.anyHeading(text) && HeadingWithin(m, blocks) then JoinedAll(gs) else blocks)
      && Flat(gs) == blocks && Sectioned(m, gs)
  {
    hide JoinedAll, Sectioned, GroupsAtHeadings, BlocksFrom, HeadingWithin;
    SeveralGroupsIff(m, BlocksOf(u, text, cfg.preserveCode));
    GroupsAreSections(m, BlocksOf(u, text, cfg.preserveCode));
  }

  /** Main result. Splitting keeps all ink, in order (and, unless code fences are cut out, all
      paragraphs), and before overlap every segment is a paragraph too long for one or of bounded
      length. */
  lemma WholeConserved(u: Unicode, cfg: Config, m: Marks, text: string)
    requires u.isSpace('\n') && text != "" && cfg.splitLong
    ensures Conserved(u, cfg, WholeOf(u, cfg, m, text), Ink(u, text), Paras(u, text))
  {
    hide PackedOf, SectionsOf, RepackedOf, InkAll, ParasAll, SizeOk, Ink, Paras, Tokens;
    if Tokens(cfg, text) <= cfg.maxTokens && |text| <= cfg.hardMaxChars {
      ShortSized(u, cfg, text);
      OneConserved(u, cfg, text);
    } else {
      var sections := SectionsOf(u, cfg, m, text);
      SectionsConserved(u, cfg, m, text);
      PackedConserved(u, cfg, m, sections);
      RepackConserved(u, cfg, m, PackedOf(u, cfg, m, sections));
    }
  }

  /** The segments as they come out. */
  function SegmentsOf(u: Unicode, cfg: Config, m: Marks, text: string): seq<string> {
    var chunks := WholeOf(u, cfg, m, text);
    if cfg.splitLong then WithOverlap(u, cfg, m, chunks) else chunks
  }

  method SegmentText(u: Unicode, cfg: Config, m: Marks, text: string) returns (final: seq<string>)
    requires u.isSpace('\n')
    ensures final == SegmentsOf(u, cfg, m, text)
    ensures text != "" && !cfg.splitLong ==> final == if |text| > cfg.hardMaxChars then [] else [text]
    ensures text != "" && Tokens(cfg, text) <= cfg.maxTokens && |text| <= cfg.hardMaxChars ==> final == [text]
  {
    hide PackedOf, RepackedOf, BlocksOf, ParasAll, SizeOk, Small, Tokens, Pair, JoinedAll, GroupsAtHeadings, After;
    if text == "" {
      return [];
    }
    if !cfg.splitLong {
      return if |text| <= cfg.hardMaxChars then [text] else [];
    }
    if Tokens(cfg, text) <= cfg.maxTokens && |text| <= cfg.hardMaxChars {
      return [text];
    }
    var blocks := SplitBlocks(u, text, cfg.preserveCode);
    if m.anyHeading(text) {
      blocks := SplitBySections(u, m, blocks);
    }
    var chunks := PackSections(u, cfg, m, blocks);
    final := Repack(u, cfg, m, chunks);
    final := ApplyOverlap(u, cfg, m, final);
  }

  lemma ParasAllAlone(u: Unicode, s: string)
    ensures ParasAll(u, [s]) == Paras(u, s)
  {
    ParasAllMore(u, [], s);
    assert [] + [s] == [s];
    hide Paras;
  }
}
