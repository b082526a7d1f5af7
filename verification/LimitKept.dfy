/** Which limits on the length of a segment are kept. */
module LimitKept {
  import opened Collections
  import opened Normalize
  import opened Paragraphs
  import opened Packing
  import opened Segment
  import opened Segmenter
  import opened Overlap
  import opened HardLimit

  function Word(n: nat): string {
    seq(n, i => 'a')
  }

  function Rows(n: nat, k: nat): seq<string> {
    seq(k, i => Word(n))
  }

  lemma {:induction false} ReadWord(u: Unicode, n: nat)
    requires !u.isSpace('a')
    ensures Read(u, Word(n)) == Reading([], Word(n), "")
  {
    if n > 0 {
      ReadWord(u, n - 1);
      assert Word(n) == Word(n - 1) + ['a'];
      ReadMore(u, Word(n - 1), 'a');
      assert Newlines("") == 0 && Word(n - 1) + "" + ['a'] == Word(n);
    }
    hide Newlines, Read;
  }

  lemma RowsAlone(u: Unicode, n: nat, k: nat)
    requires !u.isSpace('a') && n > 0
    ensures AllAloneIn(u, Rows(n, k))
  {
    ReadWord(u, n);
    hide Read;
  }

  lemma {:induction false} RowsLength(n: nat, k: nat)
    requires k > 0
    ensures |Joined(Rows(n, k))| == k * (n + 2) - 2
  {
    hide Joined, Word, Rows;
    RowsMore(n, k - 1);
    JoinedMore(Rows(n, k - 1), Word(n));
    if k > 1 {
      RowsLength(n, k - 1);
    }
    assert k * (n + 2) == (k - 1) * (n + 2) + (n + 2);
  }

  lemma RowsMore(n: nat, k: nat)
    ensures Rows(n, k + 1) == Rows(n, k) + [Word(n)] && |Rows(n, k)| == k && |Word(n)| == n
  {
  }

  lemma {:induction false} RowsTokens(cfg: Config, n: nat, k: nat)
    requires Tokens(cfg, Word(n)) == 1
    ensures TokensOf(cfg, Rows(n, k)) == k
  {
    hide Tokens, Word;
    if k > 0 {
      RowsTokens(cfg, n, k - 1);
      assert Rows(n, k)[..k - 1] == Rows(n, k - 1);
    }
  }

  /** A word is one token as long as it is shorter than two. */
  lemma WordToken(cfg: Config, n: nat)
    requires n <= Width(cfg) - 2
    ensures Tokens(cfg, Word(n)) == 1
  {
    WidthIs(cfg);
    Below(n as real, Scale(cfg));
    hide Scale, Width;
  }

  lemma Below(x: real, c: real)
    requires x < 2.0 * c && c >= 1.0
    ensures x / c < 2.0
  {
    assert x == x / c * c;
  }

  lemma RowsInk(u: Unicode, n: nat, k: nat)
    requires u.isSpace('\n')
    ensures '`' !in Ink(u, Joined(Rows(n, k)))
  {
    InkWithin(u, Joined(Rows(n, k)));
    RowsLetters(n, k);
    hide Ink, Joined, Rows;
  }

  lemma {:induction false} InkWithin(u: Unicode, s: string)
    ensures forall c :: c in Ink(u, s) ==> c in s
  {
    if s != "" {
      InkWithin(u, s[..|s| - 1]);
    }
  }

  lemma {:induction false} RowsLetters(n: nat, k: nat)
    ensures '`' !in Joined(Rows(n, k))
  {
    JoinedNone();
    if k > 0 {
      RowsLetters(n, k - 1);
      RowsMore(n, k - 1);
      JoinedMore(Rows(n, k - 1), Word(n));
      assert '`' !in Word(n);
    }
    hide Joined;
  }

  /** Chunks before overlap, and segments as they come out: within the limit as long as the paragraphs
      are. */
  ghost predicate ChunksRespect(u: Unicode, cfg: Config, m: Marks, text: string) {
    AllWithin(Parts(u, cfg, text), cfg.hardMaxChars) ==> AllWithin(WholeOf(u, cfg, m, text), cfg.hardMaxChars)
  }

  ghost predicate Respects(u: Unicode, cfg: Config, m: Marks, text: string) {
    AllWithin(Parts(u, cfg, text), cfg.hardMaxChars) ==> AllWithin(SegmentsOf(u, cfg, m, text), cfg.hardMaxChars)
  }

  /** Words of the letter a, and texts of them, are nothing special. */
  ghost predicate PlainWords(u: Unicode, m: Marks) {
    && u.isSpace('\n') && !u.isSpace('a') && !u.isSpace('`')
    && (forall n :: !m.atomic(Word(n))) && (forall n, k :: !m.anyHeading(Joined(Rows(n, k))))
  }

  /** A text of words that comes out as one segment over a limit below the bound. */
  lemma OverLimit(u: Unicode, cfg: Config, m: Marks) returns (text: string)
    requires PlainWords(u, m) && cfg.splitLong && cfg.maxTokens != 1 && 1 <= cfg.hardMaxChars < Bound(cfg)
    ensures !ChunksRespect(u, cfg, m, text) && !Respects(u, cfg, m, text)
  {
    hide Tokens, Paras, WholeOf, Ink, TokensOf, Joined, ParasAll, Width, Word, Rows, PlainWords;
    WidthIs(cfg);
    var (h, w) := (cfg.hardMaxChars, Width(cfg) - 2);
    var n := if h < w then h else w;
    var k := cfg.maxTokens;
    BelowBound(h, k, w);
    var ps := Rows(n, k);
    text := Joined(ps);
    RowsLength(n, k);
    OverRows(u, cfg, m, n, k);
  }

  lemma BelowBound(h: int, k: int, w: int)
    requires 1 <= h < k * (w + 2) - 2 && k != 1 && w >= 1
    ensures
      var n := if h < w then h else w;
      k >= 2 && n >= 1 && k * (n + 2) - 2 > h
  {
    assert k <= 0 ==> k * (w + 2) <= 0;
  }

  lemma OverRows(u: Unicode, cfg: Config, m: Marks, n: nat, k: nat)
    requires PlainWords(u, m) && cfg.splitLong
    requires 1 <= n <= cfg.hardMaxChars && n <= Width(cfg) - 2 && 1 <= k <= cfg.maxTokens
    requires |Joined(Rows(n, k))| > cfg.hardMaxChars
    ensures !ChunksRespect(u, cfg, m, Joined(Rows(n, k))) && !Respects(u, cfg, m, Joined(Rows(n, k)))
  {
    hide Tokens, Paras, WholeOf, Ink, TokensOf, Joined, ParasAll, Width, Word, Rows, NoneAtomic, AllWithin;
    var ps := Rows(n, k);
    RowsAre(m, n, k, cfg.hardMaxChars);
    RowsParts(u, cfg, n, k);
    WordToken(cfg, n);
    RowsTokens(cfg, n, k);
    NotWithin(Joined(ps), cfg.hardMaxChars);
    HardLimitExceeded(u, cfg, m, ps);
  }

  /** The paragraphs of a text of words are the words. */
  lemma RowsParts(u: Unicode, cfg: Config, n: nat, k: nat)
    requires u.isSpace('\n') && !u.isSpace('a') && !u.isSpace('`') && n > 0
    ensures
      var text := Joined(Rows(n, k));
      && AllAloneIn(u, Rows(n, k)) && Unfenced(u, cfg, Ink(u, text))
      && Paras(u, text) == Rows(n, k) && Parts(u, cfg, text) == Rows(n, k)
  {
    hide Paras, Ink, Joined, ParasAll, Word, Rows;
    var ps := Rows(n, k);
    RowsAlone(u, n, k);
    RowsInk(u, n, k);
    ParasJoined(u, ps);
    AllAlone(u, ps);
    UnfencedBlocks(u, cfg, Joined(ps));
  }

  lemma RowsAre(m: Marks, n: nat, k: nat, limit: int)
    requires n <= limit && forall n :: !m.atomic(Word(n))
    ensures |Rows(n, k)| == k && NoneAtomic(m, Rows(n, k)) && AllWithin(Rows(n, k), limit)
  {
  }

  lemma NotWithin(x: string, limit: int)
    requires |x| > limit
    ensures !AllWithin([x], limit) && (limit >= 0 ==> x != "")
  {
    assert x in [x];
  }

  /** Before overlap: the limits that chunks keep for every text of short enough paragraphs are those
      from the bound on. */
  lemma ChunkLimitIff(u: Unicode, cfg: Config, m: Marks)
    requires PlainWords(u, m) && cfg.splitLong && cfg.hardMaxChars >= 1 && cfg.maxTokens != 1
    ensures (forall text :: ChunksRespect(u, cfg, m, text)) <==> cfg.hardMaxChars >= Bound(cfg)
  {
    hide Parts, WholeOf, Bound;
    if cfg.hardMaxChars >= Bound(cfg) {
      forall text ensures ChunksRespect(u, cfg, m, text) {
        NothingWhole(u, cfg, m);
        if text != "" {
          ChunksWithinIff(u, cfg, m, text);
        }
      }
    } else {
      var text := OverLimit(u, cfg, m);
    }
  }

  lemma NothingWhole(u: Unicode, cfg: Config, m: Marks)
    ensures WholeOf(u, cfg, m, "") == [] && SegmentsOf(u, cfg, m, "") == []
  {
  }

  // ---- with overlap ----

  /** Two long paragraphs are two chunks. */
  lemma TwoPacked(u: Unicode, cfg: Config, m: Marks, p: string)
    requires Paras(u, p) == [p] && Tokens(cfg, p) > cfg.maxTokens
    ensures PackedOf(u, cfg, m, [p, p]) == [p, p]
  {
    var (a, b) := (UnitOf(cfg, m, p, 1), UnitOf(cfg, m, p, 3));
    TwoUnits(u, cfg, m, p);
    hide Tokens, Paras, Units, Flat;
    TwoGroups(a, b, cfg.maxTokens);
    GreedyIs([[a], [b]], [a, b], cfg.maxTokens);
    TextsMore([], a);
    TextsMore([], b);
    hide Greedy, GroupsOf, Joined;
    assert Chunks([[a], [b]]) == [p, p];
    TokensMonotone(cfg, p, Pair(p, p));
    TwoMerged(cfg, p);
    OneJoined(p);
    assert JoinedAll([[p], [p]]) == [p, p];
  }

  lemma TwoUnits(u: Unicode, cfg: Config, m: Marks, p: string)
    requires Paras(u, p) == [p] && Tokens(cfg, p) > cfg.maxTokens
    ensures Units(u, cfg, m, [p, p]).0 == [UnitOf(cfg, m, p, 1), UnitOf(cfg, m, p, 3)]
  {
    hide Tokens, Paras, Units;
    NoUnits(u, cfg, m, [], 0);
    assert [] + [p] == [p] && [p] + [p] == [p, p];
    UnitsMore(u, cfg, m, [], p);
    UnitsMore(u, cfg, m, [p], p);
    assert ParaUnits(cfg, m, [p], 1) == [UnitOf(cfg, m, p, 1)] && ParaUnits(cfg, m, [p], 3) == [UnitOf(cfg, m, p, 3)];
  }

  lemma TwoGroups(a: Unit, b: Unit, max: int)
    requires a.run != b.run
    ensures Greedy([[a], [b]], max) && Flat([[a], [b]]) == [a, b]
  {
    FlatMore([[a]], [b]);
    FlatAlone([a]);
    assert [[a]] + [[b]] == [[a], [b]];
  }

  lemma TwoMerged(cfg: Config, p: string)
    requires Tokens(cfg, Pair(p, p)) > cfg.maxTokens
    ensures MergedOf(cfg, [p, p]) == [[p], [p]]
  {
    hide Tokens;
    MergedOne(cfg, p);
    OneJoined(p);
    assert [p, p][..1] == [p];
  }

  /** The end of a word is all of it. */
  lemma {:induction false} WordScan(u: Unicode, n: nat)
    requires !u.isSpace('a')
    ensures ScanTo(u, Word(n)) == Scan([], Word(n), false)
  {
    if n > 0 {
      WordScan(u, n - 1);
      assert Word(n)[..n - 1] == Word(n - 1) && Word(n) == Word(n - 1) + ['a'];
    }
  }

  lemma WordTail(u: Unicode, cfg: Config, m: Marks, n: nat)
    requires !u.isSpace('a') && n > 0 && cfg.overlapRatio > 0.0
    ensures TailOf(u, cfg, m, Word(n)) == [Word(n)]
  {
    var w := Word(n);
    RowsAlone(u, n, 1);
    assert Rows(n, 1)[0] == w;
    WordScan(u, n);
    assert Strip(u, w) == w;
    hide Word, Paras, ScanTo, Strip, Target;
    OneIn(u, m, w);
    GrowMore(cfg, [], w, [], Target(cfg, w));
    assert [] + [w] == [w];
  }

  lemma OneIn(u: Unicode, m: Marks, w: string)
    requires Sentences(u, w) == [w] && Strip(u, w) == w != ""
    ensures Pieces(u, m, [w]) == [w]
  {
    hide Sentences, Strip;
    assert [w][..0] == [] && [] + [w] == [w];
    assert NonBlank(u, [w]) == [w];
  }

  /** With overlap, two words that fill the limit overrun it: the second segment holds both. */
  lemma OverlapOver(u: Unicode, cfg: Config, m: Marks, n: nat)
    requires PlainWords(u, m) && cfg.splitLong && cfg.overlapRatio > 0.0
    requires n == cfg.hardMaxChars >= 1 && Tokens(cfg, Word(n)) > cfg.maxTokens
    ensures !Respects(u, cfg, m, Joined(Rows(n, 2)))
  {
    hide Tokens, Paras, Ink, ParasAll, PackedOf, TailOf, AllWithin, Parts;
    var (w, text) := (Word(n), Joined(Rows(n, 2)));
    assert Rows(n, 2) == [w, w] && |w| == n;
    assert text == Pair(w, w) by {
      OneJoined(w);
      assert [w, w][..1] == [w];
    }
    RowsParts(u, cfg, n, 2);
    RowsAre(m, n, 2, n);
    hide Word, Rows;
    TokensMonotone(cfg, w, text);
    HardLimitIsIdle(u, cfg, m, text);
    RowsWord(u, n);
    TwoPacked(u, cfg, m, w);
    WordTail(u, cfg, m, n);
    OneJoined(w);
    hide WholeOf, Joined, Pair;
    OverlapTwo(u, cfg, m, w);
    TwoNotWithin(w, Pair(w, w), n);
  }

  lemma RowsWord(u: Unicode, n: nat)
    requires !u.isSpace('a') && n > 0
    ensures Paras(u, Word(n)) == [Word(n)]
  {
    ReadWord(u, n);
    hide Read;
  }

  lemma OverlapTwo(u: Unicode, cfg: Config, m: Marks, w: string)
    requires Joined(TailOf(u, cfg, m, w)) == w != ""
    ensures WithOverlap(u, cfg, m, [w, w]) == [w, Pair(w, w)]
  {
    hide Joined, TailOf, Pair;
    assert [w] + [w] == [w, w];
    OverlapMore(u, cfg, m, [w], w);
  }

  lemma TwoNotWithin(x: string, y: string, limit: int)
    requires |y| > limit
    ensures !AllWithin([x, y], limit)
  {
    assert y in [x, y];
  }

  /** From the bound on, a word that fills the limit is too long for a chunk. */
  lemma BoundTokens(cfg: Config, n: nat)
    requires n >= Bound(cfg) && cfg.maxTokens != 1
    ensures Tokens(cfg, Word(n)) > cfg.maxTokens
  {
    var (max, c, w) := (cfg.maxTokens, Scale(cfg), Width(cfg));
    if max >= 2 {
      TokensBound(cfg, Word(n));
      WidthIs(cfg);
      hide Tokens, Scale, Width;
      Outweighs(max, Tokens(cfg, Word(n)), c, w, n);
    }
  }

  lemma Outweighs(max: int, t: int, c: real, w: int, n: int)
    requires max >= 2 && c >= 1.0 && 2.0 * c <= (w - 1) as real && n >= max * w - 2
    requires (n as real) < c * (t + 1) as real
    ensures t > max
  {
    var q := LessOne(max, w);
    FitsTwice(max, c, w - 1, q);
    Cancel(c, (2 * max) as real, (t + 1) as real, q as real, n as real);
  }

  lemma LessOne(max: int, w: int) returns (q: int)
    ensures q == max * (w - 1) && max * w == q + max
  {
    q := max * (w - 1);
  }

  lemma FitsTwice(max: int, c: real, w: int, q: int)
    requires max >= 0 && 2.0 * c <= w as real && q == max * w
    ensures c * (2 * max) as real <= q as real
  {
    var (x, y) := (max as real, w as real);
    assert x * y == q as real;
    Stretched(x, 2.0 * c, y);
    assert x * (2.0 * c) == c * (2.0 * x);
  }

  lemma Cancel(c: real, x: real, y: real, q: real, n: real)
    requires c > 0.0 && c * x <= q <= n < c * y
    ensures x < y
  {
    if y <= x {
      Stretched(c, y, x);
    }
  }

  /** Main result. The segments of every text of short enough paragraphs are within the limit exactly
      when nothing is split, nothing can be within it, or it is from the bound on and nothing is
      repeated: with any overlap no limit is kept. */
  lemma LimitKeptIff(u: Unicode, cfg: Config, m: Marks)
    requires PlainWords(u, m) && cfg.maxTokens != 1
    ensures (forall text :: Respects(u, cfg, m, text))
       <==> !cfg.splitLong || cfg.hardMaxChars <= 0 || (cfg.hardMaxChars >= Bound(cfg) && cfg.overlapRatio <= 0.0)
  {
    hide Bound, PlainWords, Respects;
    if cfg.splitLong && cfg.hardMaxChars >= 1 {
      if cfg.hardMaxChars < Bound(cfg) {
        var text := OverLimit(u, cfg, m);
      } else if cfg.overlapRatio > 0.0 {
        BoundTokens(cfg, cfg.hardMaxChars);
        OverlapOver(u, cfg, m, cfg.hardMaxChars);
      } else {
        forall text ensures Respects(u, cfg, m, text) {
          AllRespected(u, cfg, m, text);
        }
      }
    } else {
      forall text ensures Respects(u, cfg, m, text) {
        PlainTicks(u, m);
        Trivially(u, cfg, m, text);
      }
    }
  }

  lemma PlainTicks(u: Unicode, m: Marks)
    requires PlainWords(u, m)
    ensures !u.isSpace('`')
  {
  }

  lemma AllRespected(u: Unicode, cfg: Config, m: Marks, text: string)
    requires PlainWords(u, m) && cfg.splitLong && cfg.hardMaxChars >= Bound(cfg) && cfg.overlapRatio <= 0.0
    ensures Respects(u, cfg, m, text)
  {
    hide Parts, SegmentsOf, Bound;
    NothingWhole(u, cfg, m);
    if text != "" {
      HardLimitIff(u, cfg, m, text);
    }
  }

  lemma NothingPacked(u: Unicode, cfg: Config, m: Marks)
    ensures PackedOf(u, cfg, m, []) == [] && GroupsAtHeadings(m, []) == [] && RepackedOf(u, cfg, m, []) == []
  {
  }

  /** Within a limit of zero there are no paragraphs, and so no blocks. */
  lemma NoBlocks(u: Unicode, cfg: Config, text: string)
    requires !u.isSpace('`') && AllWithin(Parts(u, cfg, text), 0)
    ensures BlocksOf(u, text, cfg.preserveCode) == []
  {
    var blocks := BlocksOf(u, text, cfg.preserveCode);
    NoEmptyPart(u, blocks);
    NoneWithinZero(ParasAll(u, blocks));
    hide BlocksOf, Paras, Ink;
    InkOfParas(u, blocks);
    InkAllNone(u, []);
    BlocksOfInk(u, text, cfg.preserveCode);
    UnfencedBlocks(u, cfg, text);
    ParasOfParas(u, text);
  }

  lemma NoneWithinZero(xs: seq<string>)
    requires "" !in xs && AllWithin(xs, 0)
    ensures xs == []
  {
    if xs != [] {
      FirstIn(xs);
    }
  }

  lemma FirstIn(xs: seq<string>)
    requires xs != []
    ensures xs[0] in xs
  {
  }

  lemma NoEmptyPart(u: Unicode, xs: seq<string>)
    ensures "" !in ParasAll(u, xs)
  {
    ParasOfAll(u, xs, "");
    forall x | x in xs ensures "" !in Paras(u, x) {
      ParagraphAlone(u, x);
    }
    hide Paras, ParasAll;
  }

  /** Without splitting a text over the limit is dropped; with a limit of zero only blank texts meet the
      condition, and they have no segments. */
  lemma Trivially(u: Unicode, cfg: Config, m: Marks, text: string)
    requires !u.isSpace('`') && (!cfg.splitLong || cfg.hardMaxChars <= 0)
    ensures Respects(u, cfg, m, text)
  {
    hide Parts, PackedOf, RepackedOf, Tokens, WithOverlap, BlocksOf, GroupsAtHeadings;
    if cfg.splitLong && text != "" && AllWithin(Parts(u, cfg, text), cfg.hardMaxChars) {
      NoBlocks(u, cfg, text);
      NothingPacked(u, cfg, m);
      NothingOver(u, cfg, m);
    }
  }

  lemma NothingOver(u: Unicode, cfg: Config, m: Marks)
    ensures WithOverlap(u, cfg, m, []) == []
  {
  }

  /** The shipped configuration lies below the bound. */
  lemma ShippedBound(cfg: Config)
    requires cfg.maxTokens == 3000 && cfg.charsPerToken == 4.0
    ensures Bound(cfg) == 26998
  {
    assert -(-2.0 * 4.0).Floor == 8;
  }
}
