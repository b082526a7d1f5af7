/** The windowed semantic filter: bounded buckets of signatures that answer as the whole history
    restricted to two windows would. */
module Semantic {
  import opened Collections

  /** A 64-bit signature, least significant bit first. */
  type Sig = s: seq<bool> | |s| == 64 witness seq(64, _ => false)

  datatype Entry = Entry(sig: Sig, toks: set<string>)

  datatype Config = Config(
    maxBucket: nat, hammingMax: int, jaccardMin: real, recentJaccardMin: real, requireBoth: bool,
    words: string -> seq<string>, tokenHash: string -> Sig)

  const WORD_LIMIT: nat := 2048
  const RECENT_SCAN: nat := 128
  const RECENT_MAX: nat := 2048
  const RECENT_KEEP: nat := 1024

  // ---- simhash ----

  /** Votes for bit `i`: one up for each word whose hash has it, one down for each other. */
  function Votes(c: Config, words: seq<string>, i: nat): int
    requires i < 64
  {
    if words == [] then 0
    else Votes(c, words[..|words| - 1], i) + if c.tokenHash(words[|words| - 1])[i] then 1 else -1
  }

  function Capped(words: seq<string>): seq<string> {
    if |words| > WORD_LIMIT then words[..WORD_LIMIT] else words
  }

  function Simhash(c: Config, words: seq<string>): Sig {
    seq(64, i requires 0 <= i < 64 => words != [] && Votes(c, Capped(words), i) >= 0)
  }

  method ComputeSimhash(c: Config, words: seq<string>) returns (out: Sig)
    ensures out == Simhash(c, words)
  {
    if words == [] {
      return seq(64, _ => false);
    }
    var capped := Capped(words);
    var weights := new int[64](_ => 0);
    for k := 0 to |capped|
      invariant forall i :: 0 <= i < 64 ==> weights[i] == Votes(c, capped[..k], i)
    {
      assert capped[..k + 1][..k] == capped[..k];
      var h := c.tokenHash(capped[k]);
      for i := 0 to 64
        invariant forall j :: 0 <= j < i ==> weights[j] == Votes(c, capped[..k + 1], j)
        invariant forall j :: i <= j < 64 ==> weights[j] == Votes(c, capped[..k], j)
      {
        weights[i] := weights[i] + if h[i] then 1 else -1;
      }
    }
    assert capped[..|capped|] == capped;
    out := seq(64, i requires 0 <= i < 64 reads weights => weights[i] >= 0);
  }

  lemma {:induction false} VotesSplit(c: Config, a: seq<string>, b: seq<string>, i: nat)
    requires i < 64
    ensures Votes(c, a + b, i) == Votes(c, a, i) + Votes(c, b, i)
  {
    if b == [] {
      assert a + b == a;
    } else {
      assert (a + b)[..|a + b| - 1] == a + b[..|b| - 1];
      VotesSplit(c, a, b[..|b| - 1], i);
    }
  }

  /** Votes do not depend on the order of the words. */
  lemma {:induction false} VotesUnordered(c: Config, a: seq<string>, b: seq<string>, i: nat)
    requires i < 64 && multiset(a) == multiset(b)
    ensures Votes(c, a, i) == Votes(c, b, i)
  {
    hide Votes;
    if a == [] {
      assert |multiset(b)| == 0;
    } else {
      var w := a[|a| - 1];
      var front, rest := WithoutLast(a, b);
      VotesUnordered(c, a[..|a| - 1], front + rest, i);
      assert a == a[..|a| - 1] + [w];
      VotesSplit(c, a[..|a| - 1], [w], i);
      VotesSplit(c, front, rest, i);
      VotesSplit(c, front + [w], rest, i);
      VotesSplit(c, front, [w], i);
    }
  }

  /** The signature sees a bag of words: texts within the word limit and with the same words in
      any order have the same signature. */
  lemma SimhashUnordered(c: Config, a: seq<string>, b: seq<string>)
    requires multiset(a) == multiset(b) && |a| <= WORD_LIMIT
    ensures Simhash(c, a) == Simhash(c, b)
  {
    assert |multiset(a)| == |a| && |multiset(b)| == |b|;
    forall i | 0 <= i < 64
      ensures Simhash(c, a)[i] == Simhash(c, b)[i]
    {
      VotesUnordered(c, a, b, i);
    }
  }

  /** The words among the first `n` whose hash has bit `i`. */
  function Having(c: Config, words: seq<string>, n: nat, i: nat): set<nat>
    requires n <= |words| && i < 64
  {
    set k: nat | k < n && c.tokenHash(words[k])[i]
  }

  lemma {:induction false} VotesCount(c: Config, words: seq<string>, n: nat, i: nat)
    requires n <= |words| && i < 64
    ensures Votes(c, words[..n], i) == 2 * |Having(c, words, n, i)| - n
  {
    if n == 0 {
      assert Having(c, words, 0, i) == {};
    } else {
      VotesCount(c, words, n - 1, i);
      assert words[..n][..n - 1] == words[..n - 1];
      var more := if c.tokenHash(words[n - 1])[i] then {n - 1} else {};
      assert Having(c, words, n, i) == Having(c, words, n - 1, i) + more;
    }
  }

  /** A bit is set when at least half of the first 2048 words have it; without words none is. */
  lemma SimhashIs(c: Config, words: seq<string>, i: nat)
    requires i < 64
    ensures
      var n := if |words| < 2048 then |words| else 2048;
      Simhash(c, words)[i] <==> n > 0 && 2 * |Having(c, words, n, i)| >= n
  {
    var n := if |words| < 2048 then |words| else 2048;
    assert words[..|words|] == words;
    VotesCount(c, words, n, i);
  }

  // ---- distance and overlap ----

  /** Bits on which two signatures differ, among the first `n`. */
  function Differing(a: Sig, b: Sig, n: nat): nat
    requires n <= 64
  {
    if n == 0 then 0 else Differing(a, b, n - 1) + if a[n - 1] != b[n - 1] then 1 else 0
  }

  function Hamming(a: Sig, b: Sig): nat {
    Differing(a, b, 64)
  }

  lemma {:induction false} DifferingMetric(a: Sig, b: Sig, d: Sig, n: nat)
    requires n <= 64
    ensures Differing(a, b, n) == 0 <==> a[..n] == b[..n]
    ensures Differing(a, b, n) == Differing(b, a, n)
    ensures Differing(a, d, n) <= Differing(a, b, n) + Differing(b, d, n)
  {
    if n > 0 {
      DifferingMetric(a, b, d, n - 1);
      assert a[..n] == a[..n - 1] + [a[n - 1]] && b[..n] == b[..n - 1] + [b[n - 1]];
    }
  }

  /** The distance of signatures is a metric. */
  lemma HammingMetric(a: Sig, b: Sig, d: Sig)
    ensures Hamming(a, b) == 0 <==> a == b
    ensures Hamming(a, b) == Hamming(b, a)
    ensures Hamming(a, d) <= Hamming(a, b) + Hamming(b, d)
  {
    DifferingMetric(a, b, d, 64);
    assert a[..64] == a && b[..64] == b;
  }

  /** The bits below `n` in which two signatures differ. */
  function Differences(a: Sig, b: Sig, n: nat): set<nat>
    requires n <= 64
  {
    set i: nat | i < n && a[i] != b[i]
  }

  lemma {:induction false} DifferingCounts(a: Sig, b: Sig, n: nat)
    requires n <= 64
    ensures Differing(a, b, n) == |Differences(a, b, n)|
  {
    if n == 0 {
      assert Differences(a, b, n) == {};
    } else {
      DifferingCounts(a, b, n - 1);
      var more := if a[n - 1] != b[n - 1] then {n - 1} else {};
      assert Differences(a, b, n) == Differences(a, b, n - 1) + more;
    }
  }

  /** The distance is the number of bits that differ. */
  lemma HammingCounts(a: Sig, b: Sig)
    ensures Hamming(a, b) == |Differences(a, b, 64)|
  {
    DifferingCounts(a, b, 64);
  }

  function Jaccard(a: set<string>, b: set<string>): real {
    if a == {} || b == {} then 0.0
    else |a * b| as real / (if |a + b| > 1 then |a + b| else 1) as real
  }

  lemma JaccardSelf(a: set<string>)
    requires a != {}
    ensures Jaccard(a, a) == 1.0
  {
    assert a * a == a && a + a == a;
    assert |a| >= 1;
    assert |a| as real / |a| as real == 1.0;
  }

  // ---- what the whole history would answer ----

  function TopByte(sig: Sig): seq<bool> {
    sig[56..]
  }

  predicate Near(c: Config, e: Entry, prev: Entry, jaccardMin: real) {
    var close := Hamming(e.sig, prev.sig) <= c.hammingMax;
    var alike := Jaccard(e.toks, prev.toks) >= jaccardMin;
    if c.requireBoth then close && alike else close || alike
  }

  function SameBucket(history: seq<Entry>, key: seq<bool>): seq<Entry> {
    if history == [] then []
    else
      var rest := SameBucket(history[..|history| - 1], key);
      var last := history[|history| - 1];
      if TopByte(last.sig) == key then rest + [last] else rest
  }

  /** The newcomer is near one of the last `maxBucket` texts of its bucket, or near one of the
      last 128 texts of all. */
  ghost predicate NearHistory(c: Config, history: seq<Entry>, e: Entry) {
    || (exists p :: p in Last(SameBucket(history, TopByte(e.sig)), c.maxBucket) && Near(c, e, p, c.jaccardMin))
    || (exists p :: p in Last(history, RECENT_SCAN) && Near(c, e, p, c.recentJaccardMin))
  }

  function Described(c: Config, text: string): Entry {
    Entry(Simhash(c, c.words(text)), set w | w in c.words(text))
  }

  // ---- the bounded index ----

  function Sigs(entries: seq<Entry>): seq<Sig> {
    seq(|entries|, i requires 0 <= i < |entries| => entries[i].sig)
  }

  function Tokens(entries: seq<Entry>): seq<set<string>> {
    seq(|entries|, i requires 0 <= i < |entries| => entries[i].toks)
  }

  function At<T>(m: map<seq<bool>, seq<T>>, key: seq<bool>): seq<T> {
    if key in m then m[key] else []
  }

  /** Each bucket is the last `cap` of its texts, with its token list aligned. */
  ghost predicate BucketsOk(
    cap: nat, history: seq<Entry>,
    buckets: map<seq<bool>, seq<Sig>>, bucketTokens: map<seq<bool>, seq<set<string>>>)
  {
    forall key ::
      && At(buckets, key) == Sigs(Last(SameBucket(history, key), cap))
      && At(bucketTokens, key) == Tokens(Last(SameBucket(history, key), cap))
  }

  /** The recent list is a tail of the history that is whole or at least 1024 long. */
  ghost predicate RecentOk(history: seq<Entry>, recent: seq<Entry>) {
    && |recent| <= |history| && recent == history[|history| - |recent|..]
    && |recent| <= RECENT_MAX && (|recent| >= RECENT_KEEP || recent == history)
  }

  class StreamingSemanticDedup {
    const cfg: Config
    var buckets: map<seq<bool>, seq<Sig>>
    var bucketTokens: map<seq<bool>, seq<set<string>>>
    var recent: seq<Entry>
    var duplicates: int
    var kept: int
    /** Every text ever registered. */
    ghost var history: seq<Entry>

    ghost predicate Valid()
      reads this
    {
      && BucketsOk(cfg.maxBucket, history, buckets, bucketTokens)
      && RecentOk(history, recent)
      && kept == |history|
    }

    constructor (c: Config)
      ensures Valid() && history == [] && cfg == c && duplicates == 0
    {
      cfg := c;
      buckets, bucketTokens, recent := map[], map[], [];
      duplicates, kept, history := 0, 0, [];
    }

    method Matches(e: Entry) returns (near: bool)
      requires Valid()
      ensures near <==> NearHistory(cfg, history, e)
    {
      var key := TopByte(e.sig);
      ghost var window := Last(SameBucket(history, key), cfg.maxBucket);
      RecentTail(history, recent);
      assert At(buckets, key) == Sigs(window) && At(bucketTokens, key) == Tokens(window);
      hide Near, BucketsOk, RecentOk, Sigs, Tokens, SameBucket, Last, TopByte;
      near := ScanBucket(cfg, e, At(buckets, key), At(bucketTokens, key), window);
      if !near {
        near := ScanRecent(cfg, e, Last(recent, RECENT_SCAN));
      }
    }

    /** Registering extends the history; dropping what left the windows changes no answer. */
    method Register(e: Entry)
      requires Valid()
      modifies this
      ensures Valid() && history == old(history) + [e] && duplicates == old(duplicates)
    {
      hide BucketsOk, RecentOk, Last, TopByte, At;
      BucketsGrow(cfg.maxBucket, history, e, buckets, bucketTokens);
      RecentGrows(history, e, recent);
      var key := TopByte(e.sig);
      var bucket, tokBucket := ShedFront(At(buckets, key) + [e.sig], At(bucketTokens, key) + [e.toks], cfg.maxBucket);
      buckets, bucketTokens := buckets[key := bucket], bucketTokens[key := tokBucket];
      recent := recent + [e];
      if |recent| > RECENT_MAX {
        recent := Last(recent, RECENT_KEEP);
      }
      history, kept := history + [e], kept + 1;
    }

    method ShouldKeep(text: string) returns (keep: bool)
      requires Valid()
      modifies this`duplicates
      ensures Valid() && history == old(history)
      ensures keep <==> !NearHistory(cfg, history, Described(cfg, text))
      ensures duplicates == old(duplicates) + if keep then 0 else 1
    {
      hide NearHistory, Described, BucketsOk, RecentOk;
      var e := Describe(cfg, text);
      var near := Matches(e);
      keep := !near;
      if near {
        duplicates := duplicates + 1;
      }
    }

    /** The verdict is the history's; a text that is not near anything joins the history. */
    method IsNearDuplicate(text: string) returns (near: bool)
      requires Valid()
      modifies this
      ensures Valid() && (near <==> NearHistory(cfg, old(history), Described(cfg, text)))
      ensures history == if near then old(history) else old(history) + [Described(cfg, text)]
      ensures duplicates == old(duplicates) + if near then 1 else 0
    {
      hide NearHistory, Described, BucketsOk, RecentOk;
      var e := Describe(cfg, text);
      near := Matches(e);
      if near {
        duplicates := duplicates + 1;
      } else {
        Register(e);
      }
    }
  }

  /** Both columns lose the same number of entries from the front. */
  method ShedFront(bucket: seq<Sig>, tokBucket: seq<set<string>>, cap: nat) returns (b: seq<Sig>, t: seq<set<string>>)
    requires |bucket| == |tokBucket|
    ensures b == Last(bucket, cap) && t == Last(tokBucket, cap)
  {
    b, t := bucket, tokBucket;
    if |bucket| > cap {
      var k := |bucket| - cap;
      b, t := bucket[k..], tokBucket[k..];
    }
  }

  method Describe(c: Config, text: string) returns (e: Entry)
    ensures e == Described(c, text)
  {
    var words := c.words(text);
    var sig := ComputeSimhash(c, words);
    e := Entry(sig, set w | w in words);
  }

  method ScanBucket(c: Config, e: Entry, bucket: seq<Sig>, tokBucket: seq<set<string>>, ghost window: seq<Entry>)
      returns (near: bool)
    requires bucket == Sigs(window) && tokBucket == Tokens(window)
    ensures near <==> exists p :: p in window && Near(c, e, p, c.jaccardMin)
  {
    for i := 0 to |bucket|
      invariant forall j :: 0 <= j < i ==> !Near(c, e, window[j], c.jaccardMin)
    {
      var close := Hamming(e.sig, bucket[i]) <= c.hammingMax;
      var alike := i < |tokBucket| && Jaccard(e.toks, tokBucket[i]) >= c.jaccardMin;
      if if c.requireBoth then close && alike else close || alike {
        assert window[i] in window && Near(c, e, window[i], c.jaccardMin);
        return true;
      }
    }
    return false;
  }

  method ScanRecent(c: Config, e: Entry, tail: seq<Entry>) returns (near: bool)
    ensures near <==> exists p :: p in tail && Near(c, e, p, c.recentJaccardMin)
  {
    for i := 0 to |tail|
      invariant forall j :: 0 <= j < i ==> !Near(c, e, tail[j], c.recentJaccardMin)
    {
      if Near(c, e, tail[i], c.recentJaccardMin) {
        return true;
      }
    }
    return false;
  }

  /** The last 128 of the recent list are the last 128 ever registered. */
  lemma RecentTail(history: seq<Entry>, recent: seq<Entry>)
    requires RecentOk(history, recent)
    ensures Last(recent, RECENT_SCAN) == Last(history, RECENT_SCAN)
  {
  }

  lemma RecentGrows(history: seq<Entry>, e: Entry, recent: seq<Entry>)
    requires RecentOk(history, recent)
    ensures
      var grown := recent + [e];
      RecentOk(history + [e], if |grown| > RECENT_MAX then Last(grown, RECENT_KEEP) else grown)
  {
  }

  /** One more text: its own bucket moves on by one and the others stay. */
  lemma BucketsGrow(
      cap: nat, history: seq<Entry>, e: Entry,
      buckets: map<seq<bool>, seq<Sig>>, bucketTokens: map<seq<bool>, seq<set<string>>>)
    requires BucketsOk(cap, history, buckets, bucketTokens)
    ensures
      var key := TopByte(e.sig);
      var (bucket, toks) := (At(buckets, key) + [e.sig], At(bucketTokens, key) + [e.toks]);
      && |bucket| == |toks|
      && BucketsOk(cap, history + [e], buckets[key := Last(bucket, cap)], bucketTokens[key := Last(toks, cap)])
  {
    hide TopByte, SameBucket, Last, Sigs, Tokens;
    var key := TopByte(e.sig);
    var window := Last(SameBucket(history, key), cap);
    assert At(buckets, key) == Sigs(window) && At(bucketTokens, key) == Tokens(window);
    WindowGrows(window, e, cap);
    LastGrows(SameBucket(history, key), e, cap);
    var (b, t) := (Last(At(buckets, key) + [e.sig], cap), Last(At(bucketTokens, key) + [e.toks], cap));
    ColumnGrows(buckets, key, b);
    ColumnGrows(bucketTokens, key, t);
    forall k
      ensures At(buckets[key := b], k) == Sigs(Last(SameBucket(history + [e], k), cap))
      ensures At(bucketTokens[key := t], k) == Tokens(Last(SameBucket(history + [e], k), cap))
    {
      SameBucketGrows(history, e, k);
      assert At(buckets, k) == Sigs(Last(SameBucket(history, k), cap));
      hide At;
    }
  }

  lemma ColumnGrows<T>(column: map<seq<bool>, seq<T>>, key: seq<bool>, b: seq<T>)
    ensures At(column[key := b], key) == b
    ensures forall k :: k != key ==> At(column[key := b], k) == At(column, k)
  {
  }

  lemma SameBucketGrows(history: seq<Entry>, e: Entry, k: seq<bool>)
    ensures SameBucket(history + [e], k) ==
            if k == TopByte(e.sig) then SameBucket(history, k) + [e] else SameBucket(history, k)
  {
    assert (history + [e])[..|history|] == history;
  }

  /** Columns of a window that takes one more entry and sheds the excess. */
  lemma WindowGrows(window: seq<Entry>, e: Entry, cap: nat)
    ensures |Sigs(window)| == |Tokens(window)|
    ensures Last(Sigs(window) + [e.sig], cap) == Sigs(Last(window + [e], cap))
    ensures Last(Tokens(window) + [e.toks], cap) == Tokens(Last(window + [e], cap))
  {
  }

  lemma LastGrows(xs: seq<Entry>, x: Entry, cap: nat)
    ensures Last(Last(xs, cap) + [x], cap) == Last(xs + [x], cap)
  {
  }

  // ---- what the windows guarantee ----

  /** A registered text with at least one word is rejected on resubmission while fewer than 128
      others have been registered since. */
  lemma ResubmissionNear(c: Config, before: seq<Entry>, text: string, since: seq<Entry>)
    requires c.hammingMax >= 0 && c.recentJaccardMin <= 1.0
    requires c.words(text) != [] && |since| < RECENT_SCAN
    ensures NearHistory(c, before + [Described(c, text)] + since, Described(c, text))
  {
    var e := Described(c, text);
    var history := before + [e] + since;
    assert c.words(text)[0] in e.toks;
    JaccardSelf(e.toks);
    HammingMetric(e.sig, e.sig, e.sig);
    var tail := Last(history, RECENT_SCAN);
    assert tail[|tail| - 1 - |since|] == e;
    assert e in tail && Near(c, e, e, c.recentJaccardMin);
  }

  /** The text stands in the window of the newcomer's bucket. */
  ghost predicate InBucketWindow(c: Config, history: seq<Entry>, e: Entry, p: Entry) {
    p in Last(SameBucket(history, TopByte(e.sig)), c.maxBucket)
  }

  lemma BucketMore(history: seq<Entry>, p: Entry, sig: Sig)
    ensures SameBucket(history + [p], TopByte(sig)) ==
            SameBucket(history, TopByte(sig)) + if SameTop(p.sig, sig) then [p] else []
    ensures SameBucket([], TopByte(sig)) == []
  {
    assert (history + [p])[..|history|] == history;
    TopBytesIff(p.sig, sig);
  }

  /** The signatures agree in the top eight bits. */
  ghost predicate SameTop(a: Sig, b: Sig) {
    forall i :: 56 <= i < 64 ==> a[i] == b[i]
  }

  /** The bucket of a signature is made of the texts that agree with it in the top eight bits, in the
      order they came in. */
  lemma {:induction false} BucketMembers(a: seq<Entry>, p: Entry, b: seq<Entry>, sig: Sig)
    ensures SameBucket(a + [p] + b, TopByte(sig)) ==
            SameBucket(a, TopByte(sig)) + (if SameTop(p.sig, sig) then [p] else []) + SameBucket(b, TopByte(sig))
  {
    hide *;
    BucketMore(a, p, sig);
    var one := SameBucket(a + [p], TopByte(sig));
    if b == [] {
      assert a + [p] + b == a + [p] && one + [] == one;
      BucketMore([], p, sig);
    } else {
      var (front, last) := (b[..|b| - 1], b[|b| - 1]);
      SplitLast(a + [p], front, b);
      BucketMembers(a, p, front, sig);
      BucketMore(front, last, sig);
      BucketMore(a + [p] + front, last, sig);
      Grouped(one, SameBucket(front, TopByte(sig)), if SameTop(last.sig, sig) then [last] else []);
    }
  }

  lemma TopBytesIff(a: Sig, b: Sig)
    ensures TopByte(a) == TopByte(b) <==> SameTop(a, b)
  {
    assert forall i :: 56 <= i < 64 ==> TopByte(a)[i - 56] == a[i] && TopByte(b)[i - 56] == b[i];
    if TopByte(a) == TopByte(b) {
      forall i | 56 <= i < 64 ensures a[i] == b[i] {
        assert TopByte(a)[i - 56] == TopByte(b)[i - 56];
      }
    }
  }

  /** What near means, signal by signal: some text of one of the two windows is within the Hamming limit
      and overlaps as much as that window asks; where one signal is enough, either. */
  lemma NearHistoryIs(c: Config, history: seq<Entry>, e: Entry)
    ensures c.requireBoth ==>
      (NearHistory(c, history, e) <==> exists p: Entry ::
         && Hamming(e.sig, p.sig) <= c.hammingMax
         && ((InBucketWindow(c, history, e, p) && Jaccard(e.toks, p.toks) >= c.jaccardMin)
             || (p in Last(history, 128) && Jaccard(e.toks, p.toks) >= c.recentJaccardMin)))
    ensures !c.requireBoth ==>
      (NearHistory(c, history, e) <==> exists p: Entry ::
         || (InBucketWindow(c, history, e, p)
             && (Hamming(e.sig, p.sig) <= c.hammingMax || Jaccard(e.toks, p.toks) >= c.jaccardMin))
         || (p in Last(history, 128)
             && (Hamming(e.sig, p.sig) <= c.hammingMax || Jaccard(e.toks, p.toks) >= c.recentJaccardMin)))
  {
    hide Hamming, Jaccard, SameBucket, Last, TopByte;
  }

  /** With both signals required, a text further than the limit from every text of its windows is not
      near, however much it overlaps, and one that overlaps with none is not near, however close. */
  lemma BothRequired(c: Config, history: seq<Entry>, e: Entry)
    requires c.requireBoth
    requires
      || (forall p :: InBucketWindow(c, history, e, p) || p in Last(history, RECENT_SCAN) ==>
            Hamming(e.sig, p.sig) > c.hammingMax)
      || (c.jaccardMin > 0.0 && c.recentJaccardMin > 0.0 && forall p ::
            InBucketWindow(c, history, e, p) || p in Last(history, RECENT_SCAN) ==> e.toks * p.toks == {})
    ensures !NearHistory(c, history, e)
  {
    NearHistoryIs(c, history, e);
    forall p: Entry | e.toks * p.toks == {} ensures Jaccard(e.toks, p.toks) == 0.0 {
      Disjoint(e.toks, p.toks);
    }
    hide NearHistory, Hamming, Jaccard, InBucketWindow, Last;
  }

  lemma Disjoint(a: set<string>, b: set<string>)
    requires a * b == {}
    ensures Jaccard(a, b) == 0.0
  {
    assert |a * b| == 0;
  }

  /** Asking for both signals never makes a text near. */
  lemma BothIsStricter(c: Config, history: seq<Entry>, e: Entry)
    requires NearHistory(c.(requireBoth := true), history, e)
    ensures NearHistory(c.(requireBoth := false), history, e)
  {
    hide Hamming, Jaccard, SameBucket, Last, TopByte;
  }

  /** The overlap lies between zero and one: common words over all words, and zero without words. */
  lemma JaccardIs(a: set<string>, b: set<string>)
    ensures 0.0 <= Jaccard(a, b) <= 1.0 && Jaccard(a, b) == Jaccard(b, a)
    ensures a != {} && b != {} ==> Jaccard(a, b) * |a + b| as real == |a * b| as real
    ensures a == {} || b == {} ==> Jaccard(a, b) == 0.0
  {
    assert a * b == b * a && a + b == b + a;
    if a != {} && b != {} {
      var (n, m) := (|a * b|, |a + b|);
      SubsetSize(a * b, a + b);
      SubsetSize(a, a + b);
      assert |a| > 0;
      Fraction(n as real, m as real);
    }
  }

  lemma SubsetSize(a: set<string>, b: set<string>)
    requires a <= b
    ensures |a| <= |b|
  {
    assert b == a + (b - a);
  }

  lemma Fraction(x: real, y: real)
    requires 0.0 <= x <= y && y > 0.0
    ensures 0.0 <= x / y <= 1.0 && x / y * y == x
  {
  }

  // ---- streams and resuming ----

  /** The history after a stream of texts: those not near the history so far. */
  ghost function Kept(c: Config, history: seq<Entry>, stream: seq<string>): seq<Entry> {
    if stream == [] then history
    else
      var h := Kept(c, history, stream[..|stream| - 1]);
      var e := Described(c, stream[|stream| - 1]);
      if NearHistory(c, h, e) then h else h + [e]
  }

  ghost function Verdicts(c: Config, history: seq<Entry>, stream: seq<string>): seq<bool> {
    if stream == [] then []
    else
      var front := stream[..|stream| - 1];
      Verdicts(c, history, front) + [NearHistory(c, Kept(c, history, front), Described(c, stream[|stream| - 1]))]
  }

  /** The texts of a stream that were kept, in order. */
  ghost function KeptTexts(c: Config, history: seq<Entry>, stream: seq<string>): seq<string> {
    if stream == [] then []
    else
      var front := stream[..|stream| - 1];
      var rest := KeptTexts(c, history, front);
      if NearHistory(c, Kept(c, history, front), Described(c, stream[|stream| - 1])) then rest
      else rest + [stream[|stream| - 1]]
  }

  function DescribedAll(c: Config, texts: seq<string>): seq<Entry> {
    seq(|texts|, i requires 0 <= i < |texts| => Described(c, texts[i]))
  }

  /** Registering just the kept texts rebuilds the history. */
  lemma {:induction false} ReplayRebuilds(c: Config, history: seq<Entry>, stream: seq<string>)
    ensures history + DescribedAll(c, KeptTexts(c, history, stream)) == Kept(c, history, stream)
  {
    if stream != [] {
      var front := stream[..|stream| - 1];
      ReplayRebuilds(c, history, front);
      var texts := KeptTexts(c, history, front);
      var last := stream[|stream| - 1];
      assert DescribedAll(c, texts + [last]) == DescribedAll(c, texts) + [Described(c, last)];
    }
  }

  /** Not stopping: the second stream is judged against the history the first one left. */
  lemma {:induction false} VerdictsResume(c: Config, history: seq<Entry>, first: seq<string>, second: seq<string>)
    ensures Kept(c, history, first + second) == Kept(c, Kept(c, history, first), second)
    ensures Verdicts(c, history, first + second)
         == Verdicts(c, history, first) + Verdicts(c, Kept(c, history, first), second)
  {
    if second == [] {
      assert first + second == first;
    } else {
      var all := first + second;
      assert all[..|all| - 1] == first + second[..|second| - 1];
      VerdictsResume(c, history, first, second[..|second| - 1]);
      assert all[|all| - 1] == second[|second| - 1];
    }
    hide NearHistory, Described;
  }
}
