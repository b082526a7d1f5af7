/** Resuming the semantic filter when the first kept texts are not replayed. */
module SemanticResume {
  import opened Collections
  import opened Semantic

  // ---- what decides verdicts ----

  /** The two windows the filter looks at are the same. */
  ghost predicate SameWindows(c: Config, h: seq<Entry>, k: seq<Entry>) {
    && (forall key :: Last(SameBucket(h, key), c.maxBucket) == Last(SameBucket(k, key), c.maxBucket))
    && Last(h, RECENT_SCAN) == Last(k, RECENT_SCAN)
  }

  lemma SameAnswer(c: Config, h: seq<Entry>, k: seq<Entry>, e: Entry)
    requires SameWindows(c, h, k)
    ensures NearHistory(c, h, e) <==> NearHistory(c, k, e)
  {
    hide Near, SameBucket, Last;
  }

  lemma LastTwice(xs: seq<Entry>, ys: seq<Entry>, x: Entry, cap: nat)
    requires Last(xs, cap) == Last(ys, cap)
    ensures Last(xs + [x], cap) == Last(ys + [x], cap)
  {
    LastGrows(xs, x, cap);
    LastGrows(ys, x, cap);
    hide Last;
  }

  lemma WindowsMove(c: Config, h: seq<Entry>, k: seq<Entry>, e: Entry)
    requires SameWindows(c, h, k)
    ensures SameWindows(c, h + [e], k + [e])
  {
    hide SameBucket, Last;
    forall key ensures Last(SameBucket(h + [e], key), c.maxBucket) == Last(SameBucket(k + [e], key), c.maxBucket) {
      SameBucketGrows(h, e, key);
      SameBucketGrows(k, e, key);
      if key == TopByte(e.sig) {
        LastTwice(SameBucket(h, key), SameBucket(k, key), e, c.maxBucket);
      }
    }
    LastTwice(h, k, e, RECENT_SCAN);
  }

  /** A stream of texts gets the same verdicts after one history and after another. */
  ghost predicate SameVerdicts(c: Config, h: seq<Entry>, k: seq<Entry>, stream: seq<string>) {
    Verdicts(c, h, stream) == Verdicts(c, k, stream)
  }

  /** Histories with the same windows give every stream the same verdicts. */
  lemma {:induction false} WindowsDecide(c: Config, h: seq<Entry>, k: seq<Entry>, stream: seq<string>)
    requires SameWindows(c, h, k)
    ensures Verdicts(c, h, stream) == Verdicts(c, k, stream)
    ensures SameWindows(c, Kept(c, h, stream), Kept(c, k, stream))
  {
    hide SameWindows, NearHistory, Described;
    if stream != [] {
      var front := stream[..|stream| - 1];
      WindowsDecide(c, h, k, front);
      var e := Described(c, stream[|stream| - 1]);
      SameAnswer(c, Kept(c, h, front), Kept(c, k, front), e);
      WindowsMove(c, Kept(c, h, front), Kept(c, k, front), e);
    }
  }

  // ---- histories that lost their first entries ----

  lemma {:induction false} SameBucketSplit(a: seq<Entry>, b: seq<Entry>, key: seq<bool>)
    ensures SameBucket(a + b, key) == SameBucket(a, key) + SameBucket(b, key)
  {
    if b == [] {
      assert a + b == a;
    } else {
      var front := b[..|b| - 1];
      SameBucketSplit(a, front, key);
      assert (a + b)[..|a + b| - 1] == a + front;
    }
    hide TopByte;
  }

  lemma {:induction false} SameBucketHas(h: seq<Entry>, key: seq<bool>, e: Entry)
    ensures e in SameBucket(h, key) <==> e in h && TopByte(e.sig) == key
  {
    if h != [] {
      SameBucketHas(h[..|h| - 1], key, e);
      assert h == h[..|h| - 1] + [h[|h| - 1]];
    }
    hide TopByte;
  }

  /** The end of a list decides its last `cap` exactly when nothing is before it, or it has that many. */
  lemma LastOfEnd(xs: seq<Entry>, ys: seq<Entry>, cap: nat)
    ensures Last(xs + ys, cap) == Last(ys, cap) <==> xs == [] || |ys| >= cap
  {
    if |ys| >= cap {
      assert Last(xs + ys, cap) == Last(ys, cap);
    }
  }

  /** Enough has been kept since: 128 texts after the first `n`, and `maxBucket` of the bucket of
      each of those. */
  ghost predicate Refilled(c: Config, history: seq<Entry>, n: nat)
    requires n <= |history|
  {
    && (n == 0 || |history| - n >= RECENT_SCAN)
    && forall i :: 0 <= i < n ==> |SameBucket(history[n..], TopByte(history[i].sig))| >= c.maxBucket
  }

  /** Without its first `n` entries a history has the same windows exactly when they were refilled. */
  lemma SameWindowsIff(c: Config, history: seq<Entry>, n: nat)
    requires n <= |history|
    ensures SameWindows(c, history, history[n..]) <==> Refilled(c, history, n)
  {
    var (a, b) := (history[..n], history[n..]);
    assert history == a + b;
    LastOfEnd(a, b, RECENT_SCAN);
    forall key
      ensures Last(SameBucket(history, key), c.maxBucket) == Last(SameBucket(b, key), c.maxBucket)
         <==> SameBucket(a, key) == [] || |SameBucket(b, key)| >= c.maxBucket
    {
      SameBucketSplit(a, b, key);
      LastOfEnd(SameBucket(a, key), SameBucket(b, key), c.maxBucket);
    }
    forall i | 0 <= i < n ensures SameBucket(a, TopByte(history[i].sig)) != [] {
      SameBucketHas(a, TopByte(history[i].sig), history[i]);
      assert a[i] in a;
    }
    forall key | SameBucket(a, key) != [] ensures exists i :: 0 <= i < n && TopByte(history[i].sig) == key {
      var e := SameBucket(a, key)[0];
      SameBucketHas(a, key, e);
      var i :| 0 <= i < n && a[i] == e;
      assert history[i] == e;
    }
    hide SameBucket, Last, TopByte;
  }

  // ---- what is forgotten ----

  /** Losing the start of a history never makes a text near. */
  lemma LessIsNear(c: Config, a: seq<Entry>, b: seq<Entry>, e: Entry)
    requires NearHistory(c, b, e)
    ensures NearHistory(c, a + b, e)
  {
    hide Near, SameBucket, TopByte;
    var key := TopByte(e.sig);
    SameBucketSplit(a, b, key);
    EndOfLast(SameBucket(a, key), SameBucket(b, key), c.maxBucket);
    EndOfLast(a, b, RECENT_SCAN);
    hide Last;
  }

  lemma EndOfLast(a: seq<Entry>, b: seq<Entry>, cap: nat)
    ensures forall p :: p in Last(b, cap) ==> p in Last(a + b, cap)
  {
    forall p | p in Last(b, cap) ensures p in Last(a + b, cap) {
      var i :| 0 <= i < |Last(b, cap)| && Last(b, cap)[i] == p;
      var more := Last(a + b, cap);
      assert more[|more| - |Last(b, cap)| + i] == p;
    }
  }

  lemma NearSymmetric(c: Config, e: Entry, f: Entry, min: real)
    ensures Near(c, e, f, min) <==> Near(c, f, e, min)
  {
    HammingMetric(e.sig, f.sig, e.sig);
    assert e.toks * f.toks == f.toks * e.toks && e.toks + f.toks == f.toks + e.toks;
    hide Hamming;
  }

  /** A text with a word is near itself. */
  predicate Recognises(c: Config) {
    c.hammingMax >= 0 && c.jaccardMin <= 1.0 && c.recentJaccardMin <= 1.0
  }

  /** As the source ships it: a bucket is no smaller than the recent window, and the recent window
      asks for no less than the bucket. */
  predicate AsShipped(c: Config) {
    c.maxBucket >= RECENT_SCAN && c.jaccardMin <= c.recentJaccardMin
  }

  lemma NearRecent(c: Config, e: Entry, f: Entry)
    requires c.jaccardMin <= c.recentJaccardMin && Near(c, e, f, c.recentJaccardMin)
    ensures Near(c, e, f, c.jaccardMin)
  {
    hide Hamming, Jaccard;
  }

  lemma NearSelf(c: Config, e: Entry)
    requires Recognises(c) && e.toks != {}
    ensures Near(c, e, e, c.jaccardMin) && Near(c, e, e, c.recentJaccardMin)
  {
    JaccardSelf(e.toks);
    HammingMetric(e.sig, e.sig, e.sig);
    hide Hamming, Jaccard;
  }

  /** These are the thresholds under which every text with a word is near itself, by both signals and in
      both windows. */
  lemma RecognisesIff(c: Config)
    ensures Recognises(c) <==> forall e: Entry | e.toks != {} ::
      Near(c.(requireBoth := true), e, e, c.jaccardMin) && Near(c.(requireBoth := true), e, e, c.recentJaccardMin)
  {
    var both := c.(requireBoth := true);
    forall e: Entry | Recognises(c) && e.toks != {}
      ensures Near(both, e, e, c.jaccardMin) && Near(both, e, e, c.recentJaccardMin)
    {
      NearSelf(both, e);
    }
    var e := Entry(seq(64, _ => false), {""});
    JaccardSelf(e.toks);
    HammingMetric(e.sig, e.sig, e.sig);
    hide Hamming, Jaccard;
  }

  /** No entry was near the history before it. */
  ghost predicate Apart(c: Config, history: seq<Entry>) {
    forall i :: 0 <= i < |history| ==> !NearHistory(c, history[..i], history[i])
  }

  lemma {:induction false} KeptApart(c: Config, stream: seq<string>)
    ensures Apart(c, Kept(c, [], stream))
  {
    hide NearHistory, Described;
    if stream != [] {
      KeptApart(c, stream[..|stream| - 1]);
      var h := Kept(c, [], stream[..|stream| - 1]);
      var e := Described(c, stream[|stream| - 1]);
      assert (h + [e])[..|h|] == h;
      assert forall i :: 0 <= i < |h| ==> (h + [e])[..i] == h[..i];
    }
  }

  /** While fewer than `maxBucket` of its bucket follow it, an entry is in the window of its bucket. */
  lemma InBucket(c: Config, before: seq<Entry>, e: Entry, after: seq<Entry>)
    requires |SameBucket(after, TopByte(e.sig))| < c.maxBucket
    ensures e in Last(SameBucket(before + [e] + after, TopByte(e.sig)), c.maxBucket)
  {
    var key := TopByte(e.sig);
    SameBucketSplit(before + [e], after, key);
    SameBucketGrows(before, e, key);
    var (xs, ys) := (SameBucket(before, key), SameBucket(after, key));
    hide SameBucket, TopByte;
    assert SameBucket(before + [e] + after, key) == xs + [e] + ys;
    var window := Last(xs + [e] + ys, c.maxBucket);
    assert window[|window| - 1 - |ys|] == e;
  }

  /** Between an entry and a later one of the bucket there are fewer of it than after the first. */
  lemma FewerBetween(history: seq<Entry>, i: nat, j: nat, key: seq<bool>)
    requires i < j < |history| && TopByte(history[j].sig) == key
    ensures |SameBucket(history[i + 1..j], key)| < |SameBucket(history[i + 1..], key)|
    ensures history[..j] == history[..i] + [history[i]] + history[i + 1..j]
  {
    hide SameBucket, TopByte;
    var (between, after) := (history[i + 1..j], history[j + 1..]);
    assert history[i + 1..] == between + [history[j]] + after;
    SameBucketSplit(between + [history[j]], after, key);
    SameBucketGrows(between, history[j], key);
  }

  lemma NotNear(c: Config, history: seq<Entry>, e: Entry, f: Entry)
    requires !NearHistory(c, history, f) && e in Last(SameBucket(history, TopByte(f.sig)), c.maxBucket)
    ensures !Near(c, e, f, c.jaccardMin)
  {
    NearSymmetric(c, e, f, c.jaccardMin);
    hide Near, SameBucket, Last, TopByte;
  }

  /** Entries that came to a bucket after one of its last `maxBucket` are not near that one. */
  lemma LaterApart(c: Config, history: seq<Entry>, i: nat, j: nat)
    requires Apart(c, history) && i < j < |history| && TopByte(history[j].sig) == TopByte(history[i].sig)
    requires |SameBucket(history[i + 1..], TopByte(history[i].sig))| <= c.maxBucket
    ensures !Near(c, history[i], history[j], c.jaccardMin)
  {
    hide Near, SameBucket, TopByte, Last, NearHistory;
    var key := TopByte(history[i].sig);
    FewerBetween(history, i, j, key);
    InBucket(c, history[..i], history[i], history[i + 1..j]);
    NotNear(c, history[..j], history[i], history[j]);
  }

  /** A skipped entry and one kept since, of another bucket, are not near each other. With buckets and
      thresholds as shipped nothing is asked of entries of one bucket; else they are not near either. */
  ghost predicate Unlike(c: Config, history: seq<Entry>, n: nat)
    requires n <= |history|
  {
    forall e, f :: e in history[..n] && f in history[n..] ==>
      if TopByte(e.sig) != TopByte(f.sig) then !Near(c, e, f, c.recentJaccardMin)
      else AsShipped(c) || (!Near(c, e, f, c.jaccardMin) && !Near(c, e, f, c.recentJaccardMin))
  }

  /** A skipped text is let through again on resume when it would not have been without stopping:
      fewer than `maxBucket` of its bucket were kept after it, and no later text of another bucket
      is near it. */
  lemma Forgotten(c: Config, history: seq<Entry>, n: nat, i: nat)
    requires Recognises(c) && c.jaccardMin <= c.recentJaccardMin
    requires Apart(c, history) && i < n <= |history| && history[i].toks != {}
    requires |SameBucket(history[i + 1..], TopByte(history[i].sig))| < c.maxBucket
    requires forall f :: f in history[n..] && Near(c, history[i], f, c.recentJaccardMin) ==>
      TopByte(f.sig) == TopByte(history[i].sig)
    ensures NearHistory(c, history, history[i]) && !NearHistory(c, history[n..], history[i])
  {
    hide Near, SameBucket, TopByte;
    var (e, rest) := (history[i], history[n..]);
    var key := TopByte(e.sig);
    NearSelf(c, e);
    InBucket(c, history[..i], e, history[i + 1..]);
    assert history == history[..i] + [e] + history[i + 1..];
    forall f | f in rest && TopByte(f.sig) == key
      ensures !Near(c, e, f, c.jaccardMin) && !Near(c, e, f, c.recentJaccardMin)
    {
      var j :| 0 <= j < |rest| && rest[j] == f;
      assert history[n + j] == f;
      LaterApart(c, history, i, n + j);
      if Near(c, e, f, c.recentJaccardMin) {
        NearRecent(c, e, f);
      }
    }
    forall f | f in Last(SameBucket(rest, key), c.maxBucket) ensures !Near(c, e, f, c.jaccardMin) {
      SameBucketHas(rest, key, f);
      LastWithin(SameBucket(rest, key), c.maxBucket, f);
    }
    forall f | f in Last(rest, RECENT_SCAN) ensures !Near(c, e, f, c.recentJaccardMin) {
      LastWithin(rest, RECENT_SCAN, f);
    }
    hide Last;
  }

  lemma LastWithin(xs: seq<Entry>, cap: nat, x: Entry)
    requires x in Last(xs, cap)
    ensures x in xs
  {
  }

  /** The last entry of a bucket among the first `n`. */
  lemma {:induction false} LastOfBucket(history: seq<Entry>, n: nat, i: nat) returns (j: nat)
    requires i < n <= |history|
    ensures j < n && TopByte(history[j].sig) == TopByte(history[i].sig)
    ensures SameBucket(history[j + 1..], TopByte(history[i].sig)) == SameBucket(history[n..], TopByte(history[i].sig))
    decreases n - i
  {
    hide SameBucket, TopByte;
    var key := TopByte(history[i].sig);
    var between := history[i + 1..n];
    assert history[i + 1..] == between + history[n..];
    SameBucketSplit(between, history[n..], key);
    if SameBucket(between, key) == [] {
      j := i;
    } else {
      var f := SameBucket(between, key)[0];
      SameBucketHas(between, key, f);
      var k :| 0 <= k < |between| && between[k] == f;
      assert history[i + 1 + k] == f;
      j := LastOfBucket(history, n, i + 1 + k);
    }
  }

  /** A bucket holds no more than the history it is of. */
  lemma {:induction false} SameBucketSize(h: seq<Entry>, key: seq<bool>)
    ensures |SameBucket(h, key)| <= |h|
  {
    if h != [] {
      SameBucketSize(h[..|h| - 1], key);
    }
  }

  /** Nothing kept since is near the skipped entry. */
  lemma NoneLike(c: Config, history: seq<Entry>, n: nat, i: nat)
    requires i < n <= |history| && Unlike(c, history, n) && !AsShipped(c)
    ensures !NearHistory(c, history[n..], history[i])
  {
    hide Near, SameBucket, TopByte;
    var (e, rest) := (history[i], history[n..]);
    assert e == history[..n][i] && e in history[..n];
    var key := TopByte(e.sig);
    forall f | f in Last(SameBucket(rest, key), c.maxBucket) ensures !Near(c, e, f, c.jaccardMin) {
      LastWithin(SameBucket(rest, key), c.maxBucket, f);
      SameBucketHas(rest, key, f);
    }
    forall f | f in Last(rest, RECENT_SCAN) ensures !Near(c, e, f, c.recentJaccardMin) {
      LastWithin(rest, RECENT_SCAN, f);
    }
    hide Last;
  }

  /** The last skipped entry stands among the last 128 while fewer were kept since. */
  lemma StillRecent(c: Config, history: seq<Entry>, n: nat)
    requires Recognises(c) && 0 < n <= |history| && |history| - n < RECENT_SCAN && history[n - 1].toks != {}
    ensures NearHistory(c, history, history[n - 1])
  {
    hide Near, SameBucket, TopByte;
    NearSelf(c, history[n - 1]);
    var tail := Last(history, RECENT_SCAN);
    assert tail[|tail| - 1 - (|history| - n)] == history[n - 1];
  }

  /** An entry whose bucket was not refilled since is near itself. */
  lemma StillInBucket(c: Config, history: seq<Entry>, i: nat)
    requires Recognises(c) && i < |history| && history[i].toks != {}
    requires |SameBucket(history[i + 1..], TopByte(history[i].sig))| < c.maxBucket
    ensures NearHistory(c, history, history[i])
  {
    hide Near, SameBucket, TopByte, Last;
    NearSelf(c, history[i]);
    InBucket(c, history[..i], history[i], history[i + 1..]);
    assert history == history[..i] + [history[i]] + history[i + 1..];
  }

  /** With buckets no smaller than the recent window, that is refilled when a bucket is. */
  lemma RecentRefilled(c: Config, history: seq<Entry>, n: nat)
    requires c.maxBucket >= RECENT_SCAN && n <= |history|
    requires forall i :: 0 <= i < n ==> |SameBucket(history[n..], TopByte(history[i].sig))| >= c.maxBucket
    ensures Refilled(c, history, n)
  {
    hide SameBucket, TopByte;
    if n > 0 {
      SameBucketSize(history[n..], TopByte(history[0].sig));
    }
  }

  /** Where the windows were not refilled, a skipped text is forgotten. */
  lemma NotRefilled(c: Config, history: seq<Entry>, n: nat) returns (i: nat)
    requires Recognises(c) && Apart(c, history) && n <= |history| && Unlike(c, history, n)
    requires forall e :: e in history[..n] ==> e.toks != {}
    requires !Refilled(c, history, n)
    ensures i < n && NearHistory(c, history, history[i]) && !NearHistory(c, history[n..], history[i])
  {
    hide Near, SameBucket, TopByte, Apart, NearHistory;
    forall j | 0 <= j < n ensures history[j] in history[..n] {
      assert history[j] == history[..n][j];
    }
    if k :| 0 <= k < n && |SameBucket(history[n..], TopByte(history[k].sig))| < c.maxBucket {
      i := LastOfBucket(history, n, k);
      if AsShipped(c) {
        Forgotten(c, history, n, i);
      } else {
        StillInBucket(c, history, i);
        hide Unlike;
        NoneLike(c, history, n, i);
      }
    } else {
      if c.maxBucket >= RECENT_SCAN {
        RecentRefilled(c, history, n);
      }
      i := n - 1;
      StillRecent(c, history, n);
      hide Unlike;
      NoneLike(c, history, n, i);
    }
  }

  lemma VerdictOfOne(c: Config, history: seq<Entry>, text: string)
    ensures Verdicts(c, history, [text]) == [NearHistory(c, history, Described(c, text))]
  {
    hide NearHistory, Described;
    assert [text][..0] == [];
  }

  /** Every stream gets the same verdicts without the first `n` of the history, exactly when the
      windows were refilled since. */
  lemma VerdictsWithoutIff(c: Config, texts: seq<string>, n: nat)
    requires Recognises(c) && n <= |texts|
    requires forall t :: t in texts[..n] ==> c.words(t) != []
    requires Apart(c, DescribedAll(c, texts)) && Unlike(c, DescribedAll(c, texts), n)
    ensures
      var history := DescribedAll(c, texts);
      (forall stream :: SameVerdicts(c, history, history[n..], stream)) <==> Refilled(c, history, n)
  {
    hide SameWindows, Refilled, NearHistory, Apart, Unlike;
    var history := DescribedAll(c, texts);
    SameWindowsIff(c, history, n);
    forall stream ensures Refilled(c, history, n) ==> SameVerdicts(c, history, history[n..], stream) {
      if Refilled(c, history, n) {
        WindowsDecide(c, history, history[n..], stream);
      }
    }
    if !Refilled(c, history, n) {
      WordsSeen(c, texts, n);
      var i := NotRefilled(c, history, n);
      hide Described, Verdicts;
      VerdictOfOne(c, history, texts[i]);
      VerdictOfOne(c, history[n..], texts[i]);
      assert !SameVerdicts(c, history, history[n..], [texts[i]]);
    }
  }

  lemma WordsSeen(c: Config, texts: seq<string>, n: nat)
    requires n <= |texts| && forall t :: t in texts[..n] ==> c.words(t) != []
    ensures forall e :: e in DescribedAll(c, texts)[..n] ==> e.toks != {}
  {
    hide Simhash;
    forall e | e in DescribedAll(c, texts)[..n] ensures e.toks != {} {
      var i :| 0 <= i < n && e == Described(c, texts[i]);
      assert texts[..n][i] in texts[..n];
      assert c.words(texts[i])[0] in e.toks;
    }
  }
}
