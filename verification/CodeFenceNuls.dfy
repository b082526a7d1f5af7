/** When restoring gives back the protected text, with NULs in the text or without. */
module CodeFenceNuls {
  import opened CodeFences
  import opened CodeFenceProofs

  // ---- occurrences ----

  predicate Occurs(s: string, key: string, p: int) {
    0 <= p && p + |key| <= |s| && s[p..p + |key|] == key
  }

  ghost predicate Has(s: string, key: string) {
    exists p :: Occurs(s, key, p)
  }

  lemma OccursTail(s: string, key: string, p: int)
    requires s != ""
    ensures p >= 0 ==> (Occurs(s[1..], key, p) <==> Occurs(s, key, p + 1))
  {
    if 0 <= p && p + |key| <= |s| - 1 {
      assert s[1..][p..p + |key|] == s[p + 1..p + 1 + |key|];
    }
  }

  lemma NotHere(s: string, key: string, val: string)
    requires s != "" && key != "" && !Occurs(s, key, 0)
    ensures Replace(s, key, val) == [s[0]] + Replace(s[1..], key, val)
  {
    assert |s| >= |key| ==> s[0..|key|] == s[..|key|];
  }

  /** What no occurrence starts in is left alone. */
  lemma {:induction false} SkipTo(a: string, b: string, key: string, val: string)
    requires key != "" && forall p :: 0 <= p < |a| ==> !Occurs(a + b, key, p)
    ensures Replace(a + b, key, val) == a + Replace(b, key, val)
  {
    hide Occurs, Replace;
    if a == "" {
      assert a + b == b;
    } else {
      var (s, rest) := (a + b, a[1..]);
      assert s[1..] == rest + b && s[0] == a[0];
      forall p | 0 <= p < |rest| ensures !Occurs(rest + b, key, p) {
        OccursTail(s, key, p);
        assert !Occurs(s, key, p + 1);
      }
      SkipTo(rest, b, key, val);
      NotHere(s, key, val);
      var more := Replace(b, key, val);
      assert a + more == [a[0]] + (rest + more);
    }
  }

  lemma {:induction false} Leftmost(s: string, key: string, p: int) returns (q: int)
    requires Occurs(s, key, p)
    ensures 0 <= q <= p && Occurs(s, key, q) && forall r :: 0 <= r < q ==> !Occurs(s, key, r)
    decreases p
  {
    hide Occurs;
    q := p;
    if r :| 0 <= r < p && Occurs(s, key, r) {
      q := Leftmost(s, key, r);
    } else {
      OccursWithin(s, key, p);
    }
  }

  lemma OccursWithin(s: string, key: string, p: int)
    requires Occurs(s, key, p)
    ensures 0 <= p && p + |key| <= |s| && s == s[..p] + key + s[p + |key|..]
  {
  }

  /** The leftmost occurrence goes first. */
  lemma ReplaceAt(s: string, key: string, val: string, q: int)
    requires key != "" && Occurs(s, key, q) && forall r :: 0 <= r < q ==> !Occurs(s, key, r)
    ensures q + |key| <= |s| && Replace(s, key, val) == s[..q] + val + Replace(s[q + |key|..], key, val)
  {
    hide Replace, Occurs;
    OccursWithin(s, key, q);
    var (front, rest) := (s[..q], s[q + |key|..]);
    assert s == front + (key + rest);
    SkipTo(front, key + rest, key, val);
    ReplaceHere(key, rest, val);
    assert front + (val + Replace(rest, key, val)) == front + val + Replace(rest, key, val);
  }

  lemma ReplaceHere(key: string, rest: string, val: string)
    requires key != ""
    ensures Replace(key + rest, key, val) == val + Replace(rest, key, val)
  {
    assert (key + rest)[..|key|] == key && (key + rest)[|key|..] == rest;
  }

  lemma OccursIn(a: string, b: string, key: string, p: int)
    requires p + |key| <= |a|
    ensures Occurs(a + b, key, p) <==> Occurs(a, key, p)
  {
    if 0 <= p {
      assert (a + b)[p..p + |key|] == a[p..p + |key|];
    }
  }

  // ---- a text cut short by a backtick ----

  ghost predicate Delimited(key: string) {
    |key| >= 2 && key[0] == '\0' && key[|key| - 1] == '\0'
    && forall i :: 0 < i < |key| - 1 ==> key[i] != '\0' && key[i] != '`'
  }

  /** Keys as the source makes them, and values that start with a backtick. */
  ghost predicate Proper(ph: seq<(string, string)>) {
    forall p :: p in ph ==> Delimited(p.0) && p.1 != "" && p.1[0] == '`'
  }

  lemma CharAt(s: string, key: string, p: int, k: int)
    requires Occurs(s, key, p) && p <= k < p + |key|
    ensures s[k] == key[k - p]
  {
    assert s[p..p + |key|][k - p] == s[k];
  }

  /** An occurrence that starts before a backtick ends before it. */
  lemma BeforeTick(a: string, b: string, key: string, p: int)
    requires Delimited(key) && p <= |a|
    ensures Occurs(a + "`" + b, key, p) <==> Occurs(a, key, p)
  {
    var s := a + "`" + b;
    assert s == a + ("`" + b);
    if Occurs(s, key, p) && p + |key| > |a| {
      CharAt(s, key, p, |a|);
    }
    if p + |key| <= |a| {
      OccursIn(a, "`" + b, key, p);
    }
  }

  /** Replacement before a backtick: nothing happens there, or the leftmost occurrence gives way to a
      text that starts with a backtick itself. */
  lemma TickStep(a: string, b: string, key: string, val: string) returns (q: int, more: string)
    requires Delimited(key) && val != "" && val[0] == '`'
    ensures !Has(a, key) ==> Replace(a + "`" + b, key, val) == a + "`" + more
    ensures Has(a, key) ==>
      && Occurs(a, key, q) && (forall r :: 0 <= r < q ==> !Occurs(a, key, r))
      && Replace(a + "`" + b, key, val) == a[..q] + "`" + more
  {
    hide Delimited, Occurs, Replace;
    var s := a + "`" + b;
    forall p | p <= |a| ensures Occurs(s, key, p) <==> Occurs(a, key, p) {
      BeforeTick(a, b, key, p);
    }
    DelimitedIs(key);
    if p :| Occurs(a, key, p) {
      OccursWithin(a, key, p);
      q := Leftmost(a, key, p);
      OccursWithin(a, key, q);
      ReplaceAt(s, key, val, q);
      var rest := Replace(s[q + |key|..], key, val);
      assert val == "`" + val[1..] && s[..q] == a[..q];
      more := val[1..] + rest;
      assert a[..q] + val + rest == a[..q] + "`" + more;
    } else {
      q := 0;
      assert s == (a + "`") + b;
      SkipTo(a + "`", b, key, val);
      more := Replace(b, key, val);
    }
  }

  lemma DelimitedIs(key: string)
    requires Delimited(key)
    ensures key != "" && |key| >= 2 && key[0] == '\0'
  {
  }

  /** Where a backtick stands no NUL comes back. */
  lemma {:induction false} TickStays(a: string, b: string, ph: seq<(string, string)>)
    requires Proper(ph)
    ensures forall p :: p in ph ==> p.0 != ""
    ensures !(a + "\0" <= Restored(a + "`" + b, ph))
    decreases |ph|
  {
    ProperKeys(ph);
    if ph == [] {
      assert (a + "`" + b)[|a|] == '`' && (a + "\0")[|a|] == '\0';
    } else {
      var (key, val) := ph[0];
      hide Delimited, Occurs, Replace;
      ProperTail(ph);
      var q, more := TickStep(a, b, key, val);
      if Has(a, key) {
        TickStays(a[..q], more, ph[1..]);
        NulAt(a, key, q);
        assert a[..q] + "\0" == (a + "\0")[..q + 1];
      } else {
        TickStays(a, more, ph[1..]);
      }
    }
  }

  lemma ProperKeys(ph: seq<(string, string)>)
    requires Proper(ph)
    ensures forall p :: p in ph ==> p.0 != ""
  {
  }

  lemma ProperTail(ph: seq<(string, string)>)
    requires Proper(ph) && ph != []
    ensures Proper(ph[1..]) && Delimited(ph[0].0) && ph[0].1 != "" && ph[0].1[0] == '`'
  {
    assert ph[0] in ph;
  }

  lemma NulAt(a: string, key: string, q: int)
    requires Delimited(key) && Occurs(a, key, q)
    ensures 0 <= q < |a| && a[q] == '\0'
  {
    assert a[q..q + |key|][0] == a[q];
  }

  /** A NUL before a word and a backtick stays, or a backtick takes the place of an earlier NUL. */
  lemma {:induction false} NulStays(a: string, w: string, b: string, ph: seq<(string, string)>)
    requires Proper(ph) && NulFree(w)
    ensures forall p :: p in ph ==> p.0 != ""
    ensures !(a + "`" <= Restored(a + "\0" + w + "`" + b, ph))
    decreases |ph|
  {
    ProperKeys(ph);
    if ph == [] {
      assert (a + "\0" + w + "`" + b)[|a|] == '\0' && (a + "`")[|a|] == '`';
    } else {
      var (key, val) := ph[0];
      var s := a + "\0" + w;
      hide Delimited, Occurs, Replace, NulFree;
      ProperTail(ph);
      var q, more := TickStep(s, b, key, val);
      if Has(s, key) {
        NulBefore(a, w, key, q);
        TickStays(s[..q], more, ph[1..]);
        NulAt(s, key, q);
        assert s[..q] + "\0" == (a + "`")[..q + 1];
      } else {
        NulStays(a, w, more, ph[1..]);
      }
    }
  }

  lemma NulBefore(a: string, w: string, key: string, q: int)
    requires Delimited(key) && NulFree(w) && Occurs(a + "\0" + w, key, q)
    ensures q < |a|
  {
    var s := a + "\0" + w;
    var e := q + |key| - 1;
    assert s[q..q + |key|][0] == s[q] && s[q..q + |key|][|key| - 1] == s[e];
    assert forall k :: |a| < k < |s| ==> s[k] == w[k - |a| - 1] && w[k - |a| - 1] in w;
  }

  // ---- the protected text cut short ----

  /** What the cut leaves at its end: nothing, or the first NUL and body of a placeholder. */
  function Stub(late: bool, m: nat): string {
    if late then "\0" + Body(m) else ""
  }

  /** The first gaps of a protected text, the last one and perhaps the placeholder after it cut short. */
  function Cut(gaps: seq<string>, from: nat, late: bool): string
    requires gaps != []
  {
    Protected(gaps, from) + Stub(late, from + |gaps| - 1)
  }

  /** What the original text has there: a NUL of its own, or the fence of the placeholder cut short. */
  function Due(gaps: seq<string>, fences: seq<string>, late: bool): string
    requires gaps != [] && |fences| >= |gaps| - 1
  {
    Weave(gaps, fences[..|gaps| - 1]) + if late then "`" else "\0"
  }

  ghost predicate Fences(fences: seq<string>) {
    forall f :: f in fences ==> f != "" && f[0] == '`'
  }

  lemma KeyDelimited(k: nat)
    ensures Delimited(Key(k)) && Key(k) == "\0" + Body(k) + "\0" && NulFree(Body(k))
  {
    BodyIs(k);
    var body := Body(k);
    hide Body;
    forall i | 0 < i < |Key(k)| - 1 ensures Key(k)[i] == body[i - 1] && body[i - 1] in body {
    }
  }

  lemma {:induction false} StashProper(fences: seq<string>, from: nat)
    requires Fences(fences)
    ensures Proper(Stash(fences, from))
  {
    if fences != [] {
      assert fences[0] in fences && forall f :: f in fences[1..] ==> f in fences;
      KeyDelimited(from);
      StashProper(fences[1..], from + 1);
    }
    hide Delimited, Key;
  }

  lemma KeySize(k: nat)
    ensures |Key(k)| >= 2
  {
    KeyDelimited(k);
  }

  /** Two keys at one place are one key. */
  lemma SameKey(s: string, j: nat, k: nat, p: int)
    requires Occurs(s, Key(j), p) && Occurs(s, Key(k), p)
    ensures j == k
  {
    KeyDelimited(j);
    KeyDelimited(k);
    var (a, b) := (Key(j), Key(k));
    hide Body, Key;
    if |a| < |b| {
      CharAt(s, a, p, p + |a| - 1);
      CharAt(s, b, p, p + |a| - 1);
    } else if |b| < |a| {
      CharAt(s, b, p, p + |b| - 1);
      CharAt(s, a, p, p + |b| - 1);
    } else {
      assert a == b;
      assert a[1..|a| - 1] == Body(j) && b[1..|b| - 1] == Body(k);
      BodyIs(j);
    }
  }

  /** An occurrence takes its second NUL from `s`, so it cannot start at the last one. */
  lemma TwoNuls(s: string, key: string, p: int)
    requires Delimited(key) && Occurs(s, key, p)
    ensures exists k :: p < k < |s| && s[k] == '\0'
    ensures 0 <= p < |s| && s[p] == '\0'
  {
    CharAt(s, key, p, p);
    CharAt(s, key, p, p + |key| - 1);
  }

  lemma StubNul(g: string, late: bool, m: nat, p: int)
    requires |g| <= p < |g + Stub(late, m)| && (g + Stub(late, m))[p] == '\0'
    ensures late && p == |g|
  {
    BodyIs(m);
    var (s, body) := (g + Stub(late, m), Body(m));
    hide Body;
    assert forall q :: |g| < q < |s| ==> late && s[q] == body[q - |g| - 1] && body[q - |g| - 1] in body;
  }

  /** In the last gap an occurrence starts before the end of the gap. */
  lemma InLastGap(g: string, late: bool, m: nat, k: nat, p: int)
    requires Occurs(g + Stub(late, m), Key(k), p)
    ensures 0 <= p < |g| && g[p] == '\0'
  {
    KeyDelimited(k);
    hide Body, Key;
    var s := g + Stub(late, m);
    TwoNuls(s, Key(k), p);
    var e :| p < e < |s| && s[e] == '\0';
    if p >= |g| {
      StubNul(g, late, m, p);
      StubNul(g, late, m, e);
    }
  }

  /** Where an occurrence of another key can start before the next placeholder is over. */
  lemma InFirstGap(g: string, from: nat, rest: string, k: nat, p: int)
    requires k != from && Occurs(g + Key(from) + rest, Key(k), p) && p < |g| + |Key(from)|
    ensures (0 <= p < |g| && g[p] == '\0') || p == |g| + |Key(from)| - 1
  {
    KeyDelimited(k);
    KeyDelimited(from);
    hide Body, Key;
    var s := g + Key(from) + rest;
    TwoNuls(s, Key(k), p);
    if p == |g| {
      assert s[p..p + |Key(from)|] == Key(from);
      SameKey(s, from, k, p);
    } else if p > |g| {
      assert s[p] == Key(from)[p - |g|];
    }
  }

  lemma CutSplits(g: string, gaps: seq<string>, from: nat, late: bool)
    requires gaps != []
    ensures Cut([g] + gaps, from, late) == g + Key(from) + Cut(gaps, from + 1, late)
    ensures Cut([g], from, late) == g + Stub(late, from)
  {
    assert ([g] + gaps)[1..] == gaps;
    hide Key, Body;
    var (x, y) := (Protected(gaps, from + 1), Stub(late, from + |gaps|));
    assert g + Key(from) + x + y == g + Key(from) + (x + y);
  }

  lemma WeaveSplits(g: string, gaps: seq<string>, fences: seq<string>)
    requires gaps != [] && |fences| >= |gaps|
    ensures Weave([g] + gaps, fences[..|gaps|]) == g + fences[0] + Weave(gaps, fences[1..][..|gaps| - 1])
  {
    hide Weave;
    WeaveMore(g, fences[0], gaps, fences[1..][..|gaps| - 1]);
    assert fences[..|gaps|] == [fences[0]] + fences[1..][..|gaps| - 1];
  }

  lemma DueIs(gaps: seq<string>, fences: seq<string>, late: bool, n: nat)
    requires |gaps| == n + 1 && |fences| >= n
    ensures Due(gaps, fences, late) == Weave(gaps, fences[..n]) + if late then "`" else "\0"
  {
  }

  lemma DueSplits(g: string, gaps: seq<string>, fences: seq<string>, late: bool)
    requires gaps != [] && |fences| >= |gaps|
    ensures Due([g] + gaps, fences, late) == g + fences[0] + Due(gaps, fences[1..], late)
    ensures Weave([g] + gaps, fences[..|gaps|]) == g + fences[0] + Weave(gaps, fences[1..][..|gaps| - 1])
  {
    hide Weave, Due;
    WeaveSplits(g, gaps, fences);
    DueIs([g] + gaps, fences, late, |gaps|);
    DueIs(gaps, fences[1..], late, |gaps| - 1);
    var (x, y) := (Weave(gaps, fences[1..][..|gaps| - 1]), if late then "`" else "\0");
    assert g + fences[0] + x + y == g + fences[0] + (x + y);
  }

  lemma WeaveMore(g: string, f: string, gaps: seq<string>, fences: seq<string>)
    requires |gaps| == |fences| + 1
    ensures Weave([g] + gaps, [f] + fences) == g + f + Weave(gaps, fences)
  {
    assert ([g] + gaps)[1..] == gaps && ([f] + fences)[1..] == fences;
  }

  lemma DueOne(g: string, fences: seq<string>, late: bool)
    ensures Due([g], fences, late) == g + if late then "`" else "\0"
  {
  }

  /** Before an occurrence of an earlier key the text is cut short as well, and the original goes on
      there with a NUL or a fence. */
  lemma {:induction false} CutBefore(gaps: seq<string>, fences: seq<string>, from: nat, late: bool, k: nat, p: int)
    returns (gs: seq<string>, stub: bool)
    requires gaps != [] && Fences(fences) && |fences| >= |gaps| - 1
    requires k < from && Occurs(Cut(gaps, from, late), Key(k), p)
    ensures 0 < |gs| && |gs| + (if stub then 1 else 0) <= |gaps|
    ensures p <= |Cut(gaps, from, late)| && Cut(gaps, from, late)[..p] == Cut(gs, from, stub)
    ensures Due(gs, fences, stub) <= Weave(gaps, fences[..|gaps| - 1])
    decreases |gaps|
  {
    hide Body, Key, Occurs, Stub, Cut, Due, Weave, Delimited;
    var (g, rest) := (gaps[0], gaps[1..]);
    var s := Cut(gaps, from, late);
    OccursWithin(s, Key(k), p);
    if rest == [] {
      assert gaps == [g];
      CutSplits(g, [""], from, late);
      InLastGap(g, late, from, k, p);
      gs, stub := [g[..p]], false;
      CutInGap(g, fences, from, p);
      WeaveOne(g, fences);
      assert s[..p] == g[..p];
    } else {
      assert gaps == [g] + rest;
      CutSplits(g, rest, from, late);
      DueSplits(g, rest, fences, late);
      var tail := Cut(rest, from + 1, late);
      if p < |g| + |Key(from)| {
        InFirstGap(g, from, tail, k, p);
        KeySize(from);
        if p < |g| {
          gs, stub := [g[..p]], false;
          CutInGap(g, fences, from, p);
          assert s[..p] == g[..p];
        } else {
          gs, stub := [g], true;
          CutInKey(g, fences, from);
          assert s[..p] == g + Key(from)[..|Key(from)| - 1];
        }
      } else {
        var (i, f) := (p - |g| - |Key(from)|, fences[0]);
        OccursAfter(g + Key(from), tail, Key(k), i);
        assert fences[0] in fences && forall x :: x in fences[1..] ==> x in fences;
        var gs1, stub1 := CutBefore(rest, fences[1..], from + 1, late, k, i);
        gs, stub := [g] + gs1, stub1;
        CutSplits(g, gs1, from, stub);
        DueSplits(g, gs1, fences, stub);
        assert s[..p] == g + Key(from) + tail[..i];
        assert g + f + Due(gs1, fences[1..], stub) <= g + f + Weave(rest, fences[1..][..|rest| - 1]);
      }
    }
  }

  lemma OccursAfter(a: string, b: string, key: string, i: int)
    requires i >= 0 && Occurs(a + b, key, |a| + i)
    ensures Occurs(b, key, i)
  {
    assert b[i..i + |key|] == (a + b)[|a| + i..|a| + i + |key|];
  }

  lemma WeaveOne(g: string, fences: seq<string>)
    ensures Weave([g], fences[..0]) == g
  {
  }

  lemma CutInGap(g: string, fences: seq<string>, from: nat, p: int)
    requires 0 <= p < |g| && g[p] == '\0'
    ensures Cut([g[..p]], from, false) == g[..p] && Due([g[..p]], fences, false) == g[..p + 1]
  {
    assert g[..p] + "" == g[..p] && g[..p] + "\0" == g[..p + 1];
    DueOne(g[..p], fences, false);
  }

  lemma CutInKey(g: string, fences: seq<string>, from: nat)
    requires Fences(fences) && fences != []
    ensures Cut([g], from, true) == g + Key(from)[..|Key(from)| - 1] && Due([g], fences, true) <= g + fences[0]
  {
    KeyDelimited(from);
    assert fences[0] in fences && fences[0][..1] == "`";
    hide Body, Key;
    assert Key(from)[..|Key(from)| - 1] == "\0" + Body(from);
    DueOne(g, fences, true);
    assert g + "`" == (g + fences[0])[..|g| + 1];
  }

  // ---- one step ----

  /** Nothing in the text before it gives way, so the placeholder does. */
  lemma TrueFirst(g: string, key: string, rest: string, val: string)
    requires Delimited(key) && !Has(g + "\0", key)
    ensures Replace(g + key + rest, key, val) == g + val + Replace(rest, key, val)
  {
    hide Replace, Occurs;
    DelimitedIs(key);
    forall r | 0 <= r < |g| ensures !Occurs(g + (key + rest), key, r) {
      NotBefore(g, key, rest, r);
      assert g + (key + rest) == g + key + rest;
    }
    hide Delimited;
    SkipTo(g, key + rest, key, val);
    ReplaceHere(key, rest, val);
    assert g + (key + rest) == g + key + rest;
    assert g + (val + Replace(rest, key, val)) == g + val + Replace(rest, key, val);
  }

  /** An occurrence that starts before the placeholder ends at its first NUL. */
  lemma NotBefore(g: string, key: string, rest: string, r: int)
    requires Delimited(key) && 0 <= r < |g|
    ensures Occurs(g + key + rest, key, r) <==> Occurs(g + "\0", key, r)
  {
    var (s, t) := (g + key + rest, g + "\0");
    assert s[..|g| + 1] == t;
    assert s == t + s[|g| + 1..];
    if Occurs(s, key, r) && r + |key| > |t| {
      CharAt(s, key, r, |g|);
    }
    if r + |key| <= |t| {
      OccursIn(t, s[|g| + 1..], key, r);
    }
  }

  /** The text before the placeholder gives way first: a backtick takes the place of a NUL there. */
  lemma FalseFirst(g: string, key: string, rest: string, val: string) returns (q: int, more: string)
    requires Delimited(key) && Has(g + "\0", key) && val != "" && val[0] == '`'
    ensures 0 <= q < |g| && g[q] == '\0' && Replace(g + key + rest, key, val) == g[..q] + "`" + more
  {
    var s := g + key + rest;
    hide Replace;
    var p :| Occurs(g + "\0", key, p);
    NulEarly(g, key, p);
    NotBefore(g, key, rest, p);
    q := Leftmost(s, key, p);
    TwoNuls(s, key, q);
    ReplaceAt(s, key, val, q);
    var last := Replace(s[q + |key|..], key, val);
    more := val[1..] + last;
    assert s[..q] == g[..q] && val == "`" + val[1..];
    assert g[..q] + val + last == g[..q] + "`" + more;
  }

  lemma NulEarly(g: string, key: string, p: int)
    requires Delimited(key) && Occurs(g + "\0", key, p)
    ensures 0 <= p < |g|
  {
    TwoNuls(g + "\0", key, p);
  }

  // ---- once spoiled, never restored ----

  lemma ProtectedPrepend(x: string, gs: seq<string>, from: nat)
    requires gs != []
    ensures Protected([x + gs[0]] + gs[1..], from) == x + Protected(gs, from)
  {
    hide Key;
    var more := [x + gs[0]] + gs[1..];
    if |gs| > 1 {
      assert more[1..] == gs[1..];
      var (a, b) := (Key(from), Protected(gs[1..], from + 1));
      assert x + gs[0] + a + b == x + (gs[0] + a + b);
    }
  }

  lemma CutPrepend(x: string, gs: seq<string>, from: nat, late: bool)
    requires gs != []
    ensures Cut([x + gs[0]] + gs[1..], from, late) == x + Cut(gs, from, late)
  {
    ProtectedPrepend(x, gs, from);
    hide Protected, Stub;
    var (a, b) := (Protected(gs, from), Stub(late, from + |gs| - 1));
    assert x + a + b == x + (a + b);
  }

  lemma WeavePrepend(x: string, gs: seq<string>, fences: seq<string>)
    requires |gs| == |fences| + 1
    ensures Weave([x + gs[0]] + gs[1..], fences) == x + Weave(gs, fences)
  {
    var more := [x + gs[0]] + gs[1..];
    assert more[1..] == gs[1..];
    if fences != [] {
      var (a, b) := (fences[0], Weave(gs[1..], fences[1..]));
      assert x + gs[0] + a + b == x + (gs[0] + a + b);
    }
  }

  lemma DuePrepend(x: string, gs: seq<string>, fences: seq<string>, late: bool)
    requires gs != [] && |fences| >= |gs| - 1
    ensures Due([x + gs[0]] + gs[1..], fences, late) == x + Due(gs, fences, late)
  {
    WeavePrepend(x, gs, fences[..|gs| - 1]);
    hide Weave;
  }

  lemma StashMore(fences: seq<string>, from: nat, text: string)
    requires fences != [] && Fences(fences)
    ensures Fences(fences[1..]) && fences[0] != "" && fences[0][0] == '`'
    ensures forall p :: p in Stash(fences, from) ==> p.0 != ""
    ensures forall p :: p in Stash(fences[1..], from + 1) ==> p.0 != ""
    ensures Restored(text, Stash(fences, from))
         == Restored(Replace(text, Key(from), fences[0]), Stash(fences[1..], from + 1))
  {
    StashKeys(fences, from);
    StashKeys(fences[1..], from + 1);
    assert fences[0] in fences && forall f :: f in fences[1..] ==> f in fences;
    assert Stash(fences, from)[0] == (Key(from), fences[0]);
    assert Stash(fences, from)[1..] == Stash(fences[1..], from + 1);
    hide Key, Replace, Stash;
  }

  /** The last gap cut short: nothing is left to restore before the cut. */
  lemma SpoiledEnd(g: string, fences: seq<string>, from: nat, late: bool, b: string)
    requires Fences(fences)
    ensures forall p :: p in Stash(fences, from) ==> p.0 != ""
    ensures !(Due([g], fences, late) <= Restored(Cut([g], from, late) + "`" + b, Stash(fences, from)))
  {
    hide Key, Delimited, Restored, Stash, Fences;
    StashKeys(fences, from);
    StashProper(fences, from);
    DueOne(g, fences, late);
    KeyDelimited(from);
    hide Body, Due;
    if late {
      NulStays(g, Body(from), b, Stash(fences, from));
      assert g + ("\0" + Body(from)) + "`" + b == g + "\0" + Body(from) + "`" + b;
    } else {
      TickStays(g, b, Stash(fences, from));
      assert g + "" == g;
    }
  }

  /** One replacement on a text cut short: a backtick takes the place of a NUL before the placeholder,
      or the text is cut short as before or earlier. */
  lemma SpoiledNext(g: string, rest: seq<string>, fences: seq<string>, from: nat, late: bool, b: string)
    returns (q: int, gs: seq<string>, stub: bool, more: string)
    requires rest != [] && Fences(fences) && |rest| + (if late then 1 else 0) <= |fences|
    ensures
      var next := Replace(Cut([g] + rest, from, late) + "`" + b, Key(from), fences[0]);
      if gs == [] then 0 <= q < |g| && g[q] == '\0' && next == g[..q] + "`" + more
      else
        && |gs| - 1 + (if stub then 1 else 0) <= |fences| - 1
        && next == Cut(gs, from + 1, stub) + "`" + more
        && Due(gs, fences[1..], stub) <= Due([g] + rest, fences, late)
  {
    hide Body, Key, Occurs, Cut, Due, Delimited, Replace, Weave;
    var (key, f, tail) := (Key(from), fences[0], Cut(rest, from + 1, late));
    assert f in fences && forall x :: x in fences[1..] ==> x in fences;
    KeyDelimited(from);
    CutSplits(g, rest, from, late);
    DueSplits(g, rest, fences, late);
    assert g + key + tail + "`" + b == g + key + (tail + "`" + b);
    q, gs, stub, more := 0, [], false, "";
    if Has(g + "\0", key) {
      q, more := FalseFirst(g, key, tail + "`" + b, f);
    } else {
      TrueFirst(g, key, tail + "`" + b, f);
      q, more := TickStep(tail, b, key, f);
      var gs1 := rest;
      stub := late;
      if Has(tail, key) {
        OccursWithin(tail, key, q);
        gs1, stub := CutBefore(rest, fences[1..], from + 1, late, from, q);
        DueMore(g, f, gs1, rest, fences, late, stub);
        assert g + f + (tail[..q] + "`" + more) == g + f + tail[..q] + "`" + more;
      } else {
        assert g + f + (tail + "`" + more) == g + f + tail + "`" + more;
      }
      gs := [g + f + gs1[0]] + gs1[1..];
      CutPrepend(g + f, gs1, from + 1, stub);
      DuePrepend(g + f, gs1, fences[1..], stub);
    }
  }

  lemma DueMore(g: string, f: string, gs: seq<string>, rest: seq<string>, fences: seq<string>, late: bool, stub: bool)
    requires gs != [] && rest != [] && |gs| <= |rest| <= |fences| && f == fences[0]
    requires Due(gs, fences[1..], stub) <= Weave(rest, fences[1..][..|rest| - 1])
    ensures g + f + Due(gs, fences[1..], stub) <= Due([g] + rest, fences, late)
  {
    DueSplits(g, rest, fences, late);
    hide Weave;
  }

  /** A protected text cut short before a backtick never comes to be what it should. */
  lemma {:induction false} Spoiled(gs: seq<string>, fences: seq<string>, from: nat, late: bool, b: string)
    requires gs != [] && Fences(fences) && |gs| - 1 + (if late then 1 else 0) <= |fences|
    ensures forall p :: p in Stash(fences, from) ==> p.0 != ""
    ensures !(Due(gs, fences, late) <= Restored(Cut(gs, from, late) + "`" + b, Stash(fences, from)))
    decreases |fences|
  {
    hide Body, Key, Occurs, Cut, Delimited, Restored, Replace, Stash, Fences, Due;
    StashKeys(fences, from);
    var (g, rest) := (gs[0], gs[1..]);
    if rest == [] {
      assert gs == [g];
      SpoiledEnd(g, fences, from, late, b);
    } else {
      assert gs == [g] + rest;
      StashMore(fences, from, Cut(gs, from, late) + "`" + b);
      var q, gs1, stub, more := SpoiledNext(g, rest, fences, from, late, b);
      if gs1 == [] {
        StashProper(fences[1..], from + 1);
        TickStays(g[..q], more, Stash(fences[1..], from + 1));
        DueStarts(g, rest, fences, late, q);
      } else {
        Spoiled(gs1, fences[1..], from + 1, stub, more);
      }
    }
  }

  lemma DueStarts(g: string, rest: seq<string>, fences: seq<string>, late: bool, q: int)
    requires rest != [] && |rest| <= |fences| && 0 <= q < |g| && g[q] == '\0'
    ensures g[..q] + "\0" <= Due([g] + rest, fences, late)
  {
    DueSplits(g, rest, fences, late);
    hide Due;
    assert g[..q] + "\0" == g[..q + 1];
  }

  // ---- the round trip ----

  /** The placeholder of fence `k`, counted on from `from`, stands in the text before the fence (its
      last NUL may be the first of the placeholder itself) or in what follows. */
  ghost predicate Confused(gs: seq<string>, fences: seq<string>, from: nat, k: nat)
    requires |gs| == |fences| + 1 && k < |fences|
  {
    || Has(Weave(gs[..k + 1], fences[..k]) + "\0", Key(from + k))
    || Has(Protected(gs[k + 1..], from + k + 1), Key(from + k))
  }

  /** The gaps and fences left when the first fence is back. */
  function Joint(gs: seq<string>, fences: seq<string>): (r: seq<string>)
    requires |gs| == |fences| + 1 && fences != []
    ensures |r| == |fences|
  {
    [gs[0] + fences[0] + gs[1]] + gs[2..]
  }

  /** With the first fence back, the later ones are confused as before. */
  lemma ConfusedNext(gs: seq<string>, fences: seq<string>, from: nat, k: nat)
    requires |gs| == |fences| + 1 && 0 < k < |fences|
    ensures Confused(gs, fences, from, k) <==> Confused(Joint(gs, fences), fences[1..], from + 1, k - 1)
  {
    hide Has, Key, Protected, Weave;
    var joint := Joint(gs, fences);
    assert joint[k..] == gs[k + 1..];
    var (g, f, front, some) := (gs[0], fences[0], gs[1..k + 1], fences[1..k]);
    assert gs[..k + 1] == [g] + front && fences[..k] == [f] + some && fences[1..][..k - 1] == some;
    assert joint[..k] == [g + f + front[0]] + front[1..];
    WeaveMore(g, f, front, some);
    WeavePrepend(g + f, front, some);
  }

  lemma ConfusedFirst(gs: seq<string>, fences: seq<string>, from: nat)
    requires |gs| == |fences| + 1 && fences != []
    ensures Confused(gs, fences, from, 0) <==>
            Has(gs[0] + "\0", Key(from)) || Has(Protected(gs[1..], from + 1), Key(from))
  {
    assert gs[..1] == [gs[0]] && fences[..0] == [];
    assert Weave([gs[0]], []) == gs[0];
    hide Has, Key, Protected;
  }

  ghost predicate NoneConfused(gs: seq<string>, fences: seq<string>, from: nat)
    requires |gs| == |fences| + 1
  {
    forall k :: 0 <= k < |fences| ==> !Confused(gs, fences, from, k)
  }

  lemma NoneConfusedNext(gs: seq<string>, fences: seq<string>, from: nat)
    requires |gs| == |fences| + 1 && fences != []
    ensures NoneConfused(gs, fences, from) <==>
            !Confused(gs, fences, from, 0) && NoneConfused(Joint(gs, fences), fences[1..], from + 1)
  {
    hide Confused, Joint;
    var (joint, later, next) := (Joint(gs, fences), fences[1..], from + 1);
    forall k | 0 < k < |fences|
      ensures Confused(gs, fences, from, k) <==> Confused(joint, later, next, k - 1)
    {
      ConfusedNext(gs, fences, from, k);
    }
    forall k | 0 <= k < |later|
      ensures Confused(joint, later, next, k) <==> Confused(gs, fences, from, k + 1)
    {
      ConfusedNext(gs, fences, from, k + 1);
    }
  }

  lemma Unhit(s: string, key: string, val: string)
    requires key != "" && !Has(s, key)
    ensures Replace(s, key, val) == s
  {
    assert s + "" == s;
    ReplaceEmpty(key, val);
    hide Replace, Occurs;
    SkipTo(s, "", key, val);
  }

  lemma ProtectedMore(g: string, rest: seq<string>, from: nat)
    requires rest != []
    ensures Protected([g] + rest, from) == g + Key(from) + Protected(rest, from + 1)
  {
    assert ([g] + rest)[1..] == rest;
  }

  /** A confused first placeholder spoils the text. */
  lemma FirstSpoils(g: string, f: string, rest: seq<string>, fences: seq<string>, from: nat)
    requires |rest| == |fences| + 1 && Fences([f] + fences)
    requires Has(g + "\0", Key(from)) || Has(Protected(rest, from + 1), Key(from))
    ensures forall p :: p in Stash([f] + fences, from) ==> p.0 != ""
    ensures Restored(Protected([g] + rest, from), Stash([f] + fences, from)) != Weave([g] + rest, [f] + fences)
  {
    hide Body, Key, Occurs, Has, Delimited, Restored, Replace, Stash, Weave, Protected, Fences;
    WeaveMore(g, f, rest, fences);
    ProtectedMore(g, rest, from);
    StashMore([f] + fences, from, Protected([g] + rest, from));
    assert ([f] + fences)[1..] == fences;
    if Has(g + "\0", Key(from)) {
      GapSpoils(g, f, rest, fences, from);
    } else {
      KeyDelimited(from);
      TrueFirst(g, Key(from), Protected(rest, from + 1), f);
      RestSpoils(g, f, rest, fences, from);
    }
  }

  lemma GapSpoils(g: string, f: string, rest: seq<string>, fences: seq<string>, from: nat)
    requires |rest| == |fences| + 1 && Fences(fences) && f != "" && f[0] == '`' && Has(g + "\0", Key(from))
    ensures forall p :: p in Stash(fences, from + 1) ==> p.0 != ""
    ensures
      var next := Replace(g + Key(from) + Protected(rest, from + 1), Key(from), f);
      Restored(next, Stash(fences, from + 1)) != g + f + Weave(rest, fences)
  {
    hide Body, Key, Occurs, Has, Delimited, Restored, Replace, Stash, Weave, Protected, Fences;
    KeyDelimited(from);
    StashKeys(fences, from + 1);
    StashProper(fences, from + 1);
    var q, more := FalseFirst(g, Key(from), Protected(rest, from + 1), f);
    TickStays(g[..q], more, Stash(fences, from + 1));
    assert g[..q] + "\0" == (g + f + Weave(rest, fences))[..q + 1];
  }

  /** The leftmost occurrence gives way to a text that starts with a backtick. */
  lemma HitFirst(r: string, key: string, val: string) returns (q: int, more: string)
    requires Delimited(key) && Has(r, key) && val != "" && val[0] == '`'
    ensures Occurs(r, key, q) && 0 <= q <= |r| && Replace(r, key, val) == r[..q] + "`" + more
  {
    hide Delimited, Occurs, Replace;
    DelimitedIs(key);
    var p :| Occurs(r, key, p);
    OccursWithin(r, key, p);
    q := Leftmost(r, key, p);
    OccursWithin(r, key, q);
    ReplaceAt(r, key, val, q);
    var last := Replace(r[q + |key|..], key, val);
    more := val[1..] + last;
    assert val == "`" + val[1..];
    assert r[..q] + val + last == r[..q] + "`" + more;
  }

  lemma RestSpoils(g: string, f: string, rest: seq<string>, fences: seq<string>, from: nat)
    requires |rest| == |fences| + 1 && Fences(fences) && f != "" && f[0] == '`'
    requires Has(Protected(rest, from + 1), Key(from))
    ensures forall p :: p in Stash(fences, from + 1) ==> p.0 != ""
    ensures
      var next := g + f + Replace(Protected(rest, from + 1), Key(from), f);
      Restored(next, Stash(fences, from + 1)) != g + f + Weave(rest, fences)
  {
    hide Body, Key, Occurs, Has, Delimited, Restored, Replace, Stash, Weave, Cut, Due, Protected, Fences;
    StashKeys(fences, from + 1);
    KeyDelimited(from);
    var r := Protected(rest, from + 1);
    var q, more := HitFirst(r, Key(from), f);
    assert g + f + (r[..q] + "`" + more) == g + f + r[..q] + "`" + more;
    CutWhole(rest, from + 1);
    var gs, stub := CutBefore(rest, fences, from + 1, false, from, q);
    assert fences[..|rest| - 1] == fences;
    CutSpoils(g + f, gs, fences, from + 1, stub, more, Weave(rest, fences));
  }

  lemma CutSpoils(x: string, gs: seq<string>, fences: seq<string>, from: nat, stub: bool, more: string, due: string)
    requires gs != [] && Fences(fences) && |gs| - 1 + (if stub then 1 else 0) <= |fences|
    requires Due(gs, fences, stub) <= due
    ensures forall p :: p in Stash(fences, from) ==> p.0 != ""
    ensures Restored(x + Cut(gs, from, stub) + "`" + more, Stash(fences, from)) != x + due
  {
    hide Restored, Stash, Cut, Due, Fences;
    StashKeys(fences, from);
    CutPrepend(x, gs, from, stub);
    DuePrepend(x, gs, fences, stub);
    Spoiled([x + gs[0]] + gs[1..], fences, from, stub, more);
    assert x + Due(gs, fences, stub) <= x + due;
  }

  lemma CutWhole(gs: seq<string>, from: nat)
    requires gs != []
    ensures Cut(gs, from, false) == Protected(gs, from)
  {
  }

  /** An unconfused first placeholder gives way to its fence alone. */
  lemma FirstRestored(g: string, f: string, rest: seq<string>, fences: seq<string>, from: nat)
    requires |rest| == |fences| + 1
    requires !Has(g + "\0", Key(from)) && !Has(Protected(rest, from + 1), Key(from))
    ensures
      var joint := [g + f + rest[0]] + rest[1..];
      && Replace(Protected([g] + rest, from), Key(from), f) == Protected(joint, from + 1)
      && Weave(joint, fences) == Weave([g] + rest, [f] + fences)
  {
    hide Body, Key, Has, Delimited, Replace, Weave, Protected;
    WeaveMore(g, f, rest, fences);
    WeavePrepend(g + f, rest, fences);
    ProtectedPrepend(g + f, rest, from + 1);
    ProtectedMore(g, rest, from);
    KeyDelimited(from);
    DelimitedIs(Key(from));
    TrueFirst(g, Key(from), Protected(rest, from + 1), f);
    Unhit(Protected(rest, from + 1), Key(from), f);
  }

  lemma Taken(gs: seq<string>, fences: seq<string>)
    requires |gs| == |fences| + 1 && fences != []
    ensures gs == [gs[0]] + gs[1..] && fences == [fences[0]] + fences[1..]
    ensures Joint(gs, fences) == [gs[0] + fences[0] + gs[1..][0]] + gs[1..][1..]
  {
  }

  lemma {:induction false} RestoreFromIff(gs: seq<string>, fences: seq<string>, from: nat)
    requires |gs| == |fences| + 1 && Fences(fences)
    ensures forall p :: p in Stash(fences, from) ==> p.0 != ""
    ensures Restored(Protected(gs, from), Stash(fences, from)) == Weave(gs, fences)
       <==> NoneConfused(gs, fences, from)
    decreases |fences|
  {
    StashKeys(fences, from);
    if fences != [] {
      hide Body, Key, Has, Confused, NoneConfused, Restored, Replace, Stash, Weave, Protected, Joint, Fences;
      Taken(gs, fences);
      ConfusedFirst(gs, fences, from);
      NoneConfusedNext(gs, fences, from);
      StashMore(fences, from, Protected(gs, from));
      if Confused(gs, fences, from, 0) {
        FirstSpoils(gs[0], fences[0], gs[1..], fences[1..], from);
      } else {
        FirstRestored(gs[0], fences[0], gs[1..], fences[1..], from);
        RestoreFromIff(Joint(gs, fences), fences[1..], from + 1);
      }
    }
  }

  lemma {:induction false} SplitFences(text: string)
    ensures Fences(Split(text).fences)
  {
    if text != "" {
      SplitUnfolds(text);
      var n := MatchLength(text);
      SplitFences(text[if n > 0 then n else 1..]);
      assert n > 0 ==> text[..n][0] == text[0];
      hide Split, MatchLength;
    }
  }

  /** Main result, for any text: restoring what was protected gives the text back exactly when no
      placeholder stands in the text before its fence, or in what follows with the later fences
      protected. */
  lemma RestoreTextIff(text: string)
    ensures
      var p := Split(text);
      RoundTrip(text) == text <==> NoneConfused(p.gaps, p.fences, 0)
  {
    var p := Split(text);
    hide Split, NoneConfused, Protected, Weave, Restored, Fences;
    StashKeys(p.fences, 0);
    WeaveSplit(text);
    SplitFences(text);
    RestoreFromIff(p.gaps, p.fences, 0);
  }
}
