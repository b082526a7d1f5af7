/** The batch encoder that survives failures: halving on memory pressure, bisection on any other
    error, over a vector cache. */
module Encoder {
  import opened Wrappers
  import opened Lru

  type Vector = seq<real>

  datatype Outcome = Success | OutOfMemory | Failure

  /** One call of the model, with the batch size in force. */
  datatype Call = Call(chunk: seq<string>, batch: nat, outcome: Outcome)

  /** The settings, the text clean-up, the model, and the oracle that says how the n-th call of
      the model on a chunk ends. */
  datatype Config = Config(
    prefix: string, maxChars: nat, batchSize: nat, dimension: nat,
    clean: string -> string, encode: string -> Vector, oracle: (nat, seq<string>) -> Outcome)

  // ---- passages and cache keys ----

  function Truncated(body: string, maxChars: nat): string {
    if maxChars > 0 && |body| > maxChars then body[..maxChars] else body
  }

  function Passage(prefix: string, body: string): string {
    if body == "" then ""
    else if prefix != "" && !(prefix <= body) then prefix + body
    else body
  }

  /** The cache key: the digest of the untruncated passage, digests taken to be the text itself. */
  function Key(c: Config, text: string): string {
    Passage(c.prefix, c.clean(text))
  }

  /** What the model is given: the truncated passage, or a bare label for an empty one. */
  function Input(c: Config, text: string): string {
    var p := Passage(c.prefix, Truncated(c.clean(text), c.maxChars));
    if p == "" then "passage: " else p
  }

  lemma PrefixOfTruncated(prefix: string, body: string, maxChars: nat)
    requires 0 < maxChars && |prefix| <= maxChars
    ensures prefix <= Truncated(body, maxChars) <==> prefix <= body
  {
    if prefix <= body && |body| > maxChars {
      assert body[..maxChars][..|prefix|] == body[..|prefix|];
    }
    if prefix <= Truncated(body, maxChars) && |body| > maxChars {
      assert body[..|prefix|] == body[..maxChars][..|prefix|];
    }
  }

  /** Two texts with the same cache key are given to the model as the same input exactly when they
      clean to the same body, nothing is cut off, the key fits the character limit, or the prefix
      itself is over the limit and what is left of the bodies is the same: the key ignores
      truncation. */
  lemma SameKeySameInputIff(c: Config, a: string, b: string)
    requires Key(c, a) == Key(c, b)
    ensures Input(c, a) == Input(c, b) <==>
            || c.clean(a) == c.clean(b)
            || c.maxChars == 0
            || |Key(c, a)| <= c.maxChars
            || (|c.prefix| > c.maxChars && Truncated(c.clean(a), c.maxChars) == Truncated(c.clean(b), c.maxChars))
  {
    var (x, y) := (c.clean(a), c.clean(b));
    if x != y {
      BodiesDiffer(c, x, y);
      if y == c.prefix + x {
        PrefixedDiffer(c, b, a);
      } else {
        PrefixedDiffer(c, a, b);
      }
    }
  }

  /** Different bodies with one passage: one of them is the prefix followed by the other. */
  lemma BodiesDiffer(c: Config, x: string, y: string)
    requires x != y && Passage(c.prefix, x) == Passage(c.prefix, y)
    ensures x != "" && y != "" && c.prefix != ""
    ensures (y == c.prefix + x && !(c.prefix <= x)) || (x == c.prefix + y && !(c.prefix <= y))
  {
    assert (c.prefix + x)[|c.prefix|..] == x && (c.prefix + y)[|c.prefix|..] == y;
  }

  /** `a` cleans to the prefix followed by what `b` cleans to. */
  lemma PrefixedDiffer(c: Config, a: string, b: string)
    requires c.clean(a) == c.prefix + c.clean(b) && c.clean(b) != "" && c.prefix != "" && !(c.prefix <= c.clean(b))
    ensures Input(c, a) == Input(c, b) <==>
            || c.maxChars == 0
            || |c.clean(a)| <= c.maxChars
            || (|c.prefix| > c.maxChars && Truncated(c.clean(a), c.maxChars) == Truncated(c.clean(b), c.maxChars))
  {
    var (x, y) := (c.clean(a), c.clean(b));
    var (tx, ty) := (Truncated(x, c.maxChars), Truncated(y, c.maxChars));
    assert c.prefix <= x;
    if c.maxChars > 0 {
      if |c.prefix| <= c.maxChars {
        PrefixOfTruncated(c.prefix, x, c.maxChars);
        PrefixOfTruncated(c.prefix, y, c.maxChars);
        assert |Input(c, a)| == |tx| && |Input(c, b)| == |c.prefix| + |ty|;
      } else {
        assert Input(c, a) == c.prefix + tx && Input(c, b) == c.prefix + ty;
        assert (c.prefix + tx)[|c.prefix|..] == tx && (c.prefix + ty)[|c.prefix|..] == ty;
      }
    }
  }

  /** An empty text goes to the model as a bare label, whatever the prefix. */
  lemma EmptyTextLabel(c: Config, text: string)
    requires c.clean(text) == ""
    ensures Input(c, text) == "passage: " && Key(c, text) == ""
  {
    assert Truncated("", c.maxChars) == "";
  }

  // ---- the provider ----

  function Inputs(c: Config, texts: seq<string>): seq<string> {
    seq(|texts|, i requires 0 <= i < |texts| => Input(c, texts[i]))
  }

  /** Some call in the log from `start` on failed on this one input alone, and no smaller batch was left
      to try. */
  ghost predicate FailedAlone(log: seq<Call>, start: nat, input: string) {
    exists i :: start <= i < |log| && log[i].chunk == [input] && GivenUp(log[i])
  }

  function Smaller(a: nat, b: nat): nat {
    if a < b then a else b
  }

  function First(xs: seq<string>, n: nat): seq<string> {
    xs[..Smaller(n, |xs|)]
  }

  predicate GivenUp(call: Call) {
    |call.chunk| == 1 && call.outcome != Success && !(call.outcome == OutOfMemory && call.batch > 1)
  }

  /** What is tried right after a call that failed: the start of the chunk at half the batch size when
      memory ran out, else the start of its first half, if it has one. */
  ghost function FollowUp(c: Config, call: Call): Option<(seq<string>, nat)> {
    var (half, mid) := (call.batch / 2, |call.chunk| / 2);
    if call.outcome == Success then None
    else if call.outcome == OutOfMemory && call.batch > 1 then Some((First(call.chunk, half), half))
    else if |call.chunk| <= 1 then None
    else Some((First(call.chunk, Smaller(c.batchSize, mid)), Smaller(c.batchSize, mid)))
  }

  /** From `start` on every failed call is followed up at once; `next` is what the last one leaves to
      be tried. */
  ghost predicate Onward(c: Config, log: seq<Call>, start: nat, next: Option<(seq<string>, nat)>) {
    && (forall i :: start <= i < |log| - 1 ==> FollowedBy(c, log[i], log[i + 1]))
    && (start < |log| && FollowUp(c, log[|log| - 1]).Some? ==> next == FollowUp(c, log[|log| - 1]))
  }

  ghost predicate FollowedBy(c: Config, call: Call, after: Call) {
    FollowUp(c, call).Some? ==> FollowUp(c, call) == Some((after.chunk, after.batch))
  }

  /** Slot by slot: the model's vector for the text, or nothing because the text failed alone. */
  ghost predicate Aligned(c: Config, inputs: seq<string>, results: seq<Option<Vector>>, start: nat, log: seq<Call>) {
    && |results| == |inputs|
    && forall i :: 0 <= i < |results| ==>
      if results[i].Some? then results[i].value == c.encode(inputs[i]) else FailedAlone(log, start, inputs[i])
  }

  function Empty(results: seq<Option<Vector>>): nat {
    if results == [] then 0 else Empty(results[..|results| - 1]) + if results[|results| - 1].None? then 1 else 0
  }

  lemma {:induction false} EmptySplit(a: seq<Option<Vector>>, b: seq<Option<Vector>>)
    ensures Empty(a + b) == Empty(a) + Empty(b)
  {
    if b == [] {
      assert a + b == a;
    } else {
      assert (a + b)[..|a + b| - 1] == a + b[..|b| - 1];
      EmptySplit(a, b[..|b| - 1]);
    }
  }

  /** The calls from `start` on were on some of these inputs, no more than a batch at a time. */
  ghost predicate CallsOn(c: Config, log: seq<Call>, start: nat, inputs: seq<string>) {
    forall n :: start <= n < |log| ==>
      0 < |log[n].chunk| <= c.batchSize && forall x :: x in log[n].chunk ==> x in inputs
  }

  lemma CallsWider(c: Config, log: seq<Call>, start: nat, inputs: seq<string>, more: seq<string>)
    requires CallsOn(c, log, start, inputs) && forall x :: x in inputs ==> x in more
    ensures CallsOn(c, log, start, more)
  {
  }

  /** First some calls on the inputs, then others. */
  lemma CallsJoin(c: Config, before: seq<Call>, log: seq<Call>, start: nat, inputs: seq<string>)
    requires start <= |before| && before <= log
    requires CallsOn(c, before, start, inputs) && CallsOn(c, log, |before|, inputs)
    ensures CallsOn(c, log, start, inputs)
  {
    forall n | start <= n < |log|
      ensures 0 < |log[n].chunk| <= c.batchSize && forall x :: x in log[n].chunk ==> x in inputs
    {
      assert n < |before| ==> log[n] == before[n];
    }
  }

  lemma CallsOne(c: Config, log: seq<Call>, call: Call)
    requires 0 < |call.chunk| <= c.batchSize
    ensures CallsOn(c, log + [call], |log|, call.chunk)
    ensures Onward(c, log + [call], |log|, FollowUp(c, call))
  {
    hide FollowUp;
    assert (log + [call])[|log|] == call;
  }

  /** What was left to be tried is tried next. */
  lemma OnwardJoin(
      c: Config, before: seq<Call>, log: seq<Call>, start: nat, next: Option<(seq<string>, nat)>,
      last: Option<(seq<string>, nat)>)
    requires start <= |before| < |log| && before <= log
    requires Onward(c, before, start, next) && Onward(c, log, |before|, last)
    requires next.Some? ==> next == Some((log[|before|].chunk, log[|before|].batch))
    ensures Onward(c, log, start, last)
  {
    hide FollowUp;
    forall i | start <= i < |log| - 1 ensures FollowedBy(c, log[i], log[i + 1]) {
      if i + 1 < |before| {
        assert before[i] == log[i] && before[i + 1] == log[i + 1];
      } else if i + 1 == |before| {
        assert before[i] == log[i];
      }
    }
  }

  /** The first call is on the first inputs, as many as the batch size allows. */
  ghost predicate Opens(log: seq<Call>, at: nat, inputs: seq<string>, batch: nat) {
    at < |log| && log[at].chunk == First(inputs, batch) && log[at].batch == batch
  }

  lemma OpensStays(log: seq<Call>, later: seq<Call>, at: nat, inputs: seq<string>, batch: nat)
    requires Opens(log, at, inputs, batch) && log <= later
    ensures Opens(later, at, inputs, batch)
  {
    hide First;
  }

  /** After one call that failed on several inputs, its two halves. */
  lemma OnwardTwice(
      c: Config, log0: seq<Call>, call: Call, log2: seq<Call>, log3: seq<Call>, a: seq<string>, b: seq<string>)
    requires log0 + [call] <= log2 <= log3 && call.chunk == a + b && |a| == |call.chunk| / 2 && a != [] && b != []
    requires call.outcome != Success && !(call.outcome == OutOfMemory && call.batch > 1)
    requires Opens(log2, |log0| + 1, a, Smaller(c.batchSize, |a|)) && Onward(c, log2, |log0| + 1, None)
    requires Opens(log3, |log2|, b, Smaller(c.batchSize, |b|)) && Onward(c, log3, |log2|, None)
    requires 0 < |call.chunk| <= c.batchSize
    ensures Onward(c, log3, |log0|, None)
  {
    var log1 := log0 + [call];
    CallsOne(c, log0, call);
    assert First(call.chunk, Smaller(c.batchSize, |a|)) == First(a, Smaller(c.batchSize, |a|));
    hide First, Smaller, Onward;
    OnwardJoin(c, log1, log2, |log0|, FollowUp(c, call), None);
    OnwardJoin(c, log2, log3, |log0|, None, None);
  }

  /** Half a batch size on the same inputs is what follows running out of memory. */
  lemma HalfNext(c: Config, inputs: seq<string>, start: nat, batch: nat)
    requires start < |inputs| && batch > 1
    ensures FollowUp(c, Call(First(inputs[start..], batch), batch, OutOfMemory)) ==
            Some((First(inputs[start..], batch / 2), batch / 2))
  {
    var chunk := First(inputs[start..], batch);
    assert First(chunk, batch / 2) == First(inputs[start..], batch / 2);
  }

  /** One call on the whole, then some on its first part and some on its second. */
  lemma CallsTwice(
      c: Config, log0: seq<Call>, log1: seq<Call>, log2: seq<Call>, log3: seq<Call>, a: seq<string>, b: seq<string>)
    requires log0 <= log1 <= log2 <= log3 && CallsOn(c, log1, |log0|, a + b)
    requires CallsOn(c, log2, |log1|, a) && CallsOn(c, log3, |log2|, b)
    ensures CallsOn(c, log3, |log0|, a + b)
  {
    hide CallsOn;
    CallsWider(c, log2, |log1|, a, a + b);
    CallsWider(c, log3, |log2|, b, a + b);
    CallsJoin(c, log1, log2, |log0|, a + b);
    CallsJoin(c, log2, log3, |log0|, a + b);
  }

  /** Since `log` and `failures` stood at the first values, `inputs` were settled slot by slot and
      every empty slot was counted as a failure. */
  ghost predicate Settled(
    c: Config, log0: seq<Call>, failures0: int, inputs: seq<string>, results: seq<Option<Vector>>, log: seq<Call>,
    failures: int)
  {
    log0 <= log && Aligned(c, inputs, results, |log0|, log) && failures == failures0 + Empty(results)
  }

  lemma FailedStays(log: seq<Call>, start: nat, later: seq<Call>, earlier: nat, input: string)
    requires log <= later && earlier <= start && FailedAlone(log, start, input)
    ensures FailedAlone(later, earlier, input)
  {
    var i :| start <= i < |log| && log[i].chunk == [input] && GivenUp(log[i]);
    assert later[i] == log[i];
  }

  /** The log may go on, and may have started earlier. */
  lemma SettledWidely(
      c: Config, earlier: seq<Call>, log0: seq<Call>, failures0: int, inputs: seq<string>, results: seq<Option<Vector>>,
      log: seq<Call>, failures: int, later: seq<Call>)
    requires Settled(c, log0, failures0, inputs, results, log, failures) && log <= later && earlier <= log0
    ensures Settled(c, earlier, failures0, inputs, results, later, failures)
  {
    hide FailedAlone, Empty;
    forall i | 0 <= i < |results| && results[i].None?
      ensures FailedAlone(later, |earlier|, inputs[i])
    {
      FailedStays(log, |log0|, later, |earlier|, inputs[i]);
    }
  }

  lemma SettledAppend(
      c: Config, log0: seq<Call>, failures0: int,
      a: seq<string>, ra: seq<Option<Vector>>, log1: seq<Call>, failures1: int,
      b: seq<string>, rb: seq<Option<Vector>>, log2: seq<Call>, failures2: int)
    requires Settled(c, log0, failures0, a, ra, log1, failures1)
    requires Settled(c, log1, failures1, b, rb, log2, failures2)
    ensures Settled(c, log0, failures0, a + b, ra + rb, log2, failures2)
  {
    hide FailedAlone, Empty;
    SettledWidely(c, log0, log0, failures0, a, ra, log1, failures1, log2);
    SettledWidely(c, log0, log1, failures1, b, rb, log2, failures2, log2);
    EmptySplit(ra, rb);
  }

  lemma InputsSize(c: Config, texts: seq<string>)
    ensures |Inputs(c, texts)| == |texts|
  {
  }

  lemma InputsCut(c: Config, texts: seq<string>, mid: nat)
    requires mid <= |texts|
    ensures Inputs(c, texts[..mid]) + Inputs(c, texts[mid..]) == Inputs(c, texts)
  {
    hide Input;
  }

  lemma InputsOf(c: Config, texts: seq<string>, start: nat, end: nat)
    requires start <= end <= |texts|
    ensures |Inputs(c, texts)| == |texts| && Inputs(c, texts[start..end]) == Inputs(c, texts)[start..end]
  {
    hide Input;
  }

  lemma SettledNone(c: Config, log: seq<Call>, failures: int, inputs: seq<string>)
    ensures Settled(c, log, failures, inputs[..0], [], log, failures) && CallsOn(c, log, |log|, inputs)
  {
  }

  lemma OnwardNone(c: Config, log: seq<Call>)
    ensures Onward(c, log, |log|, None)
  {
  }

  lemma FirstAll(inputs: seq<string>, batch: nat)
    ensures First(inputs[0..], batch) == First(inputs, batch)
  {
    assert inputs[0..] == inputs;
  }

  lemma FirstIs(inputs: seq<string>, start: nat, batch: nat, end: nat)
    requires start <= end <= |inputs| && end == if start + batch < |inputs| then start + batch else |inputs|
    ensures First(inputs[start..], batch) == inputs[start..end]
  {
  }

  lemma OpensHere(log: seq<Call>, at: nat, inputs: seq<string>, batch: nat)
    requires at < |log| && log[at].chunk == First(inputs, batch) && log[at].batch == batch
    ensures Opens(log, at, inputs, batch)
  {
  }

  /** A chunk encoded whole. */
  lemma SettledEncoded(
      c: Config, log0: seq<Call>, failures0: int, inputs: seq<string>, vecs: seq<Vector>,
      results: seq<Option<Vector>>, log: seq<Call>)
    requires log0 <= log && |results| == |vecs| == |inputs|
    requires forall i :: 0 <= i < |inputs| ==> vecs[i] == c.encode(inputs[i]) && results[i] == Some(vecs[i])
    ensures Settled(c, log0, failures0, inputs, results, log, failures0)
  {
    NoneEmpty(results);
    hide FailedAlone, Empty;
  }

  /** A single text given up on. */
  lemma SettledFailed(c: Config, log0: seq<Call>, failures0: int, call: Call)
    requires GivenUp(call)
    ensures Settled(c, log0, failures0, call.chunk, [None], log0 + [call], failures0 + 1)
  {
    var log := log0 + [call];
    assert call.chunk == [call.chunk[0]] && log[|log0|] == call;
    assert FailedAlone(log, |log0|, call.chunk[0]);
    hide FailedAlone;
  }

  lemma SettledLog(
      c: Config, log0: seq<Call>, failures0: int, inputs: seq<string>, results: seq<Option<Vector>>, log: seq<Call>,
      failures: int)
    requires Settled(c, log0, failures0, inputs, results, log, failures)
    ensures log0 <= log
  {
  }

  /** `v` is the model's vector for some text with the key `k`. */
  ghost predicate FromKey(c: Config, k: string, v: Vector) {
    exists t :: Key(c, t) == k && v == c.encode(Input(c, t))
  }

  ghost predicate CacheSound(c: Config, entries: map<string, Vector>) {
    forall k :: k in entries ==> FromKey(c, k, entries[k])
  }

  class E5EmbeddingProvider {
    const c: Config
    const cache: BoundedLru<string, Vector>
    var calls: nat
    var batches: int
    var documents: int
    var failures: int
    ghost var log: seq<Call>

    constructor (c: Config, policy: (nat, map<string, Vector>) -> set<string>)
      ensures this.c == c && log == [] && CacheSound(c, cache.entries) && fresh(cache)
      ensures calls == 0 && batches == documents == failures == 0
    {
      this.c := c;
      cache := new BoundedLru(policy);
      calls, batches, documents, failures, log := 0, 0, 0, 0, [];
    }

    /** The model on one chunk: what happens is the oracle's choice. */
    method EncodeChunk(chunk: seq<string>, ghost batch: nat) returns (outcome: Outcome, vecs: seq<Vector>)
      modifies this`calls, this`batches, this`log
      ensures outcome == c.oracle(old(calls), chunk) && calls == old(calls) + 1
      ensures log == old(log) + [Call(chunk, batch, outcome)]
      ensures batches == old(batches) + if outcome == Success then 1 else 0
      ensures outcome == Success ==> vecs == seq(|chunk|, i requires 0 <= i < |chunk| => c.encode(chunk[i]))
    {
      outcome := c.oracle(calls, chunk);
      calls := calls + 1;
      log := log + [Call(chunk, batch, outcome)];
      vecs := [];
      if outcome == Success {
        batches := batches + 1;
        vecs := seq(|chunk|, i requires 0 <= i < |chunk| => c.encode(chunk[i]));
      }
    }

    /** For any pattern of failures this ends, with one result per text in order: the text's own
        vector, or nothing if its one-element chunk failed. It starts with as many texts as a batch
        takes, and follows up every failure at once. */
    method EncodeWithRecovery(texts: seq<string>) returns (results: seq<Option<Vector>>)
      requires c.batchSize >= 1
      modifies this`calls, this`batches, this`failures, this`log
      ensures Settled(c, old(log), old(failures), Inputs(c, texts), results, log, failures)
      ensures CallsOn(c, log, |old(log)|, Inputs(c, texts)) && Onward(c, log, |old(log)|, None)
      ensures texts != [] ==> Opens(log, |old(log)|, Inputs(c, texts), Smaller(c.batchSize, |texts|))
      decreases |texts|, 1
    {
      hide Settled, CallsOn, Inputs, Onward, Opens, FollowUp, First;
      SettledNone(c, log, failures, Inputs(c, texts));
      InputsSize(c, texts);
      var formatted := Inputs(c, texts);
      var batch: nat := if c.batchSize < |formatted| then c.batchSize else |formatted|;
      results := [];
      var start: nat := 0;
      ghost var begun := false;
      ghost var next: Option<(seq<string>, nat)> := None;
      OnwardNone(c, log);
      FirstAll(formatted, batch);
      while start < |formatted|
        invariant start <= |formatted| && batch <= c.batchSize && (start < |formatted| ==> batch >= 1)
        invariant old(log) <= log && CallsOn(c, log, |old(log)|, formatted)
        invariant Settled(c, old(log), old(failures), formatted[..start], results, log, failures)
        invariant Onward(c, log, |old(log)|, next)
        invariant next.Some? ==> start < |formatted| && next == Some((First(formatted[start..], batch), batch))
        invariant if begun then Opens(log, |old(log)|, formatted, Smaller(c.batchSize, |texts|))
          else start == 0 && log == old(log) && batch == Smaller(c.batchSize, |texts|)
        decreases |formatted| - start, batch
      {
        var end: nat := if start + batch < |formatted| then start + batch else |formatted|;
        assert formatted[..start] + formatted[start..end] == formatted[..end];
        InputsOf(c, texts, start, end);
        FirstIs(formatted, start, batch, end);
        ghost var (log1, failures1) := (log, failures);
        var retry, more := TryChunk(texts[start..end], batch);
        CallsWider(c, log, |log1|, formatted[start..end], formatted);
        CallsJoin(c, log1, log, |old(log)|, formatted);
        if begun {
          OpensStays(log1, log, |old(log)|, formatted, Smaller(c.batchSize, |texts|));
        } else {
          OpensHere(log, |log1|, formatted, batch);
        }
        begun := true;
        if retry {
          SettledWidely(c, old(log), old(log), old(failures), formatted[..start], results, log1, failures1, log);
          HalfNext(c, formatted, start, batch);
          CallsOne(c, log1, log[|log1|]);
          OnwardJoin(c, log1, log, |old(log)|, next, FollowUp(c, log[|log1|]));
          next := FollowUp(c, log[|log1|]);
          batch := if batch / 2 > 1 then batch / 2 else 1;
        } else {
          SettledAppend(c, old(log), old(failures), formatted[..start], results, log1, failures1,
                        formatted[start..end], more, log, failures);
          OnwardJoin(c, log1, log, |old(log)|, next, None);
          next := None;
          results, start := results + more, end;
        }
      }
      assert formatted[..start] == formatted && next.None?;
    }

    /** One chunk: encoded whole, put off to a smaller batch size exactly when memory ran out and there
        is one, given up on if it is a single text, or else cut in two. */
    method TryChunk(texts: seq<string>, batch: nat) returns (retry: bool, results: seq<Option<Vector>>)
      requires c.batchSize >= 1 && texts != [] && |texts| <= batch <= c.batchSize
      modifies this`calls, this`batches, this`failures, this`log
      ensures old(log) < log && log[|old(log)|].chunk == Inputs(c, texts) && log[|old(log)|].batch == batch
      ensures retry <==> batch > 1 && log[|old(log)|].outcome == OutOfMemory
      ensures retry ==> log == old(log) + [log[|old(log)|]] && failures == old(failures)
      ensures CallsOn(c, log, |old(log)|, Inputs(c, texts))
      ensures !retry ==> Settled(c, old(log), old(failures), Inputs(c, texts), results, log, failures)
      ensures !retry ==> Onward(c, log, |old(log)|, None)
      decreases |texts|, 0
    {
      hide Settled, Inputs, Onward, Opens, First;
      var chunk := Inputs(c, texts);
      InputsSize(c, texts);
      var outcome, vecs := EncodeChunk(chunk, batch);
      ghost var call := Call(chunk, batch, outcome);
      CallsOne(c, old(log), call);
      hide CallsOn;
      if outcome == Success {
        results := seq(|vecs|, i requires 0 <= i < |vecs| => Some(vecs[i]));
        SettledEncoded(c, old(log), failures, chunk, vecs, results, log);
        return false, results;
      }
      if outcome == OutOfMemory && batch > 1 {
        return true, [];
      }
      if |chunk| == 1 {
        failures := failures + 1;
        SettledFailed(c, old(log), old(failures), call);
        return false, [None];
      }
      hide FollowUp;
      var mid := |chunk| / 2;
      ghost var (log1, failures1) := (log, failures);
      var first := EncodeWithRecovery(texts[..mid]);
      ghost var (log2, failures2) := (log, failures);
      var second := EncodeWithRecovery(texts[mid..]);
      InputsCut(c, texts, mid);
      InputsSize(c, texts[..mid]);
      InputsSize(c, texts[mid..]);
      SettledLog(c, log1, failures1, Inputs(c, texts[..mid]), first, log2, failures2);
      SettledLog(c, log2, failures2, Inputs(c, texts[mid..]), second, log, failures);
      CallsTwice(c, old(log), log1, log2, log, Inputs(c, texts[..mid]), Inputs(c, texts[mid..]));
      OnwardTwice(c, old(log), call, log2, log, Inputs(c, texts[..mid]), Inputs(c, texts[mid..]));
      SettledAppend(c, log1, failures1, Inputs(c, texts[..mid]), first, log2, failures2,
                    Inputs(c, texts[mid..]), second, log, failures);
      SettledLog(c, log1, failures1, chunk, first + second, log, failures);
      SettledWidely(c, old(log), log1, failures1, chunk, first + second, log, failures, log);
      return false, first + second;
    }

    /** Cached vectors go to their slots; the other positions and texts are noted, in order. */
    method LookUp(texts: seq<string>)
        returns (out: seq<Option<Vector>>, pendingIdx: seq<nat>, pendingTexts: seq<string>)
      ensures |out| == |texts| && FromCache(c, cache.entries, texts, out)
      ensures PendingAre(texts, out, pendingIdx, pendingTexts) && pendingTexts == Uncached(c, cache.entries, texts)
    {
      hide Key, Uncached, PendingAre, FromCache;
      out := seq(|texts|, _ => None);
      pendingIdx, pendingTexts := [], [];
      LookedNone(c, cache.entries);
      for i := 0 to |texts|
        invariant |out| == |texts| && LookedUp(c, cache.entries, texts[..i], out[..i], pendingIdx, pendingTexts)
        invariant forall j :: i <= j < |out| ==> out[j].None?
      {
        hide Key, LookedUp;
        var cached := cache.Get(Key(c, texts[i]));
        LookedNext(c, cache.entries, texts[..i], out[..i], pendingIdx, pendingTexts, texts[i]);
        assert texts[..i + 1] == texts[..i] + [texts[i]];
        assert out[..i + 1] == out[..i] + [None];
        if cached.Some? {
          out := out[i := cached];
          assert out[..i + 1] == out[..i] + [cached];
        } else {
          pendingIdx, pendingTexts := pendingIdx + [i], pendingTexts + [texts[i]];
        }
      }
      assert texts[..|texts|] == texts && out[..|out|] == out;
    }

    /** Encoded vectors go to the noted positions; non-zero ones, and no others, enter the cache. */
    method Fill(texts: seq<string>, out0: seq<Option<Vector>>, pendingIdx: seq<nat>, encoded: seq<Option<Vector>>)
      returns (out: seq<Option<Vector>>)
      requires CacheSound(c, cache.entries)
      requires |out0| == |texts| && |encoded| == |pendingIdx|
      requires forall j :: 0 <= j < |pendingIdx| ==> pendingIdx[j] < |texts|
      requires EncodedFor(c, texts, pendingIdx, encoded)
      requires forall j, k :: 0 <= j < k < |pendingIdx| ==> pendingIdx[j] != pendingIdx[k]
      modifies cache
      ensures CacheSound(c, cache.entries) && FilledTo(out0, pendingIdx, encoded, |encoded|, out)
      ensures NewNonZero(old(cache.entries), cache.entries)
      ensures cache.KeepsAll() ==> Remembered(c, old(cache.entries), cache.entries, texts, pendingIdx, encoded,
        |encoded|)
    {
      out := out0;
      for j := 0 to |pendingIdx|
        invariant CacheSound(c, cache.entries) && FilledTo(out0, pendingIdx, encoded, j, out)
        invariant NewNonZero(old(cache.entries), cache.entries)
        invariant cache.KeepsAll() ==> Remembered(c, old(cache.entries), cache.entries, texts, pendingIdx, encoded, j)
      {
        hide Key, NonZero, CacheSound, FilledTo, NewNonZero, Remembered, EncodedFor, BoundedLru.KeepsAll;
        FilledNext(out0, pendingIdx, encoded, j, out);
        out := out[pendingIdx[j] := encoded[j]];
        RememberedNext(c, old(cache.entries), cache.entries, texts, pendingIdx, encoded, j);
        if encoded[j].Some? && NonZero(encoded[j].value) {
          ghost var before := cache.entries;
          cache.Put(Key(c, texts[pendingIdx[j]]), encoded[j].value);
          CachePut(c, texts, pendingIdx, encoded, j, before, cache.entries);
          NewPut(old(cache.entries), before, cache.entries, Key(c, texts[pendingIdx[j]]), encoded[j].value);
        }
      }
    }

    /** The texts that were not cached are encoded, filled in and remembered. */
    method EncodePending(
        texts: seq<string>, out0: seq<Option<Vector>>, pendingIdx: seq<nat>, pendingTexts: seq<string>)
      returns (out: seq<Option<Vector>>, encoded: seq<Option<Vector>>)
      requires c.batchSize >= 1 && CacheSound(c, cache.entries)
      requires |out0| == |texts| && PendingAre(texts, out0, pendingIdx, pendingTexts)
      modifies this, cache
      ensures CacheSound(c, cache.entries) && old(log) <= log && |encoded| == |pendingIdx|
      ensures FilledTo(out0, pendingIdx, encoded, |encoded|, out)
      ensures failures == old(failures) + Empty(encoded) && documents == old(documents)
      ensures Aligned(c, Inputs(c, pendingTexts), encoded, |old(log)|, log)
      ensures CallsOn(c, log, |old(log)|, Inputs(c, pendingTexts))
      ensures NewNonZero(old(cache.entries), cache.entries)
      ensures cache.KeepsAll() ==> Remembered(c, old(cache.entries), cache.entries, texts, pendingIdx, encoded,
        |encoded|)
    {
      hide Key, Input, FilledTo, NewNonZero, Remembered, CallsOn, CacheSound, Empty, FailedAlone, BoundedLru.KeepsAll;
      encoded := EncodeWithRecovery(pendingTexts);
      EncodedAre(c, texts, pendingIdx, pendingTexts, encoded, |old(log)|, log);
      out := Fill(texts, out0, pendingIdx, encoded);
    }

    /** The whole batch, for any cache contents that came from the model. A text whose key is cached gets
        the cached vector and is not given to the model. Any other gets its own vector, or zeros because
        it failed alone in this very call. An empty slot is counted as a failure twice, once on either
        side of the recovery. */
    method EmbedBatch(texts: seq<string>) returns (final: seq<Vector>, ghost lost: set<nat>)
      requires c.batchSize >= 1 && CacheSound(c, cache.entries)
      modifies this, cache
      ensures CacheSound(c, cache.entries) && old(log) <= log
      ensures |final| == |texts| && forall i :: i in lost ==> i < |texts|
      ensures forall i :: 0 <= i < |final| ==>
        final[i] ==
          if Key(c, texts[i]) in old(cache.entries) then old(cache.entries)[Key(c, texts[i])]
          else if i in lost then Zeros(c) else c.encode(Input(c, texts[i]))
      ensures forall i :: i in lost ==>
        Key(c, texts[i]) !in old(cache.entries) && FailedAlone(log, |old(log)|, Input(c, texts[i]))
      ensures CallsOn(c, log, |old(log)|, Inputs(c, Uncached(c, old(cache.entries), texts)))
      ensures Uncached(c, old(cache.entries), texts) == [] ==> log == old(log)
      ensures failures == old(failures) + 2 * |lost| && documents == old(documents) + |texts| - |lost|
      ensures forall i :: i in lost ==> |final[i]| == c.dimension && AllZero(final[i])
      ensures forall k :: k in cache.entries && k !in old(cache.entries) ==> !AllZero(cache.entries[k])
      ensures cache.KeepsAll() ==> forall i :: 0 <= i < |texts| ==>
        Key(c, texts[i]) in cache.entries || i in lost || AllZero(final[i])
    {
      if texts == [] {
        NoSlots(c, log);
        return [], {};
      }
      hide FailedAlone, Empty, CallsOn, Key, Input, NonZero, CacheSound, NewNonZero, Slots, Kept, Uncached;
      hide BoundedLru.KeepsAll;
      var out := Settle(texts);
      lost := EmptySlots(out);
      EmptyIs(out);
      final := Finish(out);
      SlotsMean(c, old(cache.entries), texts, out, |old(log)|, log);
      KeptMean(c, cache.entries, texts, out);
      ZerosOnly(c);
      NewKeys(old(cache.entries), cache.entries);
    }

    /** The slots of a batch: from the cache, or from the model. */
    method Settle(texts: seq<string>) returns (out: seq<Option<Vector>>)
      requires c.batchSize >= 1 && CacheSound(c, cache.entries)
      modifies this, cache
      ensures CacheSound(c, cache.entries) && old(log) <= log && |out| == |texts|
      ensures Slots(c, old(cache.entries), texts, out, |old(log)|, log)
      ensures failures == old(failures) + Empty(out) && documents == old(documents)
      ensures CallsOn(c, log, |old(log)|, Inputs(c, Uncached(c, old(cache.entries), texts)))
      ensures Uncached(c, old(cache.entries), texts) == [] ==> log == old(log)
      ensures NewNonZero(old(cache.entries), cache.entries)
      ensures cache.KeepsAll() ==> Kept(c, cache.entries, texts, out)
    {
      hide FailedAlone, Empty, CallsOn, Key, Input, NonZero, CacheSound, Remembered, FilledTo, NewNonZero, Slots,
        Aligned;
      hide BoundedLru.KeepsAll, Uncached, Inputs, Kept, FromCache;
      EmptyNone();
      var out0, pendingIdx, pendingTexts := LookUp(texts);
      Untouched(c, cache.entries, texts, out0, pendingIdx, log);
      NoCalls(c, log, Inputs(c, pendingTexts));
      var encoded: seq<Option<Vector>> := [];
      out := out0;
      if pendingTexts != [] {
        out, encoded := EncodePending(texts, out0, pendingIdx, pendingTexts);
      }
      EmptySame(texts, out0, out, pendingIdx, pendingTexts, encoded);
      SlotsAre(c, old(cache.entries), texts, out0, out, pendingIdx, pendingTexts, encoded, |old(log)|, log);
      if cache.KeepsAll() {
        AllRemembered(c, old(cache.entries), cache.entries, texts, out0, out, pendingIdx, pendingTexts, encoded);
      }
    }

    /** Empty slots become zeros and failures, filled ones documents. */
    method Finish(out: seq<Option<Vector>>) returns (final: seq<Vector>)
      modifies this`failures, this`documents
      ensures |final| == |out|
      ensures forall i :: 0 <= i < |final| ==> final[i] == if out[i].Some? then out[i].value else Zeros(c)
      ensures failures == old(failures) + Empty(out) && documents == old(documents) + |out| - Empty(out)
    {
      final := [];
      for i := 0 to |out|
        invariant |final| == i
        invariant forall j :: 0 <= j < i ==> final[j] == if out[j].Some? then out[j].value else Zeros(c)
        invariant failures == old(failures) + Empty(out[..i]) && documents == old(documents) + i - Empty(out[..i])
      {
        assert out[..i + 1][..i] == out[..i];
        if out[i].None? {
          failures := failures + 1;
          final := final + [Zeros(c)];
        } else {
          final := final + [out[i].value];
          documents := documents + 1;
        }
      }
      assert out[..|out|] == out;
    }
  }

  lemma EmptyNone()
    ensures Empty([]) == 0
  {
  }

  /** The empty slots of the batch are the empty results of the encoder. */
  lemma {:induction false} EmptyMatches(out: seq<Option<Vector>>, idx: seq<nat>, encoded: seq<Option<Vector>>)
    requires |idx| == |encoded| && forall j :: 0 <= j < |idx| ==> idx[j] < |out| && out[idx[j]] == encoded[j]
    requires forall j, k :: 0 <= j < k < |idx| ==> idx[j] < idx[k]
    requires forall i :: 0 <= i < |out| && i !in idx ==> out[i].Some?
    ensures Empty(out) == Empty(encoded)
  {
    if out != [] {
      var n := |out| - 1;
      var less := out[..n];
      if n in idx {
        LastListed(idx, n);
        EmptyMatches(less, idx[..|idx| - 1], encoded[..|idx| - 1]);
      } else {
        assert forall j :: 0 <= j < |idx| ==> idx[j] in idx;
        EmptyMatches(less, idx, encoded);
      }
    }
  }

  /** In an ascending list up to `n`, `n` comes last. */
  lemma LastListed(idx: seq<nat>, n: nat)
    requires n in idx && (forall j :: 0 <= j < |idx| ==> idx[j] <= n) && forall j, k :: 0 <= j < k < |idx| ==>
      idx[j] < idx[k]
    ensures idx[|idx| - 1] == n
    ensures forall i :: i != n && i !in idx[..|idx| - 1] ==> i !in idx
  {
    var j :| 0 <= j < |idx| && idx[j] == n;
    var last := idx[|idx| - 1];
    assert forall k :: 0 <= k < |idx| - 1 ==> idx[k] < last;
    assert idx == idx[..|idx| - 1] + [n];
  }

  /** What is new in the cache is not zero. */
  ghost predicate NewNonZero(before: map<string, Vector>, after: map<string, Vector>) {
    forall k :: k in after && (k !in before || before[k] != after[k]) ==> NonZero(after[k])
  }

  lemma NewKeys(before: map<string, Vector>, after: map<string, Vector>)
    requires NewNonZero(before, after)
    ensures forall k :: k in after && k !in before ==> NonZero(after[k])
  {
  }

  /** The slots hold what is cached. */
  ghost predicate FromCache(c: Config, entries: map<string, Vector>, texts: seq<string>, out: seq<Option<Vector>>)
    requires |out| == |texts|
  {
    forall i :: 0 <= i < |texts| ==>
      out[i] == if Key(c, texts[i]) in entries then Some(entries[Key(c, texts[i])]) else None
  }

  /** The texts looked up so far: their slots, and those noted. */
  ghost predicate LookedUp(
    c: Config, entries: map<string, Vector>, texts: seq<string>, out: seq<Option<Vector>>, idx: seq<nat>,
    pending: seq<string>)
  {
    && |out| == |texts| && FromCache(c, entries, texts, out) && PendingAre(texts, out, idx, pending)
    && pending == Uncached(c, entries, texts)
  }

  lemma LookedNone(c: Config, entries: map<string, Vector>)
    ensures LookedUp(c, entries, [], [], [], [])
  {
  }

  lemma LookedNext(
      c: Config, entries: map<string, Vector>, texts: seq<string>, out: seq<Option<Vector>>, idx: seq<nat>,
      pending: seq<string>, text: string)
    requires LookedUp(c, entries, texts, out, idx, pending)
    ensures
      if Key(c, text) in entries
      then LookedUp(c, entries, texts + [text], out + [Some(entries[Key(c, text)])], idx, pending)
      else LookedUp(c, entries, texts + [text], out + [None], idx + [|texts|], pending + [text])
  {
    hide Key, Uncached;
    UncachedMore(c, entries, texts, text);
    if Key(c, text) !in entries {
      var more := idx + [|texts|];
      assert forall i :: i in idx ==> i in more;
      assert more[|idx|] == |texts|;
    }
  }

  /** What was found or encoded, and is not zero, is in the cache. */
  ghost predicate Kept(c: Config, entries: map<string, Vector>, texts: seq<string>, out: seq<Option<Vector>>)
    requires |out| == |texts|
  {
    forall i :: 0 <= i < |out| ==> Key(c, texts[i]) in entries || out[i].None? || !NonZero(out[i].value)
  }

  lemma KeptMean(c: Config, entries: map<string, Vector>, texts: seq<string>, out: seq<Option<Vector>>)
    requires |out| == |texts|
    ensures Kept(c, entries, texts, out) ==> forall i :: 0 <= i < |out| ==>
      Key(c, texts[i]) in entries || i in EmptySlots(out) || !NonZero(if out[i].Some? then out[i].value else Zeros(c))
  {
    hide Key, NonZero;
  }

  lemma NoSlots(c: Config, log: seq<Call>)
    ensures CallsOn(c, log, |log|, Inputs(c, []))
    ensures forall entries :: Uncached(c, entries, []) == []
  {
  }

  /** The texts whose keys are not cached, in order. */
  function Uncached(c: Config, entries: map<string, Vector>, texts: seq<string>): seq<string> {
    if texts == [] then []
    else
      var (front, last) := (Uncached(c, entries, texts[..|texts| - 1]), texts[|texts| - 1]);
      if Key(c, last) in entries then front else front + [last]
  }

  ghost function EmptySlots(out: seq<Option<Vector>>): set<nat> {
    set i: nat | i < |out| && out[i].None?
  }

  lemma {:induction false} EmptyIs(out: seq<Option<Vector>>)
    ensures |EmptySlots(out)| == Empty(out)
  {
    if out == [] {
      assert EmptySlots(out) == {};
    } else {
      var front := out[..|out| - 1];
      EmptyIs(front);
      assert EmptySlots(out) == EmptySlots(front) + if out[|out| - 1].None? then {|out| - 1} else {};
    }
  }

  lemma NoCalls(c: Config, log: seq<Call>, inputs: seq<string>)
    ensures CallsOn(c, log, |log|, inputs)
  {
  }

  lemma UncachedMore(c: Config, entries: map<string, Vector>, texts: seq<string>, text: string)
    ensures Uncached(c, entries, []) == []
    ensures Uncached(c, entries, texts + [text]) ==
            Uncached(c, entries, texts) + if Key(c, text) in entries then [] else [text]
  {
    assert (texts + [text])[..|texts|] == texts;
  }

  /** What was encoded belongs to the noted texts. */
  ghost predicate EncodedFor(c: Config, texts: seq<string>, idx: seq<nat>, encoded: seq<Option<Vector>>)
    requires |idx| == |encoded| && forall j :: 0 <= j < |idx| ==> idx[j] < |texts|
  {
    forall j :: 0 <= j < |encoded| && encoded[j].Some? ==> encoded[j].value == c.encode(Input(c, texts[idx[j]]))
  }

  lemma EncodedAre(
      c: Config, texts: seq<string>, idx: seq<nat>, pending: seq<string>, encoded: seq<Option<Vector>>, start: nat,
      log: seq<Call>)
    requires |idx| == |pending| && forall j :: 0 <= j < |idx| ==> idx[j] < |texts| && pending[j] == texts[idx[j]]
    requires Aligned(c, Inputs(c, pending), encoded, start, log)
    ensures |encoded| == |idx| && EncodedFor(c, texts, idx, encoded)
  {
    hide Input, FailedAlone;
  }

  /** The first `n` encoded results are in their slots, and the other slots are as they were. */
  ghost predicate FilledTo(
    out0: seq<Option<Vector>>, idx: seq<nat>, encoded: seq<Option<Vector>>, n: nat, out: seq<Option<Vector>>)
    requires n <= |encoded| == |idx| && forall j :: 0 <= j < |idx| ==> idx[j] < |out0|
  {
    && |out| == |out0|
    && (forall i :: 0 <= i < |out| && i !in idx[..n] ==> out[i] == out0[i])
    && (forall j :: 0 <= j < n ==> out[idx[j]] == encoded[j])
  }

  lemma FilledNext(
      out0: seq<Option<Vector>>, idx: seq<nat>, encoded: seq<Option<Vector>>, n: nat, out: seq<Option<Vector>>)
    requires n < |encoded| == |idx| && forall j :: 0 <= j < |idx| ==> idx[j] < |out0|
    requires forall j, k :: 0 <= j < k < |idx| ==> idx[j] != idx[k]
    requires FilledTo(out0, idx, encoded, n, out)
    ensures |out| == |out0| && FilledTo(out0, idx, encoded, n + 1, out[idx[n] := encoded[n]])
  {
    assert idx[..n + 1] == idx[..n] + [idx[n]];
  }

  /** Nothing was dropped, and the first `n` encoded vectors that are not zero are in the cache. */
  ghost predicate Remembered(
    c: Config, before: map<string, Vector>, now: map<string, Vector>, texts: seq<string>, idx: seq<nat>,
    encoded: seq<Option<Vector>>, n: nat)
    requires n <= |encoded| == |idx| && forall j :: 0 <= j < |idx| ==> idx[j] < |texts|
  {
    && before.Keys <= now.Keys
    && forall j :: 0 <= j < n && encoded[j].Some? && NonZero(encoded[j].value) ==> Key(c, texts[idx[j]]) in now
  }

  lemma RememberedNext(
      c: Config, before: map<string, Vector>, now: map<string, Vector>, texts: seq<string>, idx: seq<nat>,
      encoded: seq<Option<Vector>>, n: nat)
    requires n < |encoded| == |idx| && forall j :: 0 <= j < |idx| ==> idx[j] < |texts|
    ensures Remembered(c, before, now, texts, idx, encoded, n) ==>
      if encoded[n].Some? && NonZero(encoded[n].value)
      then Remembered(c, before, now[Key(c, texts[idx[n]]) := encoded[n].value], texts, idx, encoded, n + 1)
      else Remembered(c, before, now, texts, idx, encoded, n + 1)
  {
    hide Key, NonZero;
  }

  /** One more vector of the model in the cache, and some perhaps dropped. */
  lemma CachePut(
      c: Config, texts: seq<string>, idx: seq<nat>, encoded: seq<Option<Vector>>, n: nat, before: map<string, Vector>,
      after: map<string, Vector>)
    requires n < |encoded| == |idx| && forall j :: 0 <= j < |idx| ==> idx[j] < |texts|
    requires EncodedFor(c, texts, idx, encoded) && encoded[n].Some? && CacheSound(c, before)
    requires
      var grown := before[Key(c, texts[idx[n]]) := encoded[n].value];
      forall x :: x in after ==> x in grown && after[x] == grown[x]
    ensures CacheSound(c, after)
  {
    assert FromKey(c, Key(c, texts[idx[n]]), encoded[n].value);
    hide FromKey, Key, Input;
  }

  lemma NewPut(first: map<string, Vector>, before: map<string, Vector>, after: map<string, Vector>, key: string,
      v: Vector)
    requires NewNonZero(first, before) && NonZero(v)
    requires forall x :: x in after ==> x in before[key := v] && after[x] == before[key := v][x]
    ensures NewNonZero(first, after)
  {
    hide NonZero;
  }

  /** With nothing noted nothing happened: every slot holds what was cached. */
  lemma Untouched(
      c: Config, entries: map<string, Vector>, texts: seq<string>, out0: seq<Option<Vector>>, idx: seq<nat>,
      log: seq<Call>)
    requires |out0| == |texts|
    ensures idx == [] ==>
      && FilledTo(out0, idx, [], 0, out0) && Aligned(c, Inputs(c, []), [], |log|, log)
      && NewNonZero(entries, entries) && Remembered(c, entries, entries, texts, idx, [], 0)
  {
    hide Key, NonZero, Input, FailedAlone;
    assert Inputs(c, []) == [];
  }

  lemma EmptySame(
      texts: seq<string>, out0: seq<Option<Vector>>, out: seq<Option<Vector>>, idx: seq<nat>, pending: seq<string>,
      encoded: seq<Option<Vector>>)
    requires |out0| == |texts| && PendingAre(texts, out0, idx, pending) && |encoded| == |idx|
    requires FilledTo(out0, idx, encoded, |encoded|, out)
    ensures |out| == |texts| && Empty(out) == Empty(encoded)
  {
    hide Empty;
    assert idx[..|encoded|] == idx;
    EmptyMatches(out, idx, encoded);
  }

  /** Slot by slot, after the recovery: the cached vector, or the text's own, or nothing because the text
      failed alone. */
  ghost predicate Slots(
    c: Config, entries: map<string, Vector>, texts: seq<string>, out: seq<Option<Vector>>, start: nat, log: seq<Call>)
    requires |out| == |texts|
  {
    forall i :: 0 <= i < |out| ==>
      if Key(c, texts[i]) in entries then out[i] == Some(entries[Key(c, texts[i])])
      else if out[i].Some? then out[i].value == c.encode(Input(c, texts[i]))
      else FailedAlone(log, start, Input(c, texts[i]))
  }

  lemma SlotsAre(
      c: Config, entries: map<string, Vector>, texts: seq<string>, out0: seq<Option<Vector>>, out: seq<Option<Vector>>,
      idx: seq<nat>, pending: seq<string>, encoded: seq<Option<Vector>>, start: nat, log: seq<Call>)
    requires |out0| == |texts| && FromCache(c, entries, texts, out0)
    requires PendingAre(texts, out0, idx, pending) && |encoded| == |idx|
    requires FilledTo(out0, idx, encoded, |encoded|, out) && Aligned(c, Inputs(c, pending), encoded, start, log)
    ensures |out| == |texts| && Slots(c, entries, texts, out, start, log)
  {
    hide Key, Input, FailedAlone;
    assert idx[..|encoded|] == idx;
    forall i | 0 <= i < |out| && i in idx
      ensures Key(c, texts[i]) !in entries
      ensures if out[i].Some? then out[i].value == c.encode(Input(c, texts[i]))
              else FailedAlone(log, start, Input(c, texts[i]))
    {
      var j :| 0 <= j < |idx| && idx[j] == i;
      assert Inputs(c, pending)[j] == Input(c, texts[i]);
    }
  }

  lemma SlotsMean(
      c: Config, entries: map<string, Vector>, texts: seq<string>, out: seq<Option<Vector>>, start: nat, log: seq<Call>)
    requires |out| == |texts| && Slots(c, entries, texts, out, start, log)
    ensures forall i :: 0 <= i < |out| ==>
      (if out[i].Some? then out[i].value else Zeros(c)) ==
        if Key(c, texts[i]) in entries then entries[Key(c, texts[i])]
        else if i in EmptySlots(out) then Zeros(c) else c.encode(Input(c, texts[i]))
    ensures forall i :: i in EmptySlots(out) ==>
      i < |texts| && Key(c, texts[i]) !in entries && FailedAlone(log, start, Input(c, texts[i]))
  {
    hide Key, Input, FailedAlone;
  }

  lemma AllRemembered(
      c: Config, before: map<string, Vector>, now: map<string, Vector>, texts: seq<string>, out0: seq<Option<Vector>>,
      out: seq<Option<Vector>>, idx: seq<nat>, pending: seq<string>, encoded: seq<Option<Vector>>)
    requires |out0| == |texts| && FromCache(c, before, texts, out0)
    requires PendingAre(texts, out0, idx, pending) && |encoded| == |idx|
    requires FilledTo(out0, idx, encoded, |encoded|, out) && Remembered(c, before, now, texts, idx, encoded, |encoded|)
    ensures |out| == |texts| && Kept(c, now, texts, out)
  {
    hide Key, NonZero;
    forall i | 0 <= i < |out|
      ensures Key(c, texts[i]) in now || out[i].None? || !NonZero(out[i].value)
    {
      if Key(c, texts[i]) !in before {
        assert i in idx;
        var j :| 0 <= j < |idx| && idx[j] == i;
      }
    }
  }

  function Zeros(c: Config): Vector {
    seq(c.dimension, _ => 0.0)
  }

  predicate NonZero(v: Vector) {
    exists k :: 0 <= k < |v| && v[k] != 0.0
  }

  ghost predicate AllZero(v: Vector) {
    forall k :: 0 <= k < |v| ==> v[k] == 0.0
  }

  lemma ZerosOnly(c: Config)
    ensures |Zeros(c)| == c.dimension && AllZero(Zeros(c)) && forall v :: NonZero(v) <==> !AllZero(v)
  {
    forall v: Vector ensures NonZero(v) <==> !AllZero(v) {
      if !AllZero(v) {
        var k :| 0 <= k < |v| && v[k] != 0.0;
        assert NonZero(v);
      }
    }
  }

  /** The pending positions are exactly the empty slots, ascending, with their texts. */
  ghost predicate PendingAre(texts: seq<string>, out: seq<Option<Vector>>, pendingIdx: seq<nat>,
      pendingTexts: seq<string>)
    requires |out| == |texts|
  {
    && |pendingIdx| == |pendingTexts|
    && (forall j :: 0 <= j < |pendingIdx| ==>
          pendingIdx[j] < |texts| && out[pendingIdx[j]].None? && pendingTexts[j] == texts[pendingIdx[j]])
    && (forall j, k :: 0 <= j < k < |pendingIdx| ==> pendingIdx[j] < pendingIdx[k])
    && (forall i :: 0 <= i < |out| && out[i].None? ==> i in pendingIdx)
  }

  /** A text whose key fits the character limit gets its own vector. */
  lemma OwnVector(c: Config, text: string, v: Vector)
    requires (c.maxChars == 0 || |Key(c, text)| <= c.maxChars) && FromKey(c, Key(c, text), v)
    ensures v == c.encode(Input(c, text))
  {
    var t :| Key(c, t) == Key(c, text) && v == c.encode(Input(c, t));
    SameKeySameInputIff(c, text, t);
  }

  lemma {:induction false} NoneEmpty(found: seq<Option<Vector>>)
    requires forall i :: 0 <= i < |found| ==> found[i].Some?
    ensures Empty(found) == 0
  {
    if found != [] {
      NoneEmpty(found[..|found| - 1]);
    }
  }
}
