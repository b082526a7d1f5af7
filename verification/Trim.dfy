/** Trimming of document units: a guard on how much may go, then deletion from right to left. */
module Trim {
  import opened Collections
  import opened Normalize
  import opened Paragraphs
  import opened Splice

  /** A unit with the verdict on it; `protected` is the safeguard of the source, kept abstract. */
  datatype Fused = Fused(start: int, end: int, kind: string, wouldTrim: bool, tier: string, protected: bool)

  datatype TrimPolicy = TrimPolicy(shadow: bool, maxTrimRatio: real)

  datatype TrimResult = TrimResult(
    text: string, charsRemoved: int, unitsRemoved: int, shadowOnly: bool, removedSpans: seq<Span>, protectedSkips: int)

  predicate Trimmable(f: Fused) {
    f.wouldTrim && !f.protected
  }

  predicate Removed(f: Fused) {
    && Trimmable(f)
    && ((f.tier == "high" && f.kind in {"line", "footer", "header", "paragraph"})
        || (f.tier == "medium" && f.kind in {"line", "footer", "header"}))
  }

  /** The spans of the units that `p` selects, in order. */
  function Select(p: Fused -> bool, fused: seq<Fused>): seq<Span> {
    if fused == [] then []
    else
      var (front, last) := (Select(p, fused[..|fused| - 1]), fused[|fused| - 1]);
      if p(last) then front + [Span(last.start, last.end)] else front
  }

  function Protected(fused: seq<Fused>): nat {
    if fused == [] then 0
    else Protected(fused[..|fused| - 1]) + if fused[|fused| - 1].wouldTrim && fused[|fused| - 1].protected then 1 else 0
  }

  function Length(spans: seq<Span>): int {
    if spans == [] then 0 else Length(spans[..|spans| - 1]) + spans[|spans| - 1].end - spans[|spans| - 1].start
  }

  ghost predicate Forward(spans: seq<Span>) {
    forall i :: 0 <= i < |spans| ==> spans[i].start <= spans[i].end
  }

  /** Larger spans first, by start and then by end. */
  predicate Descending(a: Span, b: Span) {
    a.start > b.start || (a.start == b.start && a.end >= b.end)
  }

  function Reversed(spans: seq<Span>): (r: seq<Span>)
    ensures |r| == |spans|
  {
    seq(|spans|, i requires 0 <= i < |spans| => spans[|spans| - 1 - i])
  }

  // ---- deletion from right to left ----

  /** Where the text that deletion has not reached yet ends, with the first `left` spans to go. */
  function Front(text: string, spans: seq<Span>, left: nat): int
    requires left <= |spans|
  {
    if left == |spans| then |text| else spans[left].start
  }

  ghost predicate InBounds(text: string, spans: seq<Span>) {
    Ordered(spans) && EndOf(spans) <= |text|
  }

  /** The text before the front is untouched; behind it stands what the spans leave. */
  ghost predicate DeletedTo(text: string, spans: seq<Span>, left: nat, out: string, rest: string)
    requires left <= |spans| && InBounds(text, spans)
  {
    var a := Front(text, spans, left);
    && 0 <= a <= |text|
    && out == text[..a] + rest && Kept(text, spans, |text|) == Kept(text, spans, a) + rest
  }

  lemma Between(text: string, spans: seq<Span>, left: nat)
    requires InBounds(text, spans) && 0 < left <= |spans|
    ensures
      var (s, a) := (spans[left - 1], Front(text, spans, left));
      && 0 <= s.start <= s.end <= a <= |text|
      && (forall k :: s.end <= k < a ==> !Covered(spans, k))
      && (forall k :: s.start <= k < s.end ==> Covered(spans, k))
  {
    var s := spans[left - 1];
    forall i | 0 <= i < |spans| && i != left - 1
      ensures spans[i].end <= s.start || Front(text, spans, left) <= spans[i].start
    {
      assert i > left ==> spans[left].end <= spans[i].start;
    }
  }

  lemma DeleteStep(text: string, spans: seq<Span>, left: nat, out: string, rest: string) returns (more: string)
    requires InBounds(text, spans) && 0 < left <= |spans| && DeletedTo(text, spans, left, out, rest)
    ensures
      var s := spans[left - 1];
      && 0 <= s.start <= s.end <= |out|
      && DeletedTo(text, spans, left - 1, out[..s.start] + out[s.end..], more)
  {
    hide Kept, Covered;
    var (s, a) := (spans[left - 1], Front(text, spans, left));
    Between(text, spans, left);
    KeptAll(text, spans, s.end, a);
    KeptNone(text, spans, s.start, s.end);
    more := text[s.end..a] + rest;
    assert out[..s.start] == text[..s.start] && out[s.end..] == text[s.end..a] + rest;
    assert Kept(text, spans, s.end) + text[s.end..a] + rest == Kept(text, spans, s.start) + more;
    hide Ordered;
  }

  lemma DeletedAll(text: string, spans: seq<Span>, out: string, rest: string)
    requires InBounds(text, spans) && DeletedTo(text, spans, 0, out, rest)
    ensures out == Kept(text, spans, |text|)
  {
    var a := Front(text, spans, 0);
    forall i | 0 <= i < |spans| ensures a <= spans[i].start {
      assert i > 0 ==> spans[0].end <= spans[i].start;
    }
    KeptAll(text, spans, 0, a);
    assert text[0..a] == text[..a] && "" + text[..a] == text[..a];
  }

  /** The spans deleted one after another, each at its offsets in what is left by then. */
  function Deleted(text: string, spans: seq<Span>): string {
    if spans == [] then text
    else
      var (out, s) := (Deleted(text, spans[..|spans| - 1]), spans[|spans| - 1]);
      if s.start < 0 || s.end > |out| || s.start > s.end then out else out[..s.start] + out[s.end..]
  }

  lemma DeletedMore(text: string, spans: seq<Span>, s: Span)
    requires s.start <= s.end
    ensures Deleted(text, spans + [s]) ==
            var out := Deleted(text, spans);
            if s.start < 0 || s.end > |out| then out else out[..s.start] + out[s.end..]
  {
    assert (spans + [s])[..|spans|] == spans;
  }

  lemma TwiceCovers(s: Span)
    ensures forall k :: Covered([s, s], k) <==> s.start <= k < s.end
  {
    forall k ensures Covered([s, s], k) <==> s.start <= k < s.end {
      assert s.start <= k < s.end ==> [s, s][0].start <= k < [s, s][0].end;
    }
  }

  lemma Slices(text: string, i: nat)
    requires i <= |text|
    ensures text[0..i] == text[..i] && text[i..|text|] == text[i..] && "" + text[..i] == text[..i]
  {
  }

  lemma KeptOutside(text: string, s: Span)
    requires 0 <= s.start <= s.end <= |text|
    ensures Kept(text, [s, s], |text|) == text[..s.start] + text[s.end..]
  {
    TwiceCovers(s);
    assert Kept(text, [s, s], 0) == "";
    KeptBut(text, [s, s], s);
  }

  lemma KeptBut(text: string, spans: seq<Span>, s: Span)
    requires 0 <= s.start <= s.end <= |text|
    requires Kept(text, spans, 0) == "" && forall k :: Covered(spans, k) <==> s.start <= k < s.end
    ensures Kept(text, spans, |text|) == text[..s.start] + text[s.end..]
  {
    hide Covered, Kept;
    KeptAll(text, spans, 0, s.start);
    KeptNone(text, spans, s.start, s.end);
    KeptAll(text, spans, s.end, |text|);
    Slices(text, s.start);
    Slices(text, s.end);
  }

  lemma DeletedOnce(text: string, s: Span)
    requires 0 <= s.start <= s.end <= |text|
    ensures Deleted(text, [s]) == text[..s.start] + text[s.end..]
  {
    DeletedMore(text, [], s);
    assert [] + [s] == [s];
  }

  lemma CutTwice(text: string, s: Span)
    requires 0 <= s.start < s.end && 2 * s.end - s.start <= |text|
    ensures
      var once := text[..s.start] + text[s.end..];
      s.end <= |once| && once[..s.start] + once[s.end..] == text[..s.start] + text[2 * s.end - s.start..]
  {
    var once := text[..s.start] + text[s.end..];
    assert once[..s.start] == text[..s.start] && once[s.end..] == text[2 * s.end - s.start..];
  }

  /** A span given twice takes its length twice: the text after it goes as well. */
  lemma RepeatedSpan(text: string, s: Span)
    requires 0 <= s.start < s.end && 2 * s.end - s.start <= |text|
    ensures Deleted(text, [s, s]) == text[..s.start] + text[2 * s.end - s.start..]
    ensures Kept(text, [s, s], |text|) == text[..s.start] + text[s.end..]
  {
    hide Kept, Deleted;
    KeptOutside(text, s);
    DeletedOnce(text, s);
    DeletedMore(text, [s], s);
    assert [s] + [s] == [s, s];
    CutTwice(text, s);
  }

  /** After the first spans: what is left, and how much went. */
  ghost predicate Progress(text: string, spans: seq<Span>, out: string, removed: int) {
    out == Deleted(text, spans) && |out| == |text| - removed && 0 <= removed <= Length(spans)
  }

  lemma ProgressMore(text: string, spans: seq<Span>, out: string, removed: int, s: Span)
    requires Progress(text, spans, out, removed) && s.start <= s.end
    ensures
      if s.start < 0 || s.end > |out| then Progress(text, spans + [s], out, removed)
      else Progress(text, spans + [s], out[..s.start] + out[s.end..], removed + s.end - s.start)
  {
    DeletedMore(text, spans, s);
    LengthMore(spans, s);
    hide Deleted, Length;
  }

  lemma LengthMore(spans: seq<Span>, s: Span)
    ensures Length(spans + [s]) == Length(spans) + s.end - s.start
  {
    assert (spans + [s])[..|spans|] == spans;
  }

  /** Separate spans from the right: none is skipped, and behind the front stands what is kept. */
  ghost predicate Exact(text: string, spans: seq<Span>, i: nat, out: string, rest: string, removed: int)
    requires i <= |spans|
  {
    && InBounds(text, Reversed(spans))
    && DeletedTo(text, Reversed(spans), |spans| - i, out, rest) && removed == Length(spans[..i])
  }

  lemma ExactMore(text: string, spans: seq<Span>, i: nat, out: string, rest: string, removed: int)
      returns (more: string)
    requires i < |spans| && Exact(text, spans, i, out, rest, removed)
    ensures
      var s := spans[i];
      && 0 <= s.start <= s.end <= |out|
      && Exact(text, spans, i + 1, out[..s.start] + out[s.end..], more, removed + s.end - s.start)
  {
    assert spans[..i + 1] == spans[..i] + [spans[i]];
    LengthMore(spans[..i], spans[i]);
    assert Reversed(spans)[|spans| - i - 1] == spans[i];
    hide DeletedTo, InBounds, Length, Reversed;
    more := DeleteStep(text, Reversed(spans), |spans| - i, out, rest);
  }

  lemma ExactStart(text: string, spans: seq<Span>)
    requires InBounds(text, Reversed(spans))
    ensures Exact(text, spans, 0, text, "", 0)
  {
    assert text[..|text|] + "" == text;
    var all := Kept(text, Reversed(spans), |text|);
    assert all + "" == all;
    hide Kept;
  }

  lemma ExactEnd(text: string, spans: seq<Span>, out: string, rest: string, removed: int)
    requires Exact(text, spans, |spans|, out, rest, removed)
    ensures out == Kept(text, Reversed(spans), |text|) && removed == Length(spans)
  {
    assert spans[..|spans|] == spans;
    hide DeletedTo, InBounds, Kept, Reversed;
    DeletedAll(text, Reversed(spans), out, rest);
  }

  /** Deletes the spans in the order given. Spans out of bounds are skipped. */
  method DeleteSpans(text: string, spans: seq<Span>) returns (out: string, removed: int)
    requires Forward(spans)
    ensures Progress(text, spans, out, removed)
  {
    out, removed := text, 0;
    for i := 0 to |spans|
      invariant Progress(text, spans[..i], out, removed)
    {
      hide Progress;
      var (start, end) := (spans[i].start, spans[i].end);
      assert spans[..i + 1] == spans[..i] + [spans[i]];
      ProgressMore(text, spans[..i], out, removed, spans[i]);
      if start < 0 || end > |out| {
        continue;
      }
      out := out[..start] + out[end..];
      removed := removed + end - start;
    }
    assert spans[..|spans|] == spans;
  }

  // ---- the whole trim ----

  lemma {:induction false} SelectForward(p: Fused -> bool, fused: seq<Fused>)
    requires forall i :: 0 <= i < |fused| ==> fused[i].start <= fused[i].end
    ensures Forward(Select(p, fused))
  {
    if fused != [] {
      SelectForward(p, fused[..|fused| - 1]);
    }
  }

  lemma {:induction false} LengthSplit(a: seq<Span>, b: seq<Span>)
    ensures Length(a + b) == Length(a) + Length(b)
  {
    if b == [] {
      assert a + b == a;
    } else {
      LengthSplit(a, b[..|b| - 1]);
      assert (a + b)[..|a + b| - 1] == a + b[..|b| - 1];
    }
  }

  /** Sorting changes neither the total length nor that spans are forward. */
  lemma {:induction false} LengthSame(a: seq<Span>, b: seq<Span>)
    requires multiset(a) == multiset(b)
    ensures Length(a) == Length(b)
  {
    hide Length;
    LengthNone();
    if a == [] {
      assert |multiset(b)| == |b|;
    } else {
      var (front, last) := (a[..|a| - 1], a[|a| - 1]);
      var l, r := WithoutLast(a, b);
      LengthSame(front, l + r);
      assert a == front + [last];
      LengthMore(front, last);
      LengthSplit(l, r);
      LengthSplit(l + [last], r);
      LengthMore(l, last);
    }
  }

  lemma ForwardSame(a: seq<Span>, b: seq<Span>)
    requires multiset(a) == multiset(b) && Forward(a)
    ensures Forward(b)
  {
    forall i | 0 <= i < |b| ensures b[i].start <= b[i].end {
      assert b[i] in multiset(b);
      assert b[i] in multiset(a);
    }
  }

  /** No two spans overlap, and all lie within the text. */
  ghost predicate Separate(text: string, spans: seq<Span>) {
    && (forall i :: 0 <= i < |spans| ==> 0 <= spans[i].start <= spans[i].end <= |text|)
    && (forall i, j :: 0 <= i < |spans| && 0 <= j < |spans| && i != j ==>
          spans[i].end <= spans[j].start || spans[j].end <= spans[i].start)
  }

  /** Separate spans sorted from the right are in order from the left. */
  lemma SortedInBounds(text: string, spans: seq<Span>)
    requires Separate(text, spans) && SortedBy(Descending, spans)
    ensures InBounds(text, Reversed(spans))
  {
    var up := Reversed(spans);
    forall i, j | 0 <= i < j < |up| ensures up[i].end <= up[j].start {
      assert Descending(spans[|spans| - 1 - j], spans[|spans| - 1 - i]);
    }
  }

  /** The order of the spans does not matter to what is kept. */
  lemma ReversedCovers(spans: seq<Span>, k: int)
    ensures Covered(Reversed(spans), k) <==> Covered(spans, k)
  {
    var up := Reversed(spans);
    assert forall i :: 0 <= i < |spans| ==> spans[i] == up[|spans| - 1 - i];
    if Covered(spans, k) {
      var i :| 0 <= i < |spans| && spans[i].start <= k < spans[i].end;
      assert up[|spans| - 1 - i] == spans[i];
    }
  }

  /** How many characters the policy lets go. */
  function Budget(text: string, policy: TrimPolicy): real {
    policy.maxTrimRatio * (if |text| > 1 then |text| else 1) as real
  }

  /** The spans deleted from the right. */
  function Trimmed(text: string, spans: seq<Span>): string {
    Deleted(text, SortedOf(Descending, spans))
  }

  /** The spans of the selected units, in order, and how many stay for being protected: unit by unit. */
  lemma {:induction false} SelectSplit(p: Fused -> bool, a: seq<Fused>, f: Fused, b: seq<Fused>)
    ensures Select(p, a + [f] + b) == Select(p, a) + (if p(f) then [Span(f.start, f.end)] else []) + Select(p, b)
    ensures Protected(a + [f] + b) == Protected(a) + (if f.wouldTrim && f.protected then 1 else 0) + Protected(b)
  {
    var s := a + [f] + b;
    if b == [] {
      assert s == a + [f] && s[..|s| - 1] == a;
    } else {
      SelectSplit(p, a, f, b[..|b| - 1]);
      assert s[..|s| - 1] == a + [f] + b[..|b| - 1];
    }
  }

  /** Units go one by one, by tier and kind: at the medium tier lines, headers and footers, at the high
      tier paragraphs as well, at no other tier anything; in shadow mode all that are to be trimmed. */
  lemma RemovedUnits(a: seq<Fused>, f: Fused, b: seq<Fused>)
    ensures
      var goes := f.wouldTrim && !f.protected && (f.tier, f.kind) in {
        ("medium", "line"), ("medium", "header"), ("medium", "footer"),
        ("high", "line"), ("high", "header"), ("high", "footer"), ("high", "paragraph")};
      var span := [Span(f.start, f.end)];
      && Select(Removed, a + [f] + b) == Select(Removed, a) + (if goes then span else []) + Select(Removed, b)
      && Select(Trimmable, a + [f] + b) ==
         Select(Trimmable, a) + (if f.wouldTrim && !f.protected then span else []) + Select(Trimmable, b)
  {
    SelectSplit(Removed, a, f, b);
    SelectSplit(Trimmable, a, f, b);
  }

  /** More goes than the policy allows exactly when the share of the text is above its ratio; an empty
      text counts as one character. */
  lemma OverBudgetIff(text: string, policy: TrimPolicy, n: int)
    ensures n as real > Budget(text, policy) <==>
            n as real / (if text == "" then 1 else |text|) as real > policy.maxTrimRatio
  {
    RatioIff(n, if text == "" then 1 else |text|, policy.maxTrimRatio);
  }

  method CutSpans(text: string, spans: seq<Span>) returns (out: string, removed: int)
    requires Forward(spans)
    ensures out == Trimmed(text, spans) && |out| == |text| - removed && 0 <= removed <= Length(spans)
  {
    var sorted := SortBy(Descending, spans);
    SortedOfIs(Descending, spans);
    ForwardSame(spans, sorted);
    LengthSame(spans, sorted);
    hide Length, Kept, InBounds, Deleted;
    out, removed := DeleteSpans(text, sorted);
  }

  lemma {:induction false} ExactUpTo(text: string, spans: seq<Span>, i: nat) returns (rest: string)
    requires InBounds(text, Reversed(spans)) && i <= |spans|
    ensures Exact(text, spans, i, Deleted(text, spans[..i]), rest, Length(spans[..i]))
  {
    hide InBounds, Reversed, Length, Exact;
    if i == 0 {
      ExactStart(text, spans);
      LengthNone();
      rest := "";
      assert spans[..0] == [] && Deleted(text, []) == text;
    } else {
      var before := ExactUpTo(text, spans, i - 1);
      rest := ExactMore(text, spans, i - 1, Deleted(text, spans[..i - 1]), before, Length(spans[..i - 1]));
      assert spans[..i] == spans[..i - 1] + [spans[i - 1]];
      DeletedMore(text, spans[..i - 1], spans[i - 1]);
      LengthMore(spans[..i - 1], spans[i - 1]);
    }
  }

  lemma LengthNone()
    ensures Length([]) == 0
  {
  }

  /** Disjoint spans in bounds, from the right, leave exactly the text outside them. */
  lemma DeletedExactly(text: string, spans: seq<Span>)
    requires InBounds(text, Reversed(spans))
    ensures Deleted(text, spans) == Kept(text, Reversed(spans), |text|)
  {
    hide InBounds, Reversed, Length, Exact, Deleted, Kept;
    var rest := ExactUpTo(text, spans, |spans|);
    assert spans[..|spans|] == spans;
    ExactEnd(text, spans, Deleted(text, spans), rest, Length(spans));
  }

  /** Trimming: nothing happens in shadow mode, with nothing to remove, or when more would go than
      the policy allows. Otherwise what goes is within the policy, and tidying takes white space
      only. */
  method SafeTrimFragments(u: Unicode, text: string, fused: seq<Fused>, policy: TrimPolicy) returns (r: TrimResult)
    requires u.isSpace('\n')
    requires forall i :: 0 <= i < |fused| ==> fused[i].start <= fused[i].end
    ensures
      var spans := Select(Removed, fused);
      if policy.shadow || text == "" then r == TrimResult(text, 0, 0, true, Select(Trimmable, fused), Protected(fused))
      else if spans == [] || Length(spans) as real > Budget(text, policy) then
        r == TrimResult(text, 0, 0, false, [], Protected(fused))
      else
        var raw := Trimmed(text, spans);
        && r == TrimResult(Tidy(u, raw), |text| - |raw|, |spans|, false, spans, Protected(fused))
        && Ink(u, r.text) == Ink(u, raw)
        && 0 <= r.charsRemoved && r.charsRemoved as real <= Budget(text, policy)
  {
    hide Length, Ink, Tidy, Select, Protected, Trimmed;
    if policy.shadow || text == "" {
      r := TrimResult(text, 0, 0, true, Select(Trimmable, fused), Protected(fused));
      return;
    }
    var removeUnits := Select(Removed, fused);
    if removeUnits == [] {
      r := TrimResult(text, 0, 0, false, [], Protected(fused));
      return;
    }
    var removeChars := Length(removeUnits);
    var size := if |text| > 1 then |text| else 1;
    RatioIff(removeChars, size, policy.maxTrimRatio);
    if removeChars as real / size as real > policy.maxTrimRatio {
      r := TrimResult(text, 0, 0, false, [], Protected(fused));
      return;
    }
    SelectForward(Removed, fused);
    var out, removed := CutSpans(text, removeUnits);
    TidyInk(u, out);
    r := TrimResult(Tidy(u, out), removed, |removeUnits|, false, removeUnits, Protected(fused));
  }

  lemma RatioIff(n: int, size: int, ratio: real)
    requires size > 0
    ensures n as real / size as real > ratio <==> n as real > ratio * size as real
  {
    var (x, s) := (n as real, size as real);
    assert x == x / s * s;
  }
}
