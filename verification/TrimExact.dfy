/** When deleting spans one after another leaves exactly the text outside them. */
module TrimExact {
  import opened Collections
  import opened Splice
  import opened Trim

  ghost predicate Within(text: string, spans: seq<Span>) {
    forall i :: 0 <= i < |spans| ==> 0 <= spans[i].start <= spans[i].end <= |text|
  }

  predicate Meet(s: Span, t: Span) {
    s.start < s.end && t.start < t.end && s.start < t.end && t.start < s.end
  }

  /** No two spans that are not empty have a character in common. */
  ghost predicate NoOverlap(spans: seq<Span>) {
    forall i, j :: 0 <= i < j < |spans| ==> !Meet(spans[i], spans[j])
  }

  // ---- how many spans cover a character ----

  function Depth(spans: seq<Span>, k: int): nat {
    if spans == [] then 0
    else
      var last := spans[|spans| - 1];
      Depth(spans[..|spans| - 1], k) + if last.start <= k < last.end then 1 else 0
  }

  lemma {:induction false} DepthSplit(a: seq<Span>, b: seq<Span>, k: int)
    ensures Depth(a + b, k) == Depth(a, k) + Depth(b, k)
  {
    if b == [] {
      assert a + b == a;
    } else {
      DepthSplit(a, b[..|b| - 1], k);
      assert (a + b)[..|a + b| - 1] == a + b[..|b| - 1];
    }
  }

  /** The order of the spans does not matter. */
  lemma {:induction false} DepthSame(a: seq<Span>, b: seq<Span>, k: int)
    requires multiset(a) == multiset(b)
    ensures Depth(a, k) == Depth(b, k)
  {
    hide Depth;
    if a == [] {
      assert |multiset(b)| == |b|;
    } else {
      var (front, last) := (a[..|a| - 1], a[|a| - 1]);
      var l, r := WithoutLast(a, b);
      DepthSame(front, l + r, k);
      assert a == front + [last];
      DepthSplit(front, [last], k);
      DepthSplit(l, r, k);
      DepthSplit(l + [last], r, k);
      DepthSplit(l, [last], k);
    }
  }

  lemma {:induction false} DepthCovered(spans: seq<Span>, k: int)
    ensures Depth(spans, k) >= 1 <==> Covered(spans, k)
  {
    if spans != [] {
      var (front, last) := (spans[..|spans| - 1], spans[|spans| - 1]);
      DepthCovered(front, k);
      assert spans == front + [last];
      CoveredMore(front, last, k);
      hide Covered;
    }
  }

  lemma {:induction false} DepthTwice(spans: seq<Span>, i: nat, j: nat, k: int)
    requires i < j < |spans| && spans[i].start <= k < spans[i].end && spans[j].start <= k < spans[j].end
    ensures Depth(spans, k) >= 2
  {
    var front := spans[..|spans| - 1];
    if j == |spans| - 1 {
      assert front[i] == spans[i];
      DepthCovered(front, k);
    } else {
      DepthTwice(front, i, j, k);
    }
  }

  lemma {:induction false} TwoAt(spans: seq<Span>, k: int) returns (i: nat, j: nat)
    requires Depth(spans, k) >= 2
    ensures i < j < |spans| && spans[i].start <= k < spans[i].end && spans[j].start <= k < spans[j].end
  {
    var (front, last) := (spans[..|spans| - 1], spans[|spans| - 1]);
    if last.start <= k < last.end {
      DepthCovered(front, k);
      i :| 0 <= i < |front| && front[i].start <= k < front[i].end;
      j := |front|;
    } else {
      i, j := TwoAt(front, k);
    }
  }

  ghost predicate Single(spans: seq<Span>) {
    forall k :: Depth(spans, k) <= 1
  }

  /** Spans overlap nowhere exactly when no character is covered twice. */
  lemma DepthIff(spans: seq<Span>)
    ensures NoOverlap(spans) <==> Single(spans)
  {
    forall k | Depth(spans, k) > 1 ensures !NoOverlap(spans) {
      var i, j := TwoAt(spans, k);
      assert Meet(spans[i], spans[j]);
    }
    if !NoOverlap(spans) {
      var i, j :| 0 <= i < j < |spans| && Meet(spans[i], spans[j]);
      DepthTwice(spans, i, j, if spans[i].start > spans[j].start then spans[i].start else spans[j].start);
    }
  }

  lemma OverlapSame(a: seq<Span>, b: seq<Span>)
    requires NoOverlap(a) && forall k :: Depth(b, k) == Depth(a, k)
    ensures NoOverlap(b)
  {
    DepthIff(a);
    DepthIff(b);
    hide NoOverlap;
    forall k ensures Depth(b, k) <= 1 {
      assert Depth(b, k) == Depth(a, k);
    }
  }

  // ---- lengths ----

  function DepthSum(spans: seq<Span>, n: nat): nat {
    if n == 0 then 0 else DepthSum(spans, n - 1) + Depth(spans, n - 1)
  }

  /** How many characters of the span come before `n`. */
  function Before(s: Span, n: nat): int {
    if n <= s.start then 0 else if n <= s.end then n - s.start else s.end - s.start
  }

  lemma {:induction false} DepthSumMore(spans: seq<Span>, s: Span, n: nat)
    requires 0 <= s.start <= s.end
    ensures DepthSum(spans + [s], n) == DepthSum(spans, n) + Before(s, n)
  {
    if n > 0 {
      DepthSumMore(spans, s, n - 1);
      assert (spans + [s])[..|spans|] == spans;
    }
  }

  lemma {:induction false} DepthSumNone(n: nat)
    ensures DepthSum([], n) == 0
  {
    if n > 0 {
      DepthSumNone(n - 1);
    }
  }

  lemma {:induction false} DepthSumIs(text: string, spans: seq<Span>)
    requires Within(text, spans)
    ensures DepthSum(spans, |text|) == Length(spans)
  {
    hide DepthSum;
    DepthSumNone(|text|);
    if spans != [] {
      var (front, last) := (spans[..|spans| - 1], spans[|spans| - 1]);
      DepthSumIs(text, front);
      assert spans == front + [last];
      DepthSumMore(front, last, |text|);
    }
  }

  /** What is kept is at least what the depths leave, and just that only if nothing is covered twice. */
  lemma {:induction false} KeptLength(text: string, spans: seq<Span>, n: nat)
    requires n <= |text|
    ensures |Kept(text, spans, n)| + DepthSum(spans, n) >= n
    ensures |Kept(text, spans, n)| + DepthSum(spans, n) == n ==> forall k :: 0 <= k < n ==> Depth(spans, k) <= 1
  {
    if n > 0 {
      KeptLength(text, spans, n - 1);
      DepthCovered(spans, n - 1);
    }
    hide Covered, Depth;
  }

  // ---- empty spans ----

  function NonEmpty(spans: seq<Span>): seq<Span> {
    if spans == [] then []
    else
      var (front, last) := (NonEmpty(spans[..|spans| - 1]), spans[|spans| - 1]);
      if last.start < last.end then front + [last] else front
  }

  /** Empty spans cover nothing. */
  lemma {:induction false} NonEmptyDepth(spans: seq<Span>, k: int)
    ensures Depth(NonEmpty(spans), k) == Depth(spans, k)
  {
    if spans != [] {
      var (front, last) := (spans[..|spans| - 1], spans[|spans| - 1]);
      NonEmptyDepth(front, k);
      DepthMore(NonEmpty(front), last, k);
    }
  }

  /** Empty spans take nothing. */
  lemma {:induction false} NonEmptyDeleted(text: string, spans: seq<Span>)
    requires Within(text, spans)
    ensures Deleted(text, NonEmpty(spans)) == Deleted(text, spans)
  {
    if spans != [] {
      hide Deleted;
      var (front, last) := (spans[..|spans| - 1], spans[|spans| - 1]);
      NonEmptyDeleted(text, front);
      assert spans == front + [last];
      DeletedMore(text, front, last);
      DeletedMore(text, NonEmpty(front), last);
      NothingCut(Deleted(text, front), last);
    }
  }

  lemma NothingCut(out: string, s: Span)
    ensures 0 <= s.start == s.end <= |out| ==> out[..s.start] + out[s.end..] == out
  {
  }

  lemma DepthMore(spans: seq<Span>, s: Span, k: int)
    ensures Depth(spans + [s], k) == Depth(spans, k) + if s.start <= k < s.end then 1 else 0
  {
    assert (spans + [s])[..|spans|] == spans;
  }

  lemma {:induction false} NonEmptySorted(text: string, spans: seq<Span>)
    requires Within(text, spans) && SortedBy(Descending, spans)
    ensures SortedBy(Descending, NonEmpty(spans))
    ensures forall s :: s in NonEmpty(spans) ==> s in spans && 0 <= s.start < s.end <= |text|
  {
    if spans != [] {
      var (front, last) := (spans[..|spans| - 1], spans[|spans| - 1]);
      NonEmptySorted(text, front);
      assert spans == front + [last];
      forall s | s in front ensures Descending(s, last) {
        var i :| 0 <= i < |front| && front[i] == s;
        assert spans[i] == s;
      }
    }
    hide Descending;
  }

  // ---- the whole deletion ----

  lemma NonEmptySeparate(text: string, spans: seq<Span>)
    requires NoOverlap(spans) && forall s :: s in spans ==> 0 <= s.start < s.end <= |text|
    ensures Separate(text, spans)
  {
    forall i, j | 0 <= i < |spans| && 0 <= j < |spans| && i != j
      ensures spans[i].end <= spans[j].start || spans[j].end <= spans[i].start
    {
      assert !Meet(spans[i], spans[j]) && !Meet(spans[j], spans[i]);
    }
  }

  lemma DescendingIsTotal()
    ensures TotalPreorder(Descending)
  {
  }

  lemma SortedWithin(text: string, spans: seq<Span>)
    requires Within(text, spans)
    ensures Within(text, SortedOf(Descending, spans))
  {
    DescendingIsTotal();
    SortedOfIs(Descending, spans);
    var sorted := SortedOf(Descending, spans);
    forall i | 0 <= i < |sorted| ensures 0 <= sorted[i].start <= sorted[i].end <= |text| {
      assert sorted[i] in multiset(sorted);
      assert sorted[i] in multiset(spans);
    }
  }

  /** Spans that do not overlap leave exactly the text outside them, in whatever order they are given. */
  lemma TrimmedKeeps(text: string, spans: seq<Span>)
    requires Within(text, spans) && NoOverlap(spans)
    ensures Trimmed(text, spans) == Kept(text, spans, |text|)
  {
    hide Within, NoOverlap, NonEmpty, Depth, SortedOf, Deleted, Kept, Separate, InBounds, Reversed, Covered;
    var down := NonEmpty(SortedOf(Descending, spans));
    DownFrom(text, spans);
    SortedInBounds(text, down);
    DeletedExactly(text, down);
    forall k ensures Covered(Reversed(down), k) <==> Covered(spans, k) {
      ReversedCovers(down, k);
      DepthCovered(down, k);
      DepthCovered(spans, k);
    }
    KeptSame(text, Reversed(down), spans, |text|);
  }

  /** The spans that are not empty, sorted, lie apart from each other and take the same text. */
  lemma DownFrom(text: string, spans: seq<Span>)
    requires Within(text, spans) && NoOverlap(spans)
    ensures
      var down := NonEmpty(SortedOf(Descending, spans));
      && SortedBy(Descending, down) && Separate(text, down) && Trimmed(text, spans) == Deleted(text, down)
      && forall k :: Depth(down, k) == Depth(spans, k)
  {
    hide Within, NoOverlap, NonEmpty, SortedOf, Deleted, Separate, SortedBy;
    var sorted := SortedOf(Descending, spans);
    DescendingIsTotal();
    SortedOfIs(Descending, spans);
    SortedWithin(text, spans);
    NonEmptySorted(text, sorted);
    NonEmptyDeleted(text, sorted);
    forall k ensures Depth(NonEmpty(sorted), k) == Depth(spans, k) {
      NonEmptyDepth(sorted, k);
      DepthSame(sorted, spans, k);
    }
    OverlapSame(spans, NonEmpty(sorted));
    NonEmptySeparate(text, NonEmpty(sorted));
  }

  /** From right to left, each span that is not empty ends within what the ones before it have left of
      a text of `n` characters. */
  ghost predicate AllFit(n: int, spans: seq<Span>) {
    forall i :: 0 <= i < |spans| && spans[i].start < spans[i].end ==> spans[i].end <= n - Length(spans[..i])
  }

  lemma FitMore(n: int, spans: seq<Span>, s: Span)
    ensures AllFit(n, spans + [s]) <==> AllFit(n, spans) && (s.start < s.end ==> s.end <= n - Length(spans))
  {
    hide Length;
    var more := spans + [s];
    assert more[..|spans|] == spans && more[|spans|] == s;
    forall i | 0 <= i < |spans| ensures more[i] == spans[i] && more[..i] == spans[..i] {
    }
  }

  /** At most the length of all spans goes, and just that exactly when each fits. */
  lemma {:induction false} DeletedLength(text: string, spans: seq<Span>)
    requires Within(text, spans)
    ensures |text| - Length(spans) <= |Deleted(text, spans)| <= |text|
    ensures |Deleted(text, spans)| == |text| - Length(spans) <==> AllFit(|text|, spans)
  {
    if spans != [] {
      var (front, s) := (spans[..|spans| - 1], spans[|spans| - 1]);
      DeletedLength(text, front);
      assert spans == front + [s];
      FitMore(|text|, front, s);
      DeletedMore(text, front, s);
      LengthMore(front, s);
      hide AllFit, Length, Deleted;
    }
  }

  /** No span that is not empty is skipped: each fits when those further right are gone. */
  ghost predicate NoneSkipped(n: int, spans: seq<Span>) {
    AllFit(n, SortedOf(Descending, spans))
  }

  /** All that the spans hold goes exactly when none is skipped. */
  lemma NothingSkippedIff(text: string, spans: seq<Span>)
    requires Within(text, spans)
    ensures |Trimmed(text, spans)| == |text| - Length(spans) <==> NoneSkipped(|text|, spans)
  {
    DescendingIsTotal();
    SortedOfIs(Descending, spans);
    SortedWithin(text, spans);
    LengthSame(spans, SortedOf(Descending, spans));
    hide Length, Deleted, SortedOf, AllFit;
    DeletedLength(text, SortedOf(Descending, spans));
  }

  /** Where no span is skipped, deletion leaves exactly the text outside the spans if and only if no
      two of them overlap. */
  lemma TrimmedExactIff(text: string, spans: seq<Span>)
    requires Within(text, spans) && NoneSkipped(|text|, spans)
    ensures Trimmed(text, spans) == Kept(text, spans, |text|) <==> NoOverlap(spans)
  {
    hide Trimmed, Kept, DepthSum, Depth, Length, Within, NoneSkipped;
    NothingSkippedIff(text, spans);
    if NoOverlap(spans) {
      TrimmedKeeps(text, spans);
    }
    if Trimmed(text, spans) == Kept(text, spans, |text|) {
      DepthSumIs(text, spans);
      KeptLength(text, spans, |text|);
      forall k ensures Depth(spans, k) <= 1 {
        DepthOutside(text, spans, k);
      }
      DepthIff(spans);
    }
  }

  lemma DepthOutside(text: string, spans: seq<Span>, k: int)
    requires Within(text, spans)
    ensures k < 0 || k >= |text| ==> Depth(spans, k) == 0
  {
    DepthCovered(spans, k);
    hide Depth;
  }
}
