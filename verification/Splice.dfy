/** Removing spans from a text: what is kept. */
module Splice {
  import opened Normalize
  import opened Paragraphs
  import opened Segmenter

  datatype Span = Span(start: int, end: int)

  ghost predicate Covered(spans: seq<Span>, k: int) {
    exists i :: 0 <= i < |spans| && spans[i].start <= k < spans[i].end
  }

  /** The characters before `n` that no span covers, in order. */
  ghost function Kept(text: string, spans: seq<Span>, n: int): string
    requires 0 <= n <= |text|
  {
    if n == 0 then "" else Kept(text, spans, n - 1) + if Covered(spans, n - 1) then "" else [text[n - 1]]
  }

  /** Proper spans, each ending before the next starts. */
  ghost predicate Ordered(spans: seq<Span>) {
    && (forall i :: 0 <= i < |spans| ==> 0 <= spans[i].start <= spans[i].end)
    && (forall i, j :: 0 <= i < j < |spans| ==> spans[i].end <= spans[j].start)
  }

  lemma {:induction false} KeptAll(text: string, spans: seq<Span>, a: int, b: int)
    requires 0 <= a <= b <= |text|
    requires forall k :: a <= k < b ==> !Covered(spans, k)
    ensures Kept(text, spans, b) == Kept(text, spans, a) + text[a..b]
  {
    hide Covered;
    if a < b {
      KeptAll(text, spans, a, b - 1);
      assert text[a..b] == text[a..b - 1] + [text[b - 1]];
    }
  }

  lemma {:induction false} KeptNone(text: string, spans: seq<Span>, a: int, b: int)
    requires 0 <= a <= b <= |text|
    requires forall k :: a <= k < b ==> Covered(spans, k)
    ensures Kept(text, spans, b) == Kept(text, spans, a)
  {
    hide Covered;
    if a < b {
      KeptNone(text, spans, a, b - 1);
    }
  }

  lemma {:induction false} KeptSame(text: string, s: seq<Span>, t: seq<Span>, n: int)
    requires 0 <= n <= |text|
    requires forall k :: 0 <= k < n ==> (Covered(s, k) <==> Covered(t, k))
    ensures Kept(text, s, n) == Kept(text, t, n)
  {
    hide Covered;
    if n > 0 {
      KeptSame(text, s, t, n - 1);
    }
  }

  lemma CoveredMore(spans: seq<Span>, s: Span, k: int)
    ensures Covered(spans + [s], k) <==> Covered(spans, k) || s.start <= k < s.end
  {
    if Covered(spans, k) {
      var i :| 0 <= i < |spans| && spans[i].start <= k < spans[i].end;
      assert (spans + [s])[i] == spans[i];
    }
    assert (spans + [s])[|spans|] == s;
  }

  /** An index as a slice of the source takes it: past the end is the end. */
  function Clamp(text: string, i: nat): (r: nat)
    ensures r <= |text|
  {
    if i < |text| then i else |text|
  }

  function EndOf(spans: seq<Span>): int {
    if spans == [] then 0 else spans[|spans| - 1].end
  }

  lemma BeyondEnd(spans: seq<Span>)
    requires Ordered(spans)
    ensures forall k :: k >= EndOf(spans) ==> !Covered(spans, k)
  {
  }

  lemma OrderedMore(spans: seq<Span>, s: Span)
    requires Ordered(spans) && 0 <= EndOf(spans) <= s.start <= s.end
    ensures Ordered(spans + [s])
    ensures forall k :: Covered(spans + [s], k) <==> Covered(spans, k) || s.start <= k < s.end
  {
    forall k ensures Covered(spans + [s], k) <==> Covered(spans, k) || s.start <= k < s.end {
      CoveredMore(spans, s, k);
    }
    hide Covered;
  }

  /** Copying on from the last span to the next one, which is left out. */
  lemma KeptStep(text: string, spans: seq<Span>, s: Span)
    requires Ordered(spans) && 0 <= EndOf(spans) <= s.start <= s.end
    ensures
      var (a, b) := (Clamp(text, EndOf(spans)), Clamp(text, s.start));
      a <= b && Kept(text, spans + [s], Clamp(text, s.end)) == Kept(text, spans, a) + text[a..b]
  {
    hide Covered, Kept, Ordered, EndOf;
    var (a, b, c) := (Clamp(text, EndOf(spans)), Clamp(text, s.start), Clamp(text, s.end));
    BeyondEnd(spans);
    OrderedMore(spans, s);
    KeptSame(text, spans, spans + [s], a);
    KeptAll(text, spans + [s], a, b);
    KeptNone(text, spans + [s], b, c);
  }

  /** Copying on after the last span. */
  lemma KeptEnd(text: string, spans: seq<Span>)
    requires Ordered(spans) && EndOf(spans) >= 0
    ensures
      var a := Clamp(text, EndOf(spans));
      Kept(text, spans, |text|) == Kept(text, spans, a) + text[a..]
  {
    hide Covered, Kept, Ordered, EndOf;
    var a := Clamp(text, EndOf(spans));
    BeyondEnd(spans);
    KeptAll(text, spans, a, |text|);
    assert text[a..|text|] == text[a..];
  }

  // ---- tidying ----

  function TrailingNewlines(s: string): nat {
    if s == "" || s[|s| - 1] != '\n' then 0 else 1 + TrailingNewlines(s[..|s| - 1])
  }

  /** Runs of three or more newlines cut down to two. */
  function Collapse(s: string): string {
    if s == "" then ""
    else
      var (front, c) := (Collapse(s[..|s| - 1]), s[|s| - 1]);
      if c == '\n' && TrailingNewlines(front) >= 2 then front else front + [c]
  }

  function Tidy(u: Unicode, s: string): string {
    Strip(u, Collapse(s))
  }

  /** Nowhere three newlines in a row. */
  ghost predicate NoTriple(s: string) {
    forall i :: 0 <= i < |s| - 2 ==> s[i] != '\n' || s[i + 1] != '\n' || s[i + 2] != '\n'
  }

  lemma TrailMore(s: string, c: char)
    ensures TrailingNewlines(s + [c]) == if c == '\n' then TrailingNewlines(s) + 1 else 0
    ensures TrailingNewlines(s) >= 2 <==> |s| >= 2 && s[|s| - 1] == '\n' && s[|s| - 2] == '\n'
  {
    assert (s + [c])[..|s|] == s;
    if |s| >= 2 && s[|s| - 1] == '\n' {
      assert s[..|s| - 1][|s| - 2] == s[|s| - 2];
    }
  }

  lemma CollapseMore(s: string, c: char)
    ensures Collapse(s + [c]) ==
            if c == '\n' && TrailingNewlines(Collapse(s)) >= 2 then Collapse(s) else Collapse(s) + [c]
  {
    hide TrailingNewlines;
    assert (s + [c])[..|s|] == s;
  }

  lemma NoTripleMore(s: string, c: char)
    ensures NoTriple(s + [c]) <==> NoTriple(s) && (c != '\n' || TrailingNewlines(s) < 2)
  {
    TrailMore(s, c);
    hide TrailingNewlines;
    var more := s + [c];
    forall i | 0 <= i < |s| - 2 && NoTriple(more) ensures s[i] != '\n' || s[i + 1] != '\n' || s[i + 2] != '\n' {
      assert more[i] != '\n' || more[i + 1] != '\n' || more[i + 2] != '\n';
    }
    if |s| >= 2 {
      var i := |s| - 2;
      assert more[i] == s[i] && more[i + 1] == s[i + 1] && more[i + 2] == c;
    }
  }

  lemma {:induction false} CollapseNoTriple(s: string)
    ensures NoTriple(Collapse(s)) && (NoTriple(s) ==> Collapse(s) == s)
  {
    hide TrailingNewlines;
    if s != "" {
      var (front, c) := (s[..|s| - 1], s[|s| - 1]);
      hide NoTriple, Collapse;
      assert s == front + [c];
      CollapseNoTriple(front);
      CollapseMore(front, c);
      NoTripleMore(front, c);
      NoTripleMore(Collapse(front), c);
    }
  }

  /** One newline more at the end of two changes nothing. */
  lemma CollapseThird(a: string)
    ensures
      var two := a + ['\n'] + ['\n'];
      Collapse(two + ['\n']) == Collapse(two)
  {
    var (one, two) := (a + ['\n'], a + ['\n'] + ['\n']);
    CollapseMore(a, '\n');
    CollapseMore(one, '\n');
    CollapseMore(two, '\n');
    TrailMore(Collapse(a), '\n');
    TrailMore(Collapse(one), '\n');
    hide Collapse, TrailingNewlines;
  }

  lemma {:induction false} CollapseOn(a: string, b: string, rest: string)
    requires Collapse(a) == Collapse(b)
    ensures Collapse(a + rest) == Collapse(b + rest)
  {
    hide Collapse, TrailingNewlines;
    if rest == "" {
      assert a + rest == a && b + rest == b;
    } else {
      var (front, c) := (rest[..|rest| - 1], rest[|rest| - 1]);
      CollapseOn(a, b, front);
      CollapseMore(a + front, c);
      CollapseMore(b + front, c);
      assert a + rest == a + front + [c] && b + rest == b + front + [c];
    }
  }

  lemma CollapseTriple(a: string, b: string)
    ensures Collapse(a + "\n\n\n" + b) == Collapse(a + "\n\n" + b)
  {
    hide Collapse;
    CollapseThird(a);
    var two := a + ['\n'] + ['\n'];
    assert a + "\n\n" == two && a + "\n\n\n" == two + ['\n'];
    CollapseOn(two + ['\n'], two, b);
  }

  /** Tidying takes one newline after another from runs of three and more, until there is none, and the
      white space at either end; a text without any of that is left as it is. */
  lemma TidyIs(u: Unicode, s: string, a: string, b: string)
    ensures NoTriple(Collapse(s)) && Tidy(u, a + "\n\n\n" + b) == Tidy(u, a + "\n\n" + b)
    ensures NoTriple(s) ==> Tidy(u, s) == Strip(u, s)
  {
    CollapseNoTriple(s);
    CollapseTriple(a, b);
  }

  lemma {:induction false} CollapseInk(u: Unicode, s: string)
    requires u.isSpace('\n')
    ensures Ink(u, Collapse(s)) == Ink(u, s)
  {
    hide TrailingNewlines;
    if s != "" {
      CollapseInk(u, s[..|s| - 1]);
      InkOne(u, Collapse(s[..|s| - 1]), s[|s| - 1]);
    }
  }

  /** Tidying loses white space only. */
  lemma TidyInk(u: Unicode, s: string)
    requires u.isSpace('\n')
    ensures Ink(u, Tidy(u, s)) == Ink(u, s)
  {
    CollapseInk(u, s);
    InkStrip(u, Collapse(s));
    hide Ink;
  }
}
