/** Blank-line paragraphs: what cutting at blank lines and stripping the pieces gives, and how it
    behaves when texts are joined. */
module Paragraphs {
  import opened Normalize

  predicate Blank(u: Unicode, s: string) {
    forall i :: 0 <= i < |s| ==> u.isSpace(s[i])
  }

  function Newlines(s: string): nat {
    if s == "" then 0 else Newlines(s[..|s| - 1]) + if s[|s| - 1] == '\n' then 1 else 0
  }

  // ---- the pattern of the source ----

  /** A match of a newline, white space and a newline. */
  ghost predicate Gap(u: Unicode, s: string, i: int, j: int) {
    0 <= i < j < |s| && s[i] == '\n' && s[j] == '\n' && Blank(u, s[i + 1..j])
  }

  /** Where the longest match that starts at `i` ends; `k` runs on from `i`. */
  function GapEnd(u: Unicode, s: string, i: nat, k: nat, best: int): int
    decreases |s| - k
  {
    if k >= |s| then best
    else if s[k] == '\n' then GapEnd(u, s, i, k + 1, k)
    else if u.isSpace(s[k]) then GapEnd(u, s, i, k + 1, best)
    else best
  }

  lemma {:induction false} GapEndIs(u: Unicode, s: string, i: nat, k: nat, best: int)
    requires u.isSpace('\n') && i < k <= |s| && s[i] == '\n' && Blank(u, s[i + 1..k])
    requires best == -1 || (Gap(u, s, i, best) && best < k)
    requires forall j :: i < j < k && j > best ==> s[j] != '\n'
    ensures
      var e := GapEnd(u, s, i, k, best);
      (e == -1 || Gap(u, s, i, e)) && forall j :: Gap(u, s, i, j) ==> j <= e
    decreases |s| - k
  {
    if k < |s| {
      assert s[i + 1..k + 1] == s[i + 1..k] + [s[k]];
      forall j | Gap(u, s, i, j) && k < j ensures u.isSpace(s[k]) {
        assert s[i + 1..j][k - i - 1] == s[k];
      }
      if s[k] == '\n' {
        GapEndIs(u, s, i, k + 1, k);
      } else if u.isSpace(s[k]) {
        GapEndIs(u, s, i, k + 1, best);
      }
    }
  }

  function MatchEnd(u: Unicode, s: string, i: nat): int
    requires i < |s|
  {
    if s[i] == '\n' then GapEnd(u, s, i, i + 1, -1) else -1
  }

  lemma MatchEndIs(u: Unicode, s: string, i: nat)
    requires u.isSpace('\n') && i < |s|
    ensures MatchEnd(u, s, i) == -1 || Gap(u, s, i, MatchEnd(u, s, i))
    ensures forall j :: Gap(u, s, i, j) ==> j <= MatchEnd(u, s, i)
  {
    if s[i] == '\n' {
      GapEndIs(u, s, i, i + 1, -1);
    }
  }

  /** The pieces between the leftmost longest matches. */
  function CutAtGaps(u: Unicode, s: string, i: nat): seq<string>
    requires i <= |s|
    decreases |s| - i + |s|
  {
    if i == |s| then [s]
    else
      var e := MatchEnd(u, s, i);
      if i < e < |s| then [s[..i]] + CutAtGaps(u, s[e + 1..], 0) else CutAtGaps(u, s, i + 1)
  }

  /** The pieces stripped, blank ones left out. */
  function Stripped(u: Unicode, pieces: seq<string>): seq<string> {
    if pieces == [] then []
    else (if Strip(u, pieces[0]) != "" then [Strip(u, pieces[0])] else []) + Stripped(u, pieces[1..])
  }

  // ---- paragraphs, read character by character ----

  /** Finished paragraphs, the one being read, and the white space after its last character. */
  datatype Reading = Reading(done: seq<string>, cur: string, pend: string)

  function Read(u: Unicode, s: string): Reading {
    if s == "" then Reading([], "", "")
    else Next(u, Read(u, s[..|s| - 1]), s[|s| - 1])
  }

  function Next(u: Unicode, r: Reading, c: char): Reading {
    if u.isSpace(c) then r.(pend := r.pend + [c])
    else if r.cur == "" then Reading(r.done, [c], "")
    else if Newlines(r.pend) >= 2 then Reading(r.done + [r.cur], [c], "")
    else Reading(r.done, r.cur + r.pend + [c], "")
  }

  function Flush(r: Reading): seq<string> {
    if r.cur == "" then r.done else r.done + [r.cur]
  }

  function Paras(u: Unicode, s: string): seq<string> {
    Flush(Read(u, s))
  }

  // ---- joining ----

  lemma ReadMore(u: Unicode, s: string, c: char)
    ensures Read(u, s + [c]) == Next(u, Read(u, s), c)
  {
    assert (s + [c])[..|s|] == s;
  }

  lemma {:induction false} NewlinesJoin(a: string, b: string)
    ensures Newlines(a + b) == Newlines(a) + Newlines(b)
  {
    if b == "" {
      assert a + b == a;
    } else {
      assert (a + b)[..|a + b| - 1] == a + b[..|b| - 1];
      NewlinesJoin(a, b[..|b| - 1]);
    }
  }

  lemma BlankFront(u: Unicode, b: string)
    requires Blank(u, b) && b != ""
    ensures Blank(u, b[..|b| - 1]) && u.isSpace(b[|b| - 1])
  {
  }

  lemma {:induction false} ReadBlank(u: Unicode, a: string, b: string)
    requires Blank(u, b)
    ensures Read(u, a + b) == Read(u, a).(pend := Read(u, a).pend + b)
  {
    hide Read, Newlines, Blank;
    if b == "" {
      assert a + b == a;
    } else {
      var (front, c) := (b[..|b| - 1], b[|b| - 1]);
      BlankFront(u, b);
      ReadBlank(u, a, front);
      assert b == front + [c] && a + (front + [c]) == a + front + [c];
      ReadMore(u, a + front, c);
      var pend := Read(u, a).pend;
      assert pend + front + [c] == pend + (front + [c]);
    }
  }

  /** Only blank text leaves nothing to read. */
  lemma {:induction false} ReadNothing(u: Unicode, s: string)
    requires Read(u, s).cur == ""
    ensures Blank(u, s) && Read(u, s) == Reading([], "", s)
  {
    hide Read, Newlines;
    if s == "" {
      ReadEmpty(u);
    } else {
      var (front, c) := (s[..|s| - 1], s[|s| - 1]);
      assert s == front + [c];
      ReadMore(u, front, c);
      ReadNothing(u, front);
    }
  }

  lemma ReadEmpty(u: Unicode)
    ensures Read(u, "") == Reading([], "", "")
  {
  }

  predicate Fresh(r: Reading) {
    Newlines(r.pend) >= 2 || r.cur == ""
  }

  /** What reading a second text adds to a first reading that ended in a break. */
  function Continued(a: Reading, b: Reading): Reading {
    if b.cur == "" then a.(pend := a.pend + b.pend) else Reading(Flush(a) + b.done, b.cur, b.pend)
  }

  lemma NextContinued(u: Unicode, a: Reading, b: Reading, c: char)
    requires Fresh(a) && (b.cur == "" ==> b.done == [])
    ensures Next(u, Continued(a, b), c) == Continued(a, Next(u, b, c))
  {
    NewlinesJoin(a.pend, b.pend);
    if b.cur == "" {
      assert a.pend + b.pend + [c] == a.pend + (b.pend + [c]);
      assert Flush(a) + [] == Flush(a);
    } else {
      assert Flush(a) + b.done + [b.cur] == Flush(a) + (b.done + [b.cur]);
    }
    hide Newlines;
  }

  /** After a blank line, or with nothing read yet, reading starts afresh. */
  lemma {:induction false} ReadAfresh(u: Unicode, a: string, b: string)
    requires Fresh(Read(u, a))
    ensures Read(u, a + b) == Continued(Read(u, a), Read(u, b))
  {
    if b == "" {
      assert a + b == a && Read(u, a).pend + "" == Read(u, a).pend;
      assert Read(u, b) == Reading([], "", "");
    } else {
      var (front, c) := (b[..|b| - 1], b[|b| - 1]);
      ReadAfresh(u, a, front);
      assert a + b == a + front + [c] && b == front + [c];
      ReadMore(u, a + front, c);
      ReadMore(u, front, c);
      if Read(u, front).cur == "" {
        ReadNothing(u, front);
      }
      NextContinued(u, Read(u, a), Read(u, front), c);
    }
    hide Read, Next, Newlines, Continued;
  }

  /** White space with two newlines in it separates paragraphs. */
  lemma ParasApart(u: Unicode, a: string, gap: string, b: string)
    requires Blank(u, gap) && Newlines(gap) >= 2
    ensures Paras(u, a + gap + b) == Paras(u, a) + Paras(u, b)
  {
    ReadBlank(u, a, gap);
    NewlinesJoin(Read(u, a).pend, gap);
    ReadAfresh(u, a + gap, b);
    if Read(u, b).cur == "" {
      ReadNothing(u, b);
    }
    FlushContinued(Read(u, a + gap), Read(u, b));
    hide Read, Newlines, Blank, Continued;
  }

  lemma FlushContinued(a: Reading, b: Reading)
    requires b.cur == "" ==> b.done == []
    ensures Flush(Continued(a, b)) == Flush(a) + Flush(b)
  {
    assert Flush(a) + b.done + [b.cur] == Flush(a) + (b.done + [b.cur]);
    assert Flush(a) + [] == Flush(a);
  }

  function Joined(xs: seq<string>): string {
    if xs == [] then ""
    else if |xs| == 1 then xs[0]
    else Joined(xs[..|xs| - 1]) + "\n\n" + xs[|xs| - 1]
  }

  function ParasAll(u: Unicode, xs: seq<string>): seq<string> {
    if xs == [] then [] else ParasAll(u, xs[..|xs| - 1]) + Paras(u, xs[|xs| - 1])
  }

  lemma ParasPair(u: Unicode, a: string, b: string)
    requires u.isSpace('\n')
    ensures Paras(u, a + "\n\n" + b) == Paras(u, a) + Paras(u, b)
  {
    assert "\n\n"[..1] == "\n" && "\n"[..0] == "";
    ParasApart(u, a, "\n\n", b);
  }

  /** Joining texts by blank lines lists their paragraphs one after another. */
  lemma {:induction false} ParasJoined(u: Unicode, xs: seq<string>)
    requires u.isSpace('\n')
    ensures Paras(u, Joined(xs)) == ParasAll(u, xs)
  {
    if |xs| == 1 {
      assert xs[..0] == [];
      assert [] + Paras(u, xs[0]) == Paras(u, xs[0]);
    } else if |xs| > 1 {
      ParasJoined(u, xs[..|xs| - 1]);
      ParasPair(u, Joined(xs[..|xs| - 1]), xs[|xs| - 1]);
    }
  }

  lemma {:induction false} ParasAllJoin(u: Unicode, xs: seq<string>, ys: seq<string>)
    ensures ParasAll(u, xs + ys) == ParasAll(u, xs) + ParasAll(u, ys)
  {
    if ys == [] {
      assert xs + ys == xs;
    } else {
      var (front, last) := (ys[..|ys| - 1], Paras(u, ys[|ys| - 1]));
      ParasAllJoin(u, xs, front);
      assert (xs + ys)[..|xs + ys| - 1] == xs + front;
      assert ParasAll(u, xs) + ParasAll(u, front) + last == ParasAll(u, xs) + (ParasAll(u, front) + last);
    }
    hide Paras;
  }

  // ---- a paragraph is its own only paragraph ----

  /** The paragraph being read would read the same on its own, and only white space is pending. */
  ghost predicate Alone(u: Unicode, r: Reading) {
    Blank(u, r.pend) && (r.cur != "" ==> Read(u, r.cur) == Reading([], r.cur, ""))
  }

  lemma ReadOne(u: Unicode, c: char)
    requires !u.isSpace(c)
    ensures Read(u, [c]) == Reading([], [c], "")
  {
    ReadMore(u, "", c);
    assert "" + [c] == [c] && Read(u, "") == Reading([], "", "");
  }

  lemma BlankJoin(u: Unicode, a: string, b: string)
    requires Blank(u, a) && Blank(u, b)
    ensures Blank(u, a + b)
  {
  }

  lemma NextAlone(u: Unicode, r: Reading, c: char)
    requires Alone(u, r)
    ensures Alone(u, Next(u, r, c))
  {
    if u.isSpace(c) {
      BlankJoin(u, r.pend, [c]);
    } else {
      ReadOne(u, c);
      ReadBlank(u, r.cur, r.pend);
      ReadMore(u, r.cur + r.pend, c);
      assert "" + r.pend == r.pend;
    }
    hide Read, Newlines, Blank;
  }

  lemma {:induction false} CurrentAlone(u: Unicode, s: string)
    ensures Alone(u, Read(u, s))
  {
    if s != "" {
      CurrentAlone(u, s[..|s| - 1]);
      NextAlone(u, Read(u, s[..|s| - 1]), s[|s| - 1]);
    }
  }

  lemma {:induction false} ParagraphAlone(u: Unicode, s: string)
    ensures forall p :: p in Paras(u, s) ==> Paras(u, p) == [p] && p != ""
  {
    if s != "" {
      var front := s[..|s| - 1];
      ParagraphAlone(u, front);
      CurrentAlone(u, front);
      CurrentAlone(u, s);
      if Read(u, front).cur != "" {
        AloneIs(u, Read(u, front));
      }
      if Read(u, s).cur != "" {
        AloneIs(u, Read(u, s));
      }
    }
  }

  lemma AloneIs(u: Unicode, r: Reading)
    requires Alone(u, r) && r.cur != ""
    ensures Paras(u, r.cur) == [r.cur]
  {
  }

  // ---- agreement with the pattern ----

  lemma {:induction false} StripPadded(u: Unicode, lead: string, s: string, tail: string)
    requires Blank(u, lead) && Blank(u, tail)
    requires s == "" ==> lead == ""
    requires s != "" ==> !u.isSpace(s[0]) && !u.isSpace(s[|s| - 1])
    ensures Strip(u, lead + s + tail) == s
  {
    if lead != "" {
      StripPadded(u, lead[1..], s, tail);
      assert (lead + s + tail)[0] == lead[0] && (lead + s + tail)[1..] == lead[1..] + s + tail;
    } else if tail != "" {
      StripPadded(u, "", s, tail[..|tail| - 1]);
      StripEnd(u, s, tail);
    } else {
      assert lead + s + tail == s;
    }
  }

  lemma StripEnd(u: Unicode, s: string, tail: string)
    requires Blank(u, tail) && tail != ""
    requires s != "" ==> !u.isSpace(s[0])
    ensures Strip(u, "" + s + tail) == Strip(u, "" + s + tail[..|tail| - 1])
  {
    var (whole, less) := ("" + s + tail, "" + s + tail[..|tail| - 1]);
    assert whole == s + tail && less == s + tail[..|tail| - 1];
    if s == "" {
      StripBlank(u, tail);
      StripBlank(u, tail[..|tail| - 1]);
      assert whole == tail && less == tail[..|tail| - 1];
    } else {
      assert whole[0] == s[0] && less[0] == s[0] && whole[..|whole| - 1] == less &&
        whole[|whole| - 1] == tail[|tail| - 1];
    }
  }

  lemma {:induction false} StripBlank(u: Unicode, s: string)
    requires Blank(u, s)
    ensures Strip(u, s) == ""
  {
    if s != "" {
      StripBlank(u, s[1..]);
    }
  }

  lemma {:induction false} TwoNewlines(s: string) returns (i: nat, j: nat)
    requires Newlines(s) >= 2
    ensures i < j < |s| && s[i] == '\n' && s[j] == '\n'
  {
    if s[|s| - 1] != '\n' {
      i, j := TwoNewlines(s[..|s| - 1]);
    } else {
      i := OneNewline(s[..|s| - 1]);
      j := |s| - 1;
    }
  }

  lemma {:induction false} OneNewline(s: string) returns (i: nat)
    requires Newlines(s) >= 1
    ensures i < |s| && s[i] == '\n'
  {
    if s[|s| - 1] == '\n' {
      i := |s| - 1;
    } else {
      i := OneNewline(s[..|s| - 1]);
    }
  }

  ghost predicate GapFree(u: Unicode, s: string) {
    forall i, j | 0 <= i < |s| && 0 <= j < |s| && s[i] == '\n' && s[j] == '\n' :: !Gap(u, s, i, j)
  }

  lemma GapsOfPart(u: Unicode, s: string, n: nat)
    requires n <= |s|
    ensures forall i, j :: Gap(u, s[..n], i, j) ==> Gap(u, s, i, j)
  {
    forall i, j | Gap(u, s[..n], i, j) ensures Gap(u, s, i, j) {
      assert s[..n][i + 1..j] == s[i + 1..j];
      assert s[..n][i] == s[i] && s[..n][j] == s[j];
    }
  }

  /** `lead` is white space before the one paragraph read so far, if any. */
  ghost predicate One(u: Unicode, s: string, lead: string, r: Reading) {
    && r.done == [] && s == lead + r.cur + r.pend && Blank(u, lead) && Blank(u, r.pend)
    && (r.cur != "" ==> !u.isSpace(r.cur[0]) && !u.isSpace(r.cur[|r.cur| - 1]))
    && (r.cur == "" ==> lead == "")
  }

  lemma PendGaps(u: Unicode, s: string, lead: string, r: Reading)
    requires One(u, s, lead, r)
    ensures forall i, j :: 0 <= i < j < |r.pend| && r.pend[i] == '\n' && r.pend[j] == '\n' ==>
      Gap(u, s, |lead + r.cur| + i, |lead + r.cur| + j)
  {
    var n := |lead + r.cur|;
    forall i, j | 0 <= i < j < |r.pend| && r.pend[i] == '\n' && r.pend[j] == '\n'
      ensures Gap(u, s, n + i, n + j)
    {
      assert s[n..n + |r.pend|] == r.pend;
      assert s[n + i + 1..n + j] == r.pend[i + 1..j];
    }
  }

  lemma PendGapFree(u: Unicode, s: string, lead: string, r: Reading)
    requires GapFree(u, s) && One(u, s, lead, r)
    ensures Newlines(r.pend) < 2
  {
    PendGaps(u, s, lead, r);
    if Newlines(r.pend) >= 2 {
      var i, j := TwoNewlines(r.pend);
    }
  }

  lemma NextOne(u: Unicode, s: string, lead: string, r: Reading, c: char) returns (more: string)
    requires One(u, s, lead, r) && Newlines(r.pend) < 2
    ensures One(u, s + [c], more, Next(u, r, c))
  {
    more := if u.isSpace(c) || r.cur != "" then lead else r.pend;
    assert lead + r.cur + r.pend + [c] == lead + r.cur + (r.pend + [c]) == lead + (r.cur + r.pend + [c]);
    hide Newlines;
  }

  /** Text without a gap holds at most one paragraph. */
  lemma {:induction false} ReadGapFree(u: Unicode, s: string) returns (lead: string)
    requires GapFree(u, s)
    ensures One(u, s, lead, Read(u, s))
  {
    lead := "";
    if s != "" {
      var (front, c) := (s[..|s| - 1], s[|s| - 1]);
      GapsOfPart(u, s, |s| - 1);
      var less := ReadGapFree(u, front);
      PendGapFree(u, front, less, Read(u, front));
      lead := NextOne(u, front, less, Read(u, front), c);
      assert s == front + [c];
      ReadMore(u, front, c);
      hide Next, GapFree, Newlines;
    }
  }

  lemma GapNewlines(u: Unicode, s: string, i: int, j: int)
    requires u.isSpace('\n') && Gap(u, s, i, j)
    ensures Blank(u, s[i..j + 1]) && Newlines(s[i..j + 1]) >= 2
  {
    var mid := s[i + 1..j];
    assert s[i..j + 1] == "\n" + mid + "\n";
    NewlinesJoin("\n" + mid, "\n");
    NewlinesJoin("\n", mid);
    assert "\n"[..0] == "" && Newlines("\n") == 1;
    BlankJoin(u, "\n", mid);
    BlankJoin(u, "\n" + mid, "\n");
  }

  lemma BeforeFirst(u: Unicode, s: string, i: nat)
    requires i <= |s| && forall p, q :: Gap(u, s, p, q) ==> p >= i
    ensures GapFree(u, s[..i])
  {
    GapsOfPart(u, s, i);
  }

  lemma ParasGapFree(u: Unicode, s: string)
    requires GapFree(u, s)
    ensures Paras(u, s) == if Strip(u, s) != "" then [Strip(u, s)] else []
  {
    var lead := ReadGapFree(u, s);
    var r := Read(u, s);
    StripPadded(u, lead, r.cur, r.pend);
    hide Read, Strip, GapFree, Blank;
  }

  /** Reading character by character gives what cutting at the pattern and stripping gives. */
  lemma {:induction false} ParasAreCut(u: Unicode, s: string, i: nat)
    requires u.isSpace('\n') && i <= |s|
    requires forall p, q :: Gap(u, s, p, q) ==> p >= i
    ensures Paras(u, s) == Stripped(u, CutAtGaps(u, s, i))
    decreases |s| - i + |s|
  {
    if i == |s| {
      BeforeFirst(u, s, i);
      assert s[..i] == s;
      ParasGapFree(u, s);
    } else {
      MatchEndIs(u, s, i);
      var e := MatchEnd(u, s, i);
      if i < e < |s| {
        BeforeFirst(u, s, i);
        ParasGapFree(u, s[..i]);
        GapNewlines(u, s, i, e);
        ParasApart(u, s[..i], s[i..e + 1], s[e + 1..]);
        assert s[..i] + s[i..e + 1] + s[e + 1..] == s;
        ParasAreCut(u, s[e + 1..], 0);
        var rest := CutAtGaps(u, s[e + 1..], 0);
        assert ([s[..i]] + rest)[1..] == rest;
      } else {
        ParasAreCut(u, s, i + 1);
      }
    }
    hide Paras, Strip, GapFree, Blank, Newlines, MatchEnd;
  }

  // ---- length ----

  /** What has been read is no longer than the text. */
  lemma {:induction false} ReadShorter(u: Unicode, s: string)
    ensures |Read(u, s).cur| + |Read(u, s).pend| <= |s| && forall p :: p in Read(u, s).done ==> |p| <= |s|
  {
    if s != "" {
      ReadShorter(u, s[..|s| - 1]);
    }
    hide Newlines;
  }

  lemma ParasShorter(u: Unicode, s: string)
    ensures forall p :: p in Paras(u, s) ==> |p| <= |s|
  {
    ReadShorter(u, s);
    hide Read;
  }

  // ---- ink ----

  /** The characters that are not white space, in order. */
  function Ink(u: Unicode, s: string): string {
    if s == "" then "" else Ink(u, s[..|s| - 1]) + if u.isSpace(s[|s| - 1]) then "" else [s[|s| - 1]]
  }

  function InkAll(u: Unicode, xs: seq<string>): string {
    if xs == [] then "" else InkAll(u, xs[..|xs| - 1]) + Ink(u, xs[|xs| - 1])
  }

  lemma {:induction false} InkJoin(u: Unicode, a: string, b: string)
    ensures Ink(u, a + b) == Ink(u, a) + Ink(u, b)
  {
    if b == "" {
      assert a + b == a;
    } else {
      assert (a + b)[..|a + b| - 1] == a + b[..|b| - 1];
      InkJoin(u, a, b[..|b| - 1]);
    }
  }

  lemma {:induction false} InkBlank(u: Unicode, s: string)
    requires Blank(u, s)
    ensures Ink(u, s) == ""
  {
    if s != "" {
      InkBlank(u, s[..|s| - 1]);
    }
  }

  function InkRead(u: Unicode, r: Reading): string {
    InkAll(u, r.done) + Ink(u, r.cur)
  }

  lemma InkOne(u: Unicode, s: string, c: char)
    ensures Ink(u, s + [c]) == Ink(u, s) + if u.isSpace(c) then "" else [c]
  {
    assert (s + [c])[..|s|] == s;
  }

  lemma InkAllOne(u: Unicode, xs: seq<string>, x: string)
    ensures InkAll(u, xs + [x]) == InkAll(u, xs) + Ink(u, x)
  {
    assert (xs + [x])[..|xs|] == xs;
  }

  lemma NextInk(u: Unicode, r: Reading, c: char)
    requires Blank(u, r.pend)
    ensures InkRead(u, Next(u, r, c)) == InkRead(u, r) + if u.isSpace(c) then "" else [c]
  {
    hide Newlines, Ink, InkAll, Blank;
    InkBlank(u, r.pend);
    InkJoin(u, r.cur, r.pend);
    InkOne(u, r.cur + r.pend, c);
    InkOne(u, "", c);
    InkBlankEmpty(u);
    InkAllOne(u, r.done, r.cur);
    assert "" + [c] == [c];
    var (all, ink) := (InkAll(u, r.done), Ink(u, r.cur));
    assert all + ink + "" == all + ink && all + (ink + [c]) == all + ink + [c];
  }

  lemma InkBlankEmpty(u: Unicode)
    ensures Ink(u, "") == ""
  {
  }

  /** Paragraphs lose white space only. */
  lemma {:induction false} ParasInk(u: Unicode, s: string)
    ensures InkRead(u, Read(u, s)) == Ink(u, s)
    ensures InkAll(u, Paras(u, s)) == Ink(u, s)
  {
    if s != "" {
      ParasInk(u, s[..|s| - 1]);
      CurrentAlone(u, s[..|s| - 1]);
      NextInk(u, Read(u, s[..|s| - 1]), s[|s| - 1]);
      hide Next;
    }
    var t := Read(u, s);
    assert (t.done + [t.cur])[..|t.done|] == t.done;
  }
}
