/** Text normalisation for exact dedup, and the one-pass hash that must agree with it. */
module Normalize {
  /** What Unicode supplies: white space, lower-casing and canonical composition. */
  datatype Unicode = Unicode(isSpace: char -> bool, lower: char -> string, nfc: string -> string)

  /** Lower-casing a non-space character gives some text, and no white space. */
  ghost predicate WellBehaved(u: Unicode) {
    && u.isSpace(' ')
    && forall c :: !u.isSpace(c) ==> u.lower(c) != "" && forall d :: d in u.lower(c) ==> !u.isSpace(d)
  }

  predicate CtrlSkip(c: char) {
    c as int <= 8 || c as int in {11, 12} || 14 <= c as int <= 31
  }

  // ---- what normalisation means ----

  /** Whether the last character that is not skipped belongs to a word. */
  function InWord(u: Unicode, s: string): bool {
    if s == "" then false
    else if CtrlSkip(s[|s| - 1]) then InWord(u, s[..|s| - 1])
    else !u.isSpace(s[|s| - 1])
  }

  /** The lower-cased words of the text: its maximal runs without white space, skipped control
      characters left out. */
  function Words(u: Unicode, s: string): (ws: seq<string>)
    ensures InWord(u, s) ==> ws != []
  {
    if s == "" then []
    else
      var (front, c) := (s[..|s| - 1], s[|s| - 1]);
      var ws := Words(u, front);
      if CtrlSkip(c) || u.isSpace(c) then ws
      else if InWord(u, front) then ws[|ws| - 1 := ws[|ws| - 1] + u.lower(c)]
      else ws + [u.lower(c)]
  }

  function Spaced(ws: seq<string>): string {
    if ws == [] then ""
    else if |ws| == 1 then ws[0]
    else Spaced(ws[..|ws| - 1]) + " " + ws[|ws| - 1]
  }

  function NormalForm(u: Unicode, text: string): string {
    if text == "" then "" else Spaced(Words(u, u.nfc(text)))
  }

  ghost predicate Plain(u: Unicode, w: string) {
    w != "" && forall c :: c in w ==> !u.isSpace(c)
  }

  lemma {:induction false} WordsPlain(u: Unicode, s: string)
    requires WellBehaved(u)
    ensures forall w :: w in Words(u, s) ==> Plain(u, w)
  {
    if s != "" {
      var (front, c) := (s[..|s| - 1], s[|s| - 1]);
      WordsPlain(u, front);
      if !CtrlSkip(c) && !u.isSpace(c) && InWord(u, front) {
        var ws := Words(u, front);
        assert ws[|ws| - 1] in ws && Plain(u, ws[|ws| - 1] + u.lower(c));
      }
    }
  }

  lemma {:induction false} SpacedEnds(u: Unicode, ws: seq<string>)
    requires forall w :: w in ws ==> Plain(u, w)
    ensures ws != [] ==> Spaced(ws) != "" && !u.isSpace(Spaced(ws)[0]) && !u.isSpace(Spaced(ws)[|Spaced(ws)| - 1])
  {
    if |ws| > 1 {
      var last := ws[|ws| - 1];
      assert last in ws && last[|last| - 1] in last;
      SpacedEnds(u, ws[..|ws| - 1]);
    } else if |ws| == 1 {
      assert ws[0] in ws && ws[0][0] in ws[0] && ws[0][|ws[0]| - 1] in ws[0];
    }
  }

  lemma SpacedNonEmpty(u: Unicode, s: string)
    requires WellBehaved(u)
    ensures Spaced(Words(u, s)) == "" <==> Words(u, s) == []
  {
    WordsPlain(u, s);
    SpacedEnds(u, Words(u, s));
  }

  lemma SpacedGrow(ws: seq<string>, w: string)
    ensures ws != [] ==> Spaced(ws[|ws| - 1 := ws[|ws| - 1] + w]) == Spaced(ws) + w
    ensures Spaced(ws + [w]) == if ws == [] then w else Spaced(ws) + " " + w
  {
    if ws != [] {
      assert ws[|ws| - 1 := ws[|ws| - 1] + w][..|ws| - 1] == ws[..|ws| - 1];
      assert (ws + [w])[..|ws|] == ws;
    }
  }

  // ---- stripping ----

  function StripLeft(u: Unicode, s: string): string {
    if s != "" && u.isSpace(s[0]) then StripLeft(u, s[1..]) else s
  }

  function StripRight(u: Unicode, s: string): string {
    if s != "" && u.isSpace(s[|s| - 1]) then StripRight(u, s[..|s| - 1]) else s
  }

  function Strip(u: Unicode, s: string): string {
    StripRight(u, StripLeft(u, s))
  }

  lemma StripTail(u: Unicode, s: string, tail: string)
    requires u.isSpace(' ') && tail in {"", " "}
    requires s == "" ==> tail == ""
    requires s != "" ==> !u.isSpace(s[0]) && !u.isSpace(s[|s| - 1])
    ensures Strip(u, s + tail) == s
  {
    if s == "" {
      assert s + tail == "";
    } else {
      assert (s + tail)[0] == s[0];
      if tail == "" {
        assert s + tail == s;
      } else {
        assert (s + tail)[|s|] == ' ' && (s + tail)[..|s|] == s;
        assert StripRight(u, s + tail) == StripRight(u, s);
      }
    }
  }

  // ---- the two loops ----

  method NormalizeForDedup(u: Unicode, text: string) returns (r: string)
    requires WellBehaved(u)
    ensures r == NormalForm(u, text)
  {
    if text == "" {
      return "";
    }
    var s := u.nfc(text);
    var out, inWs := "", false;
    for i := 0 to |s|
      invariant Collapsed(u, s[..i], out, inWs)
    {
      CollapsedNext(u, s, i, out, inWs);
      hide Collapsed, CtrlSkip, WellBehaved;
      if CtrlSkip(s[i]) {
        continue;
      }
      if u.isSpace(s[i]) {
        if out != "" && !inWs {
          out, inWs := out + " ", true;
        }
        continue;
      }
      inWs := false;
      out := out + u.lower(s[i]);
    }
    assert s[..|s|] == s;
    WordsPlain(u, s);
    SpacedEnds(u, Words(u, s));
    SpacedNonEmpty(u, s);
    StripTail(u, Spaced(Words(u, s)), if inWs then " " else "");
    r := Strip(u, out);
  }

  /** The loop's output is the spaced words, with a space already owed to the next one. */
  ghost predicate Collapsed(u: Unicode, s: string, out: string, inWs: bool) {
    && out == Spaced(Words(u, s)) + (if inWs then " " else "")
    && (inWs <==> Words(u, s) != [] && !InWord(u, s))
  }

  lemma CollapsedNext(u: Unicode, s: string, i: nat, out: string, inWs: bool)
    requires WellBehaved(u) && i < |s| && Collapsed(u, s[..i], out, inWs)
    ensures
      var (c, after) := (s[i], s[..i + 1]);
      if CtrlSkip(c) || (u.isSpace(c) && (out == "" || inWs)) then Collapsed(u, after, out, inWs)
      else if u.isSpace(c) then Collapsed(u, after, out + " ", true)
      else Collapsed(u, after, out + u.lower(c), false)
  {
    SpacedNonEmpty(u, s[..i]);
    OneMore(u, s, i);
    hide WellBehaved, CtrlSkip, Words, InWord, Spaced;
    var (ws, w) := (Words(u, s[..i]), u.lower(s[i]));
    SpacedGrow(ws, w);
    assert Spaced(ws) + "" == Spaced(ws);
    var next := Words(u, s[..i + 1]);
    if !CtrlSkip(s[i]) && !u.isSpace(s[i]) {
      assert Spaced(next) == out + w;
      assert (out + w) + "" == out + w;
    }
  }

  /** The hash of what the loop feeds in is the hash of the normal form: `sha` is any digest of
      the bytes received so far. */
  method ContentHash(u: Unicode, sha: string -> string, text: string, normalized: bool) returns (digest: string)
    requires WellBehaved(u)
    ensures digest == sha(if normalized then text else NormalForm(u, text))
  {
    if normalized {
      return sha(text);
    }
    if text == "" {
      return sha("");
    }
    var s := u.nfc(text);
    var fed, started, pendingWs := "", false, false;
    for i := 0 to |s|
      invariant fed == Spaced(Words(u, s[..i]))
      invariant started <==> Words(u, s[..i]) != []
      invariant pendingWs <==> started && !InWord(u, s[..i])
    {
      hide WellBehaved, CtrlSkip;
      OneMore(u, s, i);
      SpacedGrow(Words(u, s[..i]), u.lower(s[i]));
      if CtrlSkip(s[i]) {
        continue;
      }
      if u.isSpace(s[i]) {
        if started {
          pendingWs := true;
        }
        continue;
      }
      if pendingWs {
        fed, pendingWs := fed + " ", false;
      }
      started := true;
      fed := fed + u.lower(s[i]);
    }
    assert s[..|s|] == s;
    digest := sha(fed);
  }

  lemma OneMore(u: Unicode, s: string, i: nat)
    requires i < |s|
    ensures
      var (before, after, c) := (s[..i], s[..i + 1], s[i]);
      var ws := Words(u, before);
      if CtrlSkip(c) then Words(u, after) == ws && InWord(u, after) == InWord(u, before)
      else if u.isSpace(c) then Words(u, after) == ws && !InWord(u, after)
      else if InWord(u, before) then Words(u, after) == ws[|ws| - 1 := ws[|ws| - 1] + u.lower(c)] && InWord(u, after)
      else Words(u, after) == ws + [u.lower(c)] && InWord(u, after)
  {
    assert s[..i + 1][..i] == s[..i];
  }

  /** Where `c` stands makes no difference to the words. */
  ghost predicate Invisible(u: Unicode, c: char) {
    forall a, b :: Words(u, a + [c] + b) == Words(u, a + b)
  }

  lemma {:induction false} SkipOne(u: Unicode, a: string, c: char, b: string)
    requires CtrlSkip(c)
    ensures Words(u, a + [c] + b) == Words(u, a + b) && InWord(u, a + [c] + b) == InWord(u, a + b)
  {
    var s := a + [c] + b;
    if b == [] {
      assert s == a + [c] && s[..|s| - 1] == a && a + b == a;
    } else {
      SkipOne(u, a, c, b[..|b| - 1]);
      assert s[..|s| - 1] == a + [c] + b[..|b| - 1];
      assert (a + b)[..|a + b| - 1] == a + b[..|b| - 1];
    }
  }

  lemma WordsMore(u: Unicode, s: string, c: char)
    ensures InWord(u, s + [c]) == if CtrlSkip(c) then InWord(u, s) else !u.isSpace(c)
    ensures |Words(u, s + [c])| == |Words(u, s)| + if CtrlSkip(c) || u.isSpace(c) || InWord(u, s) then 0 else 1
  {
    assert (s + [c])[..|s|] == s;
  }

  /** White space that is not skipped keeps two letters apart. */
  lemma SpaceSeen(u: Unicode, l: char, c: char)
    requires !u.isSpace(l) && !CtrlSkip(l) && u.isSpace(c) && !CtrlSkip(c)
    ensures Words(u, [l] + [c] + [l]) != Words(u, [l] + [l])
  {
    WordsMore(u, [], l);
    assert [] + [l] == [l];
    hide Words, InWord, CtrlSkip;
    WordsMore(u, [l], c);
    WordsMore(u, [l] + [c], l);
    WordsMore(u, [l], l);
  }

  /** Anything else that is not skipped is part of a word. */
  lemma LetterSeen(u: Unicode, c: char)
    requires !u.isSpace(c) && !CtrlSkip(c)
    ensures Words(u, [] + [c] + []) != Words(u, [] + [])
  {
    WordsMore(u, [], c);
    assert [] + [c] + [] == [] + [c];
  }

  /** The characters that make no difference are exactly the control characters below the space, but
      for tab, newline and carriage return. */
  lemma InvisibleIff(u: Unicode, c: char)
    requires !u.isSpace('a')
    ensures Invisible(u, c) <==> (c as int < 32 && c !in {'\t', '\n', '\r'})
  {
    assert CtrlSkip(c) <==> c as int < 32 && c !in {'\t', '\n', '\r'};
    assert !CtrlSkip('a');
    hide Words, CtrlSkip;
    if CtrlSkip(c) {
      forall a, b ensures Words(u, a + [c] + b) == Words(u, a + b) {
        SkipOne(u, a, c, b);
      }
    } else if u.isSpace(c) {
      SpaceSeen(u, 'a', c);
    } else {
      LetterSeen(u, c);
    }
  }

  function Lead(front: seq<string>): string {
    if front == [] then "" else Spaced(front) + " "
  }

  lemma LeadIs(ws: seq<string>)
    requires ws != []
    ensures
      var front := ws[..|ws| - 1];
      && Spaced(ws) == Lead(front) + ws[|ws| - 1] && ws == front + [ws[|ws| - 1]]
      && (Lead(front) == "" <==> front == [])
      && (front != [] ==> Lead(front)[|Lead(front)| - 1] == ' ' && Spaced(front) == Lead(front)[..|Lead(front)| - 1])
  {
  }

  lemma TailUnique(u: Unicode, p: string, x: string, q: string, y: string)
    requires u.isSpace(' ') && Plain(u, x) && Plain(u, y) && p + x == q + y
    requires (p == "" || p[|p| - 1] == ' ') && (q == "" || q[|q| - 1] == ' ')
    ensures p == q && x == y
  {
    var s := p + x;
    TailLonger(u, p, x, q, y);
    TailLonger(u, q, y, p, x);
    hide Plain;
    assert s[|p|..] == x && s[|q|..] == y && s[..|p|] == p && s[..|q|] == q;
  }

  lemma TailLonger(u: Unicode, p: string, x: string, q: string, y: string)
    requires u.isSpace(' ') && Plain(u, x) && p + x == q + y && (q == "" || q[|q| - 1] == ' ')
    ensures |q| <= |p|
  {
    var s := p + x;
    forall i | |p| <= i < |s| ensures !u.isSpace(s[i]) {
      assert s[i] == x[i - |p|] && x[i - |p|] in x;
    }
    assert q != "" ==> s[|q| - 1] == q[|q| - 1];
    hide Plain;
  }

  /** Spaced words without white space can be read back: equal texts come from equal words. */
  lemma {:induction false} SpacedInjective(u: Unicode, a: seq<string>, b: seq<string>)
    requires u.isSpace(' ') && (forall w :: w in a ==> Plain(u, w)) && (forall w :: w in b ==> Plain(u, w))
    requires Spaced(a) == Spaced(b)
    ensures a == b
  {
    if a == [] || b == [] {
      SpacedEnds(u, a);
      SpacedEnds(u, b);
    } else {
      hide Spaced, Plain, Lead;
      var (fa, fb) := (a[..|a| - 1], b[..|b| - 1]);
      var (x, y) := (a[|a| - 1], b[|b| - 1]);
      assert x in a && y in b;
      LeadIs(a);
      LeadIs(b);
      TailUnique(u, Lead(fa), x, Lead(fb), y);
      SpacedInjective(u, fa, fb) by { SpacedNone(); }
    }
  }

  lemma SpacedNone()
    ensures Spaced([]) == ""
  {
  }

  function WordsOf(u: Unicode, text: string): seq<string> {
    if text == "" then [] else Words(u, u.nfc(text))
  }

  /** With a collision-free digest, two texts hash alike exactly when they have the same words; the
      empty text has none. */
  lemma SameHashIff(u: Unicode, sha: string -> string, a: string, b: string)
    requires WellBehaved(u) && forall x, y :: sha(x) == sha(y) ==> x == y
    ensures sha(NormalForm(u, a)) == sha(NormalForm(u, b)) <==> WordsOf(u, a) == WordsOf(u, b)
  {
    SpacedNone();
    if sha(NormalForm(u, a)) == sha(NormalForm(u, b)) {
      WordsPlain(u, u.nfc(a));
      WordsPlain(u, u.nfc(b));
      SpacedInjective(u, WordsOf(u, a), WordsOf(u, b));
    }
  }
}
