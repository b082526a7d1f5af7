/** Protecting code fences behind placeholders and restoring them by whole-string replacement. */
module CodeFences {
  // ---- the fence pattern ----

  /** The first position at or after `from` where three backticks stand, or -1. */
  function Closing(s: string, from: nat): (r: int)
    ensures r == -1 || (from <= r && r + 3 <= |s| && s[r..r + 3] == "```")
    decreases |s| - from
  {
    if from + 3 > |s| then -1
    else if s[from..from + 3] == "```" then from
    else Closing(s, from + 1)
  }

  /** The end of an inline code span whose body runs on at `k`, or -1. */
  function InlineEnd(s: string, k: nat): (r: int)
    ensures r == -1 || k < r <= |s|
    decreases |s| - k
  {
    if k >= |s| || s[k] == '\n' then -1
    else if s[k] == '`' then k + 1
    else InlineEnd(s, k + 1)
  }

  /** Length of the match at the start of `s`, zero if there is none: a three-backtick block if
      it closes, otherwise an inline span with a non-empty one-line body. */
  function MatchLength(s: string): (n: nat)
    ensures n <= |s| && (n > 0 ==> s[0] == '`')
  {
    if s == "" || s[0] != '`' then 0
    else
      var close := if |s| >= 3 && s[..3] == "```" then Closing(s, 3) else -1;
      var inline := if |s| > 1 && s[1] != '`' then InlineEnd(s, 1) else -1;
      if close >= 0 then close + 3
      else if inline >= 0 then inline
      else 0
  }

  /** Text cut at its fences: a gap before, between and after them. */
  datatype Pieces = Pieces(gaps: seq<string>, fences: seq<string>)

  function Split(s: string): (p: Pieces)
    ensures |p.gaps| == |p.fences| + 1
  {
    if s == "" then Pieces([""], [])
    else
      var n := MatchLength(s);
      if n > 0 then
        var p := Split(s[n..]);
        Pieces([""] + p.gaps, [s[..n]] + p.fences)
      else
        var p := Split(s[1..]);
        Pieces([[s[0]] + p.gaps[0]] + p.gaps[1..], p.fences)
  }

  function Weave(gaps: seq<string>, fences: seq<string>): string
    requires |gaps| == |fences| + 1
  {
    if fences == [] then gaps[0] else gaps[0] + fences[0] + Weave(gaps[1..], fences[1..])
  }

  // ---- placeholders ----

  function Decimal(n: nat): (r: string)
    ensures |r| >= 1 && (|r| == 1 <==> n < 10)
    ensures forall c :: c in r ==> '0' <= c <= '9'
  {
    if n < 10 then ['0' + n as char] else Decimal(n / 10) + ['0' + (n % 10) as char]
  }

  function Body(i: nat): string {
    "FENCE" + Decimal(i)
  }

  function Key(i: nat): string {
    "\0" + Body(i) + "\0"
  }

  function Protected(gaps: seq<string>, from: nat): string
    requires gaps != []
  {
    if |gaps| == 1 then gaps[0] else gaps[0] + Key(from) + Protected(gaps[1..], from + 1)
  }

  function Stash(fences: seq<string>, from: nat): seq<(string, string)> {
    if fences == [] then [] else [(Key(from), fences[0])] + Stash(fences[1..], from + 1)
  }

  /** Replacement of every occurrence, scanning from the left without overlap. */
  function Replace(s: string, key: string, val: string): string
    requires key != ""
  {
    if |s| < |key| then s
    else if s[..|key|] == key then val + Replace(s[|key|..], key, val)
    else [s[0]] + Replace(s[1..], key, val)
  }

  function Restored(text: string, placeholders: seq<(string, string)>): string
    requires forall p :: p in placeholders ==> p.0 != ""
    decreases |placeholders|
  {
    if placeholders == [] then text
    else Restored(Replace(text, placeholders[0].0, placeholders[0].1), placeholders[1..])
  }

  method ProtectCodeFences(text: string) returns (out: string, placeholders: seq<(string, string)>)
    ensures out == Protected(Split(text).gaps, 0)
    ensures placeholders == Stash(Split(text).fences, 0)
  {
    hide Split, Key, MatchLength, Protected, Stash, ProtectedUpTo;
    out, placeholders := "", [];
    var idx: nat, pos: nat := 0, 0;
    UpToStart(text);
    while pos < |text|
      invariant pos <= |text| && ProtectedUpTo(text, pos, idx, out, placeholders)
    {
      var rest := text[pos..];
      var n := MatchLength(rest);
      if n > 0 {
        UpToFence(text, pos, idx, out, placeholders);
        out, placeholders := out + Key(idx), placeholders + [(Key(idx), rest[..n])];
        idx, pos := idx + 1, pos + n;
      } else {
        UpToChar(text, pos, idx, out, placeholders);
        out, pos := out + [rest[0]], pos + 1;
      }
    }
    UpToEnd(text, pos, idx, out, placeholders);
  }

  lemma UpToStart(text: string)
    ensures ProtectedUpTo(text, 0, 0, "", [])
  {
    hide Split, Protected, Stash;
    assert text[0..] == text;
  }

  lemma UpToEnd(text: string, pos: nat, idx: nat, out: string, placeholders: seq<(string, string)>)
    requires pos == |text| && ProtectedUpTo(text, pos, idx, out, placeholders)
    ensures out == Protected(Split(text).gaps, 0) && placeholders == Stash(Split(text).fences, 0)
  {
    assert text[pos..] == "";
    SplitEnds(idx);
    hide Split, Protected, Stash;
  }

  /** The text before `pos` has been written out with its fences stashed. */
  ghost predicate ProtectedUpTo(text: string, pos: nat, idx: nat, out: string, placeholders: seq<(string, string)>)
    requires pos <= |text|
  {
    && out + Protected(Split(text[pos..]).gaps, idx) == Protected(Split(text).gaps, 0)
    && placeholders + Stash(Split(text[pos..]).fences, idx) == Stash(Split(text).fences, 0)
  }

  lemma UpToFence(text: string, pos: nat, idx: nat, out: string, placeholders: seq<(string, string)>)
    requires pos < |text| && ProtectedUpTo(text, pos, idx, out, placeholders)
    requires MatchLength(text[pos..]) > 0
    ensures
      var n := MatchLength(text[pos..]);
      ProtectedUpTo(text, pos + n, idx + 1, out + Key(idx), placeholders + [(Key(idx), text[pos..][..n])])
  {
    hide Split, Protected, Stash, Key, MatchLength;
    var rest := text[pos..];
    FenceStep(rest, idx);
    assert rest[MatchLength(rest)..] == text[pos + MatchLength(rest)..];
  }

  lemma UpToChar(text: string, pos: nat, idx: nat, out: string, placeholders: seq<(string, string)>)
    requires pos < |text| && ProtectedUpTo(text, pos, idx, out, placeholders)
    requires MatchLength(text[pos..]) == 0
    ensures ProtectedUpTo(text, pos + 1, idx, out + [text[pos..][0]], placeholders)
  {
    hide Split, Protected, Stash, Key, MatchLength;
    var rest := text[pos..];
    CharStep(rest, idx);
    assert rest[1..] == text[pos + 1..];
  }

  lemma SplitEnds(idx: nat)
    ensures Protected(Split("").gaps, idx) == "" && Stash(Split("").fences, idx) == []
  {
  }

  lemma FenceStep(rest: string, idx: nat)
    requires MatchLength(rest) > 0
    ensures
      var n := MatchLength(rest);
      var (p, q) := (Split(rest), Split(rest[n..]));
      && Protected(p.gaps, idx) == Key(idx) + Protected(q.gaps, idx + 1)
      && Stash(p.fences, idx) == [(Key(idx), rest[..n])] + Stash(q.fences, idx + 1)
  {
    hide MatchLength, Key;
    var n := MatchLength(rest);
    var (p, q) := (Split(rest), Split(rest[n..]));
    assert p.gaps == [""] + q.gaps && p.fences == [rest[..n]] + q.fences;
    assert p.gaps[1..] == q.gaps && p.fences[1..] == q.fences;
    assert "" + Key(idx) == Key(idx);
  }

  lemma CharStep(rest: string, idx: nat)
    requires rest != "" && MatchLength(rest) == 0
    ensures
      var (p, q) := (Split(rest), Split(rest[1..]));
      Protected(p.gaps, idx) == [rest[0]] + Protected(q.gaps, idx) && p.fences == q.fences
  {
    hide MatchLength, Key, Stash;
    var (p, q) := (Split(rest), Split(rest[1..]));
    assert p.gaps[0] == [rest[0]] + q.gaps[0] && p.gaps[1..] == q.gaps[1..];
    if q.fences != [] {
      assert [rest[0]] + q.gaps[0] + Key(idx) + Protected(q.gaps[1..], idx + 1) ==
             [rest[0]] + (q.gaps[0] + Key(idx) + Protected(q.gaps[1..], idx + 1));
    }
  }

  method RestoreCodeFences(text: string, placeholders: seq<(string, string)>) returns (out: string)
    requires forall p :: p in placeholders ==> p.0 != ""
    ensures out == Restored(text, placeholders)
  {
    out := text;
    for i := 0 to |placeholders|
      invariant Restored(out, placeholders[i..]) == Restored(text, placeholders)
    {
      assert placeholders[i..][1..] == placeholders[i + 1..];
      out := Replace(out, placeholders[i].0, placeholders[i].1);
    }
  }

  // ---- the text as segments between NUL characters ----

  predicate NulFree(s: string) {
    '\0' !in s
  }

  function Join(segs: seq<string>): string
    requires segs != []
  {
    if |segs| == 1 then segs[0] else segs[0] + "\0" + Join(segs[1..])
  }

  function Segments(gaps: seq<string>, from: nat): (r: seq<string>)
    requires gaps != []
    ensures r != []
  {
    if |gaps| == 1 then [gaps[0]] else [gaps[0], Body(from)] + Segments(gaps[1..], from + 1)
  }

  /** Replacement seen on segments: a segment equal to the key body, with a NUL on either side,
      gives way to the value and its neighbours close up. */
  function ReplaceSegments(segs: seq<string>, body: string, val: string): (r: seq<string>)
    requires segs != []
    ensures r != []
  {
    if |segs| < 3 then segs
    else if segs[1] == body then
      var r := ReplaceSegments(segs[2..], body, val);
      [segs[0] + val + r[0]] + r[1..]
    else [segs[0]] + ReplaceSegments(segs[1..], body, val)
  }

  lemma ReplaceStep(s: string, key: string, val: string)
    requires s != "" && key != "" && s[0] != key[0]
    ensures Replace(s, key, val) == [s[0]] + Replace(s[1..], key, val)
  {
    if |s| >= |key| {
      assert s[..|key|][0] != key[0];
    }
  }

  lemma {:induction false} SkipPlain(a: string, rest: string, key: string, val: string)
    requires NulFree(a) && key != "" && key[0] == '\0'
    ensures Replace(a + rest, key, val) == a + Replace(rest, key, val)
  {
    hide Replace;
    if a == "" {
      assert a + rest == rest;
    } else {
      assert a[0] in a && (a + rest)[0] == a[0] && (a + rest)[1..] == a[1..] + rest;
      SkipPlain(a[1..], rest, key, val);
      ReplaceStep(a + rest, key, val);
      assert a == [a[0]] + a[1..];
    }
  }

  /** Two NUL-free strings followed by NUL agree exactly when the longer text starts with the
      shorter one and its NUL. */
  lemma {:induction false} StartsWithIff(seg: string, rest: string, body: string)
    requires NulFree(seg) && NulFree(body)
    ensures body + "\0" <= seg + "\0" + rest <==> seg == body
  {
    var s := seg + "\0" + rest;
    if seg != "" && body != "" {
      assert s[0] == seg[0] && seg[0] in seg && body[0] in body;
      assert s[1..] == seg[1..] + "\0" + rest && (body + "\0")[1..] == body[1..] + "\0";
      StartsWithIff(seg[1..], rest, body[1..]);
      assert seg == [seg[0]] + seg[1..] && body == [body[0]] + body[1..];
      assert (body + "\0") == [body[0]] + (body[1..] + "\0") && s == [seg[0]] + s[1..];
    } else if seg == "" && body != "" {
      assert s[0] == '\0' && (body + "\0")[0] == body[0] && body[0] in body;
    } else if seg != "" {
      assert s[0] == seg[0] && seg[0] in seg;
    }
  }

  predicate AllNulFree(segs: seq<string>) {
    forall s :: s in segs ==> NulFree(s)
  }

  /** One step of the scan standing on a NUL. */
  lemma ReplaceAtNul(tail: string, body: string, val: string)
    ensures
      var key := "\0" + body + "\0";
      Replace("\0" + tail, key, val) ==
        if body + "\0" <= tail then val + Replace(tail[|body| + 1..], key, val)
        else "\0" + Replace(tail, key, val)
  {
    var key := "\0" + body + "\0";
    var s := "\0" + tail;
    assert key == "\0" + (body + "\0");
    assert s[1..] == tail;
    if |s| >= |key| {
      assert s[..|key|] == "\0" + tail[..|body| + 1];
      assert s[..|key|] == key <==> tail[..|body| + 1] == body + "\0";
      assert s[|key|..] == tail[|body| + 1..];
    }
  }

  lemma ReplaceSegment(seg: string, tail: string, body: string, val: string)
    requires NulFree(seg)
    ensures
      var key := "\0" + body + "\0";
      Replace(seg + "\0" + tail, key, val) ==
        if body + "\0" <= tail then seg + val + Replace(tail[|body| + 1..], key, val)
        else seg + "\0" + Replace(tail, key, val)
  {
    hide Replace, NulFree;
    var key := "\0" + body + "\0";
    assert seg + "\0" + tail == seg + ("\0" + tail);
    SkipPlain(seg, "\0" + tail, key, val);
    ReplaceAtNul(tail, body, val);
  }

  /** After a NUL the body of the key and its NUL follow exactly when they are a whole segment. */
  lemma KeyAhead(segs: seq<string>, body: string)
    requires |segs| >= 2 && AllNulFree(segs) && NulFree(body)
    ensures
      var tail := Join(segs[1..]);
      && (body + "\0" <= tail <==> |segs| >= 3 && segs[1] == body)
      && (body + "\0" <= tail ==> |segs| >= 3 && tail[|body| + 1..] == Join(segs[2..]))
  {
    if |segs| == 2 {
      PlainHasNoKey(segs[1], body);
    } else {
      assert segs[1..][1..] == segs[2..];
      StartsWithIff(segs[1], Join(segs[2..]), body);
    }
    hide NulFree;
  }

  lemma JoinFront(x: string, r: seq<string>)
    requires r != []
    ensures Join([x + r[0]] + r[1..]) == x + Join(r)
  {
    assert ([x + r[0]] + r[1..])[1..] == r[1..];
  }

  /** Whole-string replacement of a NUL-delimited key is replacement on segments. */
  lemma {:induction false} ReplaceJoin(segs: seq<string>, body: string, val: string)
    requires segs != [] && AllNulFree(segs) && NulFree(body)
    ensures Replace(Join(segs), "\0" + body + "\0", val) == Join(ReplaceSegments(segs, body, val))
  {
    hide Replace, NulFree;
    var key := "\0" + body + "\0";
    if |segs| == 1 {
      SkipPlain(segs[0], "", key, val);
      ReplaceEmpty(key, val);
      assert segs[0] + "" == segs[0];
    } else {
      assert AllNulFree(segs[1..]);
      ReplaceSegment(segs[0], Join(segs[1..]), body, val);
      KeyAhead(segs, body);
      ReplaceJoin(segs[1..], body, val);
      if |segs| >= 3 && segs[1] == body {
        assert AllNulFree(segs[2..]);
        ReplaceJoin(segs[2..], body, val);
        JoinFront(segs[0] + val, ReplaceSegments(segs[2..], body, val));
      } else if |segs| >= 3 {
        JoinMore(segs[0], ReplaceSegments(segs[1..], body, val));
      }
    }
  }

  lemma JoinMore(x: string, r: seq<string>)
    requires r != []
    ensures Join([x] + r) == x + "\0" + Join(r)
  {
  }

  lemma PlainHasNoKey(s: string, body: string)
    requires NulFree(s)
    ensures !(body + "\0" <= s)
  {
    if |body| < |s| {
      assert s[|body|] in s;
    }
  }

  lemma ReplaceEmpty(key: string, val: string)
    requires key != ""
    ensures Replace("", key, val) == ""
  {
  }
}
