/** Exact duplicate verdicts over the persistent index, alone or sharded. */
module ExactDedup {
  import opened ExactIndex

  // ---- what a stream of digests should be told ----

  /** Each digest is a duplicate when it is known already; every digest asked becomes known. */
  function Verdicts(known: set<string>, stream: seq<string>): (r: seq<bool>)
    ensures |r| == |stream|
  {
    if stream == [] then []
    else
      var (front, d) := (stream[..|stream| - 1], stream[|stream| - 1]);
      Verdicts(known, front) + [d in known || d in front]
  }

  ghost function Asked(known: set<string>, stream: seq<string>): set<string> {
    known + set d | d in stream
  }

  /** The verdicts are "seen initially or earlier in the stream". */
  lemma {:induction false} VerdictIs(known: set<string>, stream: seq<string>, i: nat)
    requires i < |stream|
    ensures Verdicts(known, stream)[i] <==> stream[i] in known || stream[i] in stream[..i]
  {
    if i < |stream| - 1 {
      VerdictIs(known, stream[..|stream| - 1], i);
      assert stream[..|stream| - 1][..i] == stream[..i];
    }
  }

  /** Verdicts on a second stream depend on the first only through what it made known. */
  lemma {:induction false} VerdictsResume(known: set<string>, first: seq<string>, second: seq<string>)
    ensures Verdicts(known, first + second) == Verdicts(known, first) + Verdicts(Asked(known, first), second)
  {
    if second == [] {
      assert first + second == first;
    } else {
      var all := first + second;
      assert all[..|all| - 1] == first + second[..|second| - 1];
      VerdictsResume(known, first, second[..|second| - 1]);
    }
  }

  // ---- one deduplicator ----

  /** Look a digest up and, if it is absent, register it as new. */
  method AskOrRegister(index: PersistentHashIndex, digest: string, source: string)
      returns (found: bool, hashSource: string)
    requires index.Valid()
    modifies index, index.cache
    ensures index.Valid() && (found <==> digest in old(index.Contents()))
    ensures index.Contents().Keys == old(index.Contents().Keys) + {digest}
    ensures found ==> index.Contents() == old(index.Contents())
    ensures found && digest !in index.blurred ==> hashSource == index.Contents()[digest]
    ensures !found ==> index.Contents() == old(index.Contents())[digest := source]
    ensures index.blurred == old(index.blurred) && index.redundant == old(index.redundant)
    ensures index.duplicates == old(index.duplicates)
    ensures index.inserted == old(index.inserted) + if found then 0 else 1
  {
    hide InsertOrIgnore, PendingOk, CacheOk;
    found, hashSource := index.LookupHash(digest);
    if !found {
      var _ := index.RegisterHash(digest, source, true);
    }
  }

  class ExactHashDedup {
    const index: PersistentHashIndex?
    const hash: string -> string
    var seen: set<string>
    var duplicates: int
    var kept: int
    var skippedTrained: int
    ghost var calls: int
    /** The digests counted as skipped because they were trained or exported. */
    ghost var skipped: set<string>

    /** The objects this one may change; fixed at construction. */
    ghost const Repr: set<object?>

    ghost predicate Wired() {
      Repr == if index == null then {this} else {this, index, index.cache}
    }

    /** Every digest that will be called a duplicate. */
    ghost function Known(): set<string>
      requires Wired()
      reads Repr
    {
      if index == null then seen else index.Contents().Keys
    }

    ghost predicate Consistent()
      reads Repr
    {
      && Wired()
      && (index != null ==> index.Valid() && seen <= index.Contents().Keys)
      && skipped <= seen && |skipped| == skippedTrained
    }

    ghost predicate Valid()
      reads Repr
    {
      Consistent() && kept + duplicates == calls
    }

    constructor (index: PersistentHashIndex?, hash: string -> string)
      requires index != null ==> index.Valid()
      ensures Valid() && this.index == index && this.hash == hash
      ensures Known() == if index == null then {} else index.Contents().Keys
      ensures calls == kept == duplicates == skippedTrained == 0
    {
      this.index, this.hash := index, hash;
      Repr := if index == null then {this} else {this, index, index.cache};
      seen, skipped := {}, {};
      duplicates, kept, skippedTrained, calls := 0, 0, 0, 0;
    }

    /** A duplicate is a known digest; a new one becomes known, with its source. The digest is the one
        given, or the hash of the text if that is empty. A trained or exported digest is counted as
        skipped at most once. */
    method IsDuplicate(text: string, source: string, digest: string) returns (dup: bool)
      requires Valid()
      modifies Repr
      ensures Valid()
      ensures
        var d := if digest != "" then digest else hash(text);
        && (dup <==> d in old(Known())) && Known() == old(Known()) + {d}
        && (skipped == old(skipped) || (dup && skipped == old(skipped) + {d}))
        && (d in old(seen) ==> skipped == old(skipped) && skippedTrained == old(skippedTrained))
        && (dup && index != null && d !in old(seen) && d !in index.blurred ==>
             (skipped != old(skipped) <==> index.Contents()[d] in {"trained", "exported"}))
        && (index != null ==>
             index.Contents() == if dup then old(index.Contents()) else old(index.Contents())[d := source])
      ensures calls == old(calls) + 1
      ensures duplicates == old(duplicates) + (if dup then 1 else 0) && kept == old(kept) + (if dup then 0 else 1)
      ensures index != null ==>
        && index.blurred == old(index.blurred) && index.redundant == old(index.redundant)
        && index.duplicates == old(index.duplicates)
        && index.inserted == old(index.inserted) + if dup then 0 else 1
    {
      hide PersistentHashIndex.Contents, PersistentHashIndex.Valid;
      dup := Judge(if digest != "" then digest else hash(text), source);
      calls, duplicates, kept := calls + 1, duplicates + (if dup then 1 else 0), kept + (if dup then 0 else 1);
    }

    /** Memory first, then the index; a digest judged is in memory afterwards. */
    method Judge(d: string, source: string) returns (dup: bool)
      requires Consistent()
      modifies Repr
      ensures Consistent() && (dup <==> d in old(Known())) && Known() == old(Known()) + {d}
      ensures calls == old(calls) && duplicates == old(duplicates) && kept == old(kept)
      ensures skipped == old(skipped) || (dup && skipped == old(skipped) + {d})
      ensures d in old(seen) ==> skipped == old(skipped) && skippedTrained == old(skippedTrained)
      ensures dup && index != null && d !in old(seen) && d !in index.blurred ==>
        (skipped != old(skipped) <==> index.Contents()[d] in {"trained", "exported"})
      ensures index != null ==>
        && index.Contents() == (if dup then old(index.Contents()) else old(index.Contents())[d := source])
        && index.blurred == old(index.blurred) && index.redundant == old(index.redundant)
        && index.duplicates == old(index.duplicates)
        && index.inserted == old(index.inserted) + if dup then 0 else 1
    {
      hide PersistentHashIndex.Contents, PersistentHashIndex.Valid;
      if d in seen {
        assert Known() + {d} == Known();
        return true;
      }
      if index != null {
        dup := JudgeByIndex(index, d, source);
        return;
      }
      seen := seen + {d};
      return false;
    }

    method JudgeByIndex(index: PersistentHashIndex, d: string, source: string) returns (dup: bool)
      requires Consistent() && d !in seen && index == this.index
      modifies Repr
      ensures Consistent() && (dup <==> d in old(Known())) && Known() == old(Known()) + {d}
      ensures calls == old(calls) && duplicates == old(duplicates) && kept == old(kept)
      ensures skipped == old(skipped) || (dup && skipped == old(skipped) + {d})
      ensures dup && d !in index.blurred ==>
        (skipped != old(skipped) <==> index.Contents()[d] in {"trained", "exported"})
      ensures
        && index.Contents() == (if dup then old(index.Contents()) else old(index.Contents())[d := source])
        && index.blurred == old(index.blurred) && index.redundant == old(index.redundant)
        && index.duplicates == old(index.duplicates)
        && index.inserted == old(index.inserted) + if dup then 0 else 1
    {
      hide PersistentHashIndex.Contents, PersistentHashIndex.Valid;
      assert d !in skipped && |skipped + {d}| == |skipped| + 1;
      var hashSource;
      dup, hashSource := AskOrRegister(index, d, source);
      seen := seen + {d};
      if dup && hashSource in {"trained", "exported"} {
        skippedTrained, skipped := skippedTrained + 1, skipped + {d};
      }
    }

    /** Seeding makes the text known without asking about it. */
    method SeedText(text: string, source: string)
      requires Valid()
      modifies Repr
      ensures Valid() && Known() == old(Known()) + {hash(text)}
      ensures calls == old(calls) && skipped == old(skipped)
      ensures index != null ==>
        && index.Contents() == (if hash(text) in old(index.Contents()) then old(index.Contents())
                                else old(index.Contents())[hash(text) := source])
        && index.duplicates == old(index.duplicates) + (if hash(text) in old(index.Contents()) then 1 else 0)
        && index.blurred == old(index.blurred) && index.redundant == old(index.redundant)
    {
      hide PersistentHashIndex.Contents, PersistentHashIndex.Valid;
      var d := hash(text);
      if index != null {
        var _ := index.RegisterHash(d, source, false);
      } else {
        seen := seen + {d};
      }
    }

    method HasText(text: string) returns (found: bool)
      requires Valid()
      modifies Repr
      ensures Valid() && (found <==> hash(text) in Known())
      ensures Known() == old(Known()) && calls == old(calls) && skipped == old(skipped)
      ensures index != null ==>
        && index.Contents() == old(index.Contents())
        && index.duplicates == old(index.duplicates)
        && index.blurred == old(index.blurred) && index.redundant == old(index.redundant)
    {
      hide PersistentHashIndex.Contents, PersistentHashIndex.Valid;
      var d := hash(text);
      if index != null {
        var inIndex, _ := index.LookupHash(d);
        found := inIndex;
      } else {
        found := d in seen;
      }
    }

    method SeedTextIfMissing(text: string, source: string) returns (added: bool)
      requires Valid()
      modifies Repr
      ensures Valid() && Known() == old(Known()) + {hash(text)}
      ensures added <==> hash(text) !in old(Known())
      ensures calls == old(calls) && skipped == old(skipped)
      ensures index != null ==>
        && index.Contents() == (if hash(text) in old(index.Contents()) then old(index.Contents())
                                else old(index.Contents())[hash(text) := source])
        && index.duplicates == old(index.duplicates)
        && index.blurred == old(index.blurred) && index.redundant == old(index.redundant)
    {
      var found := HasText(text);
      if found {
        assert Known() + {hash(text)} == Known();
        return false;
      }
      SeedText(text, source);
      return true;
    }

    /** A stream of digests gets the verdicts "known initially or asked earlier". */
    method AskAll(digests: seq<string>, source: string) returns (verdicts: seq<bool>)
      requires Valid() && forall d :: d in digests ==> d != ""
      modifies Repr
      ensures Valid()
      ensures verdicts == Verdicts(old(Known()), digests) && Known() == Asked(old(Known()), digests)
      ensures calls == old(calls) + |digests|
    {
      hide PersistentHashIndex.Valid, PersistentHashIndex.Contents, Known;
      verdicts := [];
      ghost var known := Known();
      AnsweredNone(known);
      for i := 0 to |digests|
        invariant Valid() && calls == old(calls) + i
        invariant Answered(known, Known(), digests[..i], verdicts)
      {
        hide Answered;
        var d := digests[i];
        assert d in digests;
        assert digests[..i + 1] == digests[..i] + [d];
        AnsweredNext(known, Known(), digests[..i], verdicts, d);
        var dup := AskOne(d, source);
        verdicts := verdicts + [dup];
      }
      assert digests[..|digests|] == digests;
    }

    method AskOne(d: string, source: string) returns (dup: bool)
      requires Valid() && d != ""
      modifies Repr
      ensures Valid() && (dup <==> d in old(Known())) && Known() == old(Known()) + {d} && calls == old(calls) + 1
    {
      hide PersistentHashIndex.Valid, PersistentHashIndex.Contents, Known;
      dup := IsDuplicate("", source, d);
    }
  }

  /** A deduplicator that knew `start` has answered `stream` rightly and now knows `now`. */
  ghost predicate Answered(start: set<string>, now: set<string>, stream: seq<string>, verdicts: seq<bool>) {
    verdicts == Verdicts(start, stream) && now == Asked(start, stream)
  }

  lemma AnsweredNone(start: set<string>)
    ensures Answered(start, start, [], [])
  {
  }

  lemma AnsweredNext(start: set<string>, now: set<string>, stream: seq<string>, verdicts: seq<bool>, d: string)
    requires Answered(start, now, stream, verdicts)
    ensures Answered(start, now + {d}, stream + [d], verdicts + [d in now])
  {
    assert (stream + [d])[..|stream|] == stream;
  }
}
