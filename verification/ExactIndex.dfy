/** The persistent hash index: a write-behind buffer and a lookup cache over a database, together
    one map from digest to source. */
module ExactIndex {
  import opened Lru

  /** Insert-or-ignore, row by row: the first source of a digest stays. */
  function InsertOrIgnore(db: map<string, string>, rows: seq<(string, string)>): map<string, string> {
    if rows == [] then db
    else
      var before := InsertOrIgnore(db, rows[..|rows| - 1]);
      var (digest, source) := rows[|rows| - 1];
      if digest in before then before else before[digest := source]
  }

  lemma {:induction false} InsertOrIgnoreKeys(db: map<string, string>, rows: seq<(string, string)>)
    ensures forall d :: d in InsertOrIgnore(db, rows) <==> d in db || exists r :: r in rows && r.0 == d
    ensures forall d :: d in db ==> d in InsertOrIgnore(db, rows) && InsertOrIgnore(db, rows)[d] == db[d]
  {
    if rows != [] {
      InsertOrIgnoreKeys(db, rows[..|rows| - 1]);
      assert rows == rows[..|rows| - 1] + [rows[|rows| - 1]];
    }
  }

  /** A right answer on a digest: membership is exact, and so is the source unless the digest was
      staged as new while present. */
  ghost predicate Right(contents: map<string, string>, blurred: set<string>, digest: string, answer: (bool, string)) {
    && (answer.0 <==> digest in contents)
    && (answer.0 && digest !in blurred ==> answer.1 == contents[digest])
    && (!answer.0 ==> answer.1 == "")
  }

  ghost predicate CacheOk(contents: map<string, string>, blurred: set<string>, entries: map<string, (bool, string)>) {
    forall d :: d in entries ==> Right(contents, blurred, d, entries[d])
  }

  ghost predicate PendingOk(
    contents: map<string, string>, blurred: set<string>,
    pending: seq<(string, string)>, hashes: set<string>, byDigest: map<string, string>)
  {
    && byDigest.Keys == hashes
    && (forall d :: d in hashes <==> exists r :: r in pending && r.0 == d)
    && (forall d :: d in byDigest ==> Right(contents, blurred, d, (true, byDigest[d])))
  }

  function Staged(contents: map<string, string>, digest: string, source: string): map<string, string> {
    if digest in contents then contents else contents[digest := source]
  }

  /** The digests staged as new while present, and how often that happened, after one more. */
  function Blurred(contents: map<string, string>, blurred: set<string>, digest: string): set<string> {
    if digest in contents then blurred + {digest} else blurred
  }

  function Redundant(contents: map<string, string>, redundant: nat, digest: string): nat {
    if digest in contents then redundant + 1 else redundant
  }

  /** Staging a digest keeps every other answer right and makes the new one right. */
  lemma StagedRight(contents: map<string, string>, blurred: set<string>, digest: string, source: string, d: string,
      a: (bool, string))
    requires Right(contents, blurred, d, a) || (d == digest && a == (true, source))
    requires d == digest ==> a == (true, source)
    ensures Right(Staged(contents, digest, source), Blurred(contents, blurred, digest), d, a)
  {
  }

  lemma StagedPending(
      contents: map<string, string>, blurred: set<string>, pending: seq<(string, string)>,
      hashes: set<string>, byDigest: map<string, string>, digest: string, source: string)
    requires PendingOk(contents, blurred, pending, hashes, byDigest)
    ensures PendingOk(
      Staged(contents, digest, source), Blurred(contents, blurred, digest),
      pending + [(digest, source)], hashes + {digest}, byDigest[digest := source])
  {
    hide Right, Staged, Blurred;
    var rows := pending + [(digest, source)];
    assert rows[|pending|] == (digest, source);
    var after := byDigest[digest := source];
    forall d | d in after
      ensures Right(Staged(contents, digest, source), Blurred(contents, blurred, digest), d, (true, after[d]))
    {
      StagedRight(contents, blurred, digest, source, d, (true, after[d]));
    }
    forall d
      ensures d in hashes + {digest} <==> exists r :: r in rows && r.0 == d
    {
      if r :| r in pending && r.0 == d {
        assert r in rows;
      }
    }
  }

  /** Whatever the policy drops, storing a staged digest leaves only right answers. */
  lemma StagedCache(
      contents: map<string, string>, blurred: set<string>, before: map<string, (bool, string)>,
      after: map<string, (bool, string)>, digest: string, source: string)
    requires CacheOk(contents, blurred, before)
    requires forall x :: x in after ==>
      x in before[digest := (true, source)] && after[x] == before[digest := (true, source)][x]
    ensures CacheOk(Staged(contents, digest, source), Blurred(contents, blurred, digest), after)
  {
    hide Right, Staged, Blurred;
    forall d | d in after
      ensures Right(Staged(contents, digest, source), Blurred(contents, blurred, digest), d, after[d])
    {
      StagedRight(contents, blurred, digest, source, d, after[d]);
    }
  }

  lemma StageContents(db: map<string, string>, pending: seq<(string, string)>, digest: string, source: string)
    ensures InsertOrIgnore(db, pending + [(digest, source)]) == Staged(InsertOrIgnore(db, pending), digest, source)
  {
    assert (pending + [(digest, source)])[..|pending|] == pending;
  }

  /** `size` is what was there first and all insertions since. */
  ghost predicate Accounted(contents: map<string, string>, blurred: set<string>, redundant: nat, size: int) {
    blurred <= contents.Keys && |contents| + redundant == size && (blurred == {} <==> redundant == 0)
  }

  lemma StagedAccounted(
      contents: map<string, string>, blurred: set<string>, redundant: nat, size: int, digest: string, source: string)
    requires Accounted(contents, blurred, redundant, size)
    ensures Accounted(
      Staged(contents, digest, source), Blurred(contents, blurred, digest),
      Redundant(contents, redundant, digest), size + 1)
  {
    var now := Staged(contents, digest, source);
    assert now.Keys == contents.Keys + {digest};
    assert |now| == |contents| + if digest in contents then 0 else 1;
  }

  /** The buffer and the cache tell the truth about the contents, and the insertions add up. */
  ghost predicate Sound(
      contents: map<string, string>, blurred: set<string>, redundant: nat, size: int, pending: seq<(string, string)>,
      hashes: set<string>, byDigest: map<string, string>, entries: map<string, (bool, string)>)
  {
    && PendingOk(contents, blurred, pending, hashes, byDigest)
    && CacheOk(contents, blurred, entries) && Accounted(contents, blurred, redundant, size)
  }

  lemma StagedSound(
      contents: map<string, string>, blurred: set<string>, redundant: nat, size: int, pending: seq<(string, string)>,
      hashes: set<string>, byDigest: map<string, string>, before: map<string, (bool, string)>,
      after: map<string, (bool, string)>, digest: string, source: string)
    requires Sound(contents, blurred, redundant, size, pending, hashes, byDigest, before)
    requires forall x :: x in after ==>
      x in before[digest := (true, source)] && after[x] == before[digest := (true, source)][x]
    ensures Sound(
      Staged(contents, digest, source), Blurred(contents, blurred, digest), Redundant(contents, redundant, digest),
      size + 1, pending + [(digest, source)], hashes + {digest}, byDigest[digest := source], after)
  {
    hide PendingOk, CacheOk, Accounted, Staged, Blurred, Redundant;
    StagedPending(contents, blurred, pending, hashes, byDigest, digest, source);
    StagedCache(contents, blurred, before, after, digest, source);
    StagedAccounted(contents, blurred, redundant, size, digest, source);
  }

  /** A digest not in the buffer is answered by the database. */
  lemma NotPending(db: map<string, string>, pending: seq<(string, string)>, hashes: set<string>, blurred: set<string>,
      digest: string)
    requires forall d :: d in hashes <==> exists r :: r in pending && r.0 == d
    requires digest !in hashes
    ensures Right(InsertOrIgnore(db, pending), blurred, digest, (digest in db, if digest in db then db[digest] else ""))
  {
    InsertOrIgnoreKeys(db, pending);
  }

  lemma NoRows()
    ensures forall db :: InsertOrIgnore(db, []) == db
  {
  }

  method InsertRows(db: map<string, string>, rows: seq<(string, string)>) returns (written: map<string, string>)
    ensures written == InsertOrIgnore(db, rows)
  {
    written := db;
    for i := 0 to |rows|
      invariant written == InsertOrIgnore(db, rows[..i])
    {
      assert rows[..i + 1][..i] == rows[..i];
      if rows[i].0 !in written {
        written := written[rows[i].0 := rows[i].1];
      }
    }
    assert rows[..|rows|] == rows;
  }

  class PersistentHashIndex {
    const batchSize: int
    const cache: BoundedLru<string, (bool, string)>
    var db: map<string, string>
    var pending: seq<(string, string)>
    var pendingHashes: set<string>
    var pendingByDigest: map<string, string>
    var inserted: int
    var duplicates: int
    var lookups: int
    var cacheHits: int
    ghost const base: nat
    /** Digests staged as new although they were present, and how often that happened. */
    ghost var blurred: set<string>
    ghost var redundant: nat

    /** What the three layers stand for: the database once the buffer is written. */
    ghost function Contents(): map<string, string>
      reads this
    {
      InsertOrIgnore(db, pending)
    }

    ghost predicate Valid()
      reads this, cache
    {
      Sound(Contents(), blurred, redundant, base + inserted, pending, pendingHashes, pendingByDigest, cache.entries)
    }

    constructor (db: map<string, string>, batchSize: int, policy: (nat, map<string, (bool, string)>) -> set<string>)
      ensures Valid() && Contents() == db && base == |db|
      ensures blurred == {} && redundant == 0 && inserted == duplicates == lookups == cacheHits == 0
      ensures fresh(cache) && this.batchSize == batchSize
    {
      this.db, this.batchSize := db, batchSize;
      cache := new BoundedLru(policy);
      pending, pendingHashes, pendingByDigest := [], {}, map[];
      inserted, duplicates, lookups, cacheHits := 0, 0, 0, 0;
      base, blurred, redundant := |db|, {}, 0;
    }

    /** Writing the buffer out changes nothing the index stands for. */
    method Flush()
      requires Valid()
      modifies this`db, this`pending, this`pendingHashes, this`pendingByDigest
      ensures Valid() && Contents() == old(Contents())
      ensures pending == [] && db == Contents()
    {
      NoRows();
      hide InsertOrIgnore, Right;
      if pending == [] {
        return;
      }
      db := InsertRows(db, pending);
      pending, pendingHashes, pendingByDigest := [], {}, map[];
    }

    method LookupHash(digest: string) returns (found: bool, source: string)
      requires Valid()
      modifies this`lookups, this`cacheHits, cache
      ensures Valid() && Contents() == old(Contents())
      ensures Right(Contents(), blurred, digest, (found, source))
      ensures lookups == old(lookups) + 1
      ensures cacheHits ==
        old(cacheHits) + if digest in pendingByDigest || digest in old(cache.entries) then 1 else 0
      ensures cache.KeepsAll() ==> digest in pendingByDigest || digest in cache.entries
    {
      hide InsertOrIgnore, Right;
      lookups := lookups + 1;
      if digest in pendingByDigest {
        cacheHits := cacheHits + 1;
        return true, pendingByDigest[digest];
      }
      var cached := cache.Get(digest);
      if cached.Some? {
        cacheHits := cacheHits + 1;
        return cached.value.0, cached.value.1;
      }
      NotPending(db, pending, pendingHashes, blurred, digest);
      found, source := digest in db, if digest in db then db[digest] else "";
      cache.Put(digest, (found, source));
    }

    /** Into the buffer and the cache. */
    method Buffer(digest: string, source: string)
      requires Valid()
      modifies this, cache
      ensures Valid()
      ensures Contents() == Staged(old(Contents()), digest, source)
      ensures redundant == Redundant(old(Contents()), old(redundant), digest)
      ensures blurred == Blurred(old(Contents()), old(blurred), digest)
      ensures inserted == old(inserted) + 1
      ensures duplicates == old(duplicates) && lookups == old(lookups) && cacheHits == old(cacheHits)
      ensures pending == old(pending) + [(digest, source)] && db == old(db)
    {
      hide InsertOrIgnore, Sound, Staged, Blurred, Redundant;
      ghost var (was, b, r, size) := (Contents(), blurred, redundant, base + inserted);
      ghost var (rows, hashes, byDigest, before) := (pending, pendingHashes, pendingByDigest, cache.entries);
      StageContents(db, pending, digest, source);
      redundant, blurred := Redundant(was, redundant, digest), Blurred(was, blurred, digest);
      pending := pending + [(digest, source)];
      pendingHashes := pendingHashes + {digest};
      pendingByDigest := pendingByDigest[digest := source];
      cache.Put(digest, (true, source));
      StagedSound(was, b, r, size, rows, hashes, byDigest, before, cache.entries, digest, source);
      inserted := inserted + 1;
    }

    /** Staging a digest adds it to what the index stands for; staging a present one adds nothing
        but counts as an insertion. */
    method StageHash(digest: string, source: string)
      requires Valid()
      modifies this, cache
      ensures Valid()
      ensures Contents() == Staged(old(Contents()), digest, source)
      ensures redundant == Redundant(old(Contents()), old(redundant), digest)
      ensures blurred == Blurred(old(Contents()), old(blurred), digest)
      ensures inserted == old(inserted) + 1
      ensures duplicates == old(duplicates) && lookups == old(lookups) && cacheHits == old(cacheHits)
      ensures pending == if |old(pending)| + 1 < batchSize then old(pending) + [(digest, source)] else []
      ensures db == if pending == [] then Contents() else old(db)
    {
      hide InsertOrIgnore, PendingOk, CacheOk, Staged, Accounted, Blurred, Redundant;
      Buffer(digest, source);
      if |pending| >= batchSize {
        Flush();
      }
    }

    method IsDuplicate(digest: string, source: string) returns (dup: bool)
      requires Valid()
      modifies this, cache
      ensures Valid() && (dup <==> digest in old(Contents()))
      ensures Contents() == Staged(old(Contents()), digest, source)
      ensures redundant == old(redundant) && blurred == old(blurred)
      ensures inserted == old(inserted) + if dup then 0 else 1
      ensures duplicates == old(duplicates) + if dup then 1 else 0
    {
      var found, _ := LookupHash(digest);
      if found {
        duplicates := duplicates + 1;
        return true;
      }
      StageHash(digest, source);
      return false;
    }

    /** With `assumeNew` the index is told the digest is absent and does not look. */
    method RegisterHash(digest: string, source: string, assumeNew: bool) returns (added: bool)
      requires Valid()
      modifies this, cache
      ensures Valid() && (added <==> assumeNew || digest !in old(Contents()))
      ensures Contents() == Staged(old(Contents()), digest, source)
      ensures redundant == old(redundant) + if assumeNew && digest in old(Contents()) then 1 else 0
      ensures blurred == old(blurred) + if assumeNew && digest in old(Contents()) then {digest} else {}
      ensures inserted == old(inserted) + if added then 1 else 0
      ensures duplicates == old(duplicates) + if added then 0 else 1
      ensures assumeNew ==> lookups == old(lookups) && cacheHits == old(cacheHits)
    {
      if !assumeNew {
        var found, _ := LookupHash(digest);
        if found {
          duplicates := duplicates + 1;
          return false;
        }
      }
      StageHash(digest, source);
      return true;
    }

    /** The count is the initial size plus the insertions exactly when no present digest was ever
        staged as new; otherwise it falls short by the number of times that happened. */
    method Count() returns (n: nat)
      requires Valid()
      modifies this`db, this`pending, this`pendingHashes, this`pendingByDigest
      ensures Valid() && Contents() == old(Contents())
      ensures n == |Contents()| == base + inserted - redundant
      ensures n == base + inserted <==> blurred == {}
    {
      Flush();
      n := |db|;
    }
  }
}
