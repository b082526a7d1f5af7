/** The exact deduplicator split over shards by digest prefix. */
module ShardedDedup {
  import opened ExactIndex
  import opened ExactDedup

  // ---- where a digest lives ----

  function HexDigit(c: char): (r: int)
    ensures r == -1 || 0 <= r < 16
  {
    if '0' <= c <= '9' then c as int - '0' as int
    else if 'a' <= c <= 'f' then c as int - 'a' as int + 10
    else if 'A' <= c <= 'F' then c as int - 'A' as int + 10
    else -1
  }

  /** Sixteen digits, in either case, with their values; nothing else is one. */
  lemma HexDigitIs(c: char, v: nat)
    requires v < 16
    ensures HexDigit(c) == v <==> c == "0123456789abcdef"[v] || c == "0123456789ABCDEF"[v]
  {
  }

  predicate IsHex(digest: string) {
    digest != "" && forall c :: c in digest ==> HexDigit(c) >= 0
  }

  /** The first two hexadecimal digits, or the only one, modulo the number of shards. */
  function ShardOf(shards: nat, digest: string): (i: nat)
    requires shards >= 1 && IsHex(digest)
    ensures i < shards
  {
    if shards == 1 then 0
    else if |digest| >= 2 then (HexDigit(digest[0]) * 16 + HexDigit(digest[1])) % shards
    else HexDigit(digest[0]) % shards
  }

  // ---- shards as sets ----

  ghost predicate AllHex(shards: seq<set<string>>) {
    forall i, d :: 0 <= i < |shards| && d in shards[i] ==> IsHex(d)
  }

  /** Every digest lives in its own shard and nowhere else. */
  ghost predicate Placed(shards: seq<set<string>>) {
    AllHex(shards) && forall i, d :: 0 <= i < |shards| && d in shards[i] ==> i == ShardOf(|shards|, d)
  }

  ghost function Union(shards: seq<set<string>>): set<string> {
    set i, d | 0 <= i < |shards| && d in shards[i] :: d
  }

  ghost function Ask(shards: seq<set<string>>, digest: string): seq<set<string>>
    requires shards != [] && IsHex(digest)
  {
    var i := ShardOf(|shards|, digest);
    shards[i := shards[i] + {digest}]
  }

  ghost predicate SaysDuplicate(shards: seq<set<string>>, digest: string)
    requires shards != [] && IsHex(digest)
  {
    digest in shards[ShardOf(|shards|, digest)]
  }

  /** The shards that are opened under another count: files past it stay shut, new ones are empty. */
  ghost function Reopened(shards: seq<set<string>>, count: nat): (r: seq<set<string>>)
    ensures |r| == count
  {
    seq(count, i requires 0 <= i < count => if i < |shards| then shards[i] else {})
  }

  /** Shards filled under one count and opened under another: the verdicts are the unsharded ones on
      every digest exactly when each stored digest has the same shard under both. */
  lemma AgreesIff(shards: seq<set<string>>, count: nat)
    requires shards != [] && Placed(shards) && count >= 1
    ensures (forall d :: IsHex(d) ==> (SaysDuplicate(Reopened(shards, count), d) <==> d in Union(shards)))
      <==> (forall d :: d in Union(shards) ==> IsHex(d) && ShardOf(count, d) == ShardOf(|shards|, d))
  {
    hide ShardOf, IsHex;
    forall d | IsHex(d)
      ensures SaysDuplicate(Reopened(shards, count), d) <==>
              d in Union(shards) && ShardOf(count, d) == ShardOf(|shards|, d)
    {
      var i := ShardOf(count, d);
      assert d in Union(shards) ==> d in shards[ShardOf(|shards|, d)];
    }
    assert forall d :: d in Union(shards) ==> IsHex(d);
  }

  const DIGITS: string := "0123456789abcdef"

  /** The two digits that stand for a byte. */
  function Byte(v: nat): (d: string)
    requires v < 256
  {
    [DIGITS[v / 16], DIGITS[v % 16]]
  }

  lemma ByteIs(v: nat)
    requires v < 256
    ensures IsHex(Byte(v)) && HexDigit(Byte(v)[0]) * 16 + HexDigit(Byte(v)[1]) == v
  {
    assert forall k: nat :: k < 16 ==> HexDigit(DIGITS[k]) == k;
    assert Byte(v)[0] == DIGITS[v / 16] && Byte(v)[1] == DIGITS[v % 16];
  }

  /** Two counts put every digest in the same shard exactly when they are equal, or both too large
      for a byte to reach: any other change of the count misplaces some digest. */
  lemma SameShardsIff(m: nat, n: nat)
    requires 1 <= m <= n
    ensures (forall d :: IsHex(d) ==> ShardOf(m, d) == ShardOf(n, d)) <==> m == n || m >= 256
  {
    if m < n && m < 256 {
      ByteMoves(m, n);
    }
    if m >= 256 {
      forall d | IsHex(d) ensures ShardOf(m, d) == ShardOf(n, d) {
        LargeCount(m, d);
        LargeCount(n, d);
      }
    }
    hide ShardOf, IsHex;
  }

  lemma ByteMoves(m: nat, n: nat)
    requires 1 <= m < n && m < 256
    ensures IsHex(Byte(m)) && ShardOf(m, Byte(m)) != ShardOf(n, Byte(m))
  {
    ByteIs(m);
    SmallMod(m, n);
    hide HexDigit, IsHex;
  }

  lemma SmallMod(m: nat, n: nat)
    requires 1 <= m < n
    ensures m % m == 0 && m % n == m
  {
  }

  lemma LargeCount(count: nat, d: string)
    requires count >= 256 && IsHex(d)
    ensures ShardOf(count, d) == if |d| >= 2 then HexDigit(d[0]) * 16 + HexDigit(d[1]) else HexDigit(d[0])
  {
    assert HexDigit(d[0]) >= 0 && (|d| >= 2 ==> HexDigit(d[1]) >= 0);
    hide HexDigit, IsHex;
    var v := if |d| >= 2 then HexDigit(d[0]) * 16 + HexDigit(d[1]) else HexDigit(d[0]);
    assert 0 <= v < 256;
    SmallByte(v, count);
  }

  lemma SmallByte(v: nat, count: nat)
    requires v < count
    ensures v % count == v
  {
  }

  lemma AskKeepsPlaced(shards: seq<set<string>>, digest: string)
    requires shards != [] && IsHex(digest) && Placed(shards)
    ensures Placed(Ask(shards, digest))
    ensures Union(Ask(shards, digest)) == Union(shards) + {digest}
    ensures SaysDuplicate(shards, digest) <==> digest in Union(shards)
  {
    var after := Ask(shards, digest);
    assert digest in after[ShardOf(|shards|, digest)];
    forall d
      ensures d in Union(after) <==> d in Union(shards) + {digest}
    {
      if d in Union(shards) {
        var i :| 0 <= i < |shards| && d in shards[i];
        assert d in after[i];
      }
    }
  }

  // ---- the running form ----

  datatype Stats = Stats(inserted: int, duplicates: int, lookups: int, cacheHits: int) {
    function Plus(o: Stats): Stats {
      Stats(inserted + o.inserted, duplicates + o.duplicates, lookups + o.lookups, cacheHits + o.cacheHits)
    }
  }

  function Sum(parts: seq<Stats>): Stats {
    if parts == [] then Stats(0, 0, 0, 0) else Sum(parts[..|parts| - 1]).Plus(parts[|parts| - 1])
  }

  /** Every counter is added up over the parts, and no part leaves another's out. */
  lemma {:induction false} SumSplit(a: seq<Stats>, x: Stats, b: seq<Stats>)
    ensures
      var (s, l, r) := (Sum(a + [x] + b), Sum(a), Sum(b));
      && s.inserted == l.inserted + x.inserted + r.inserted && s.lookups == l.lookups + x.lookups + r.lookups
      && s.duplicates == l.duplicates + x.duplicates + r.duplicates
      && s.cacheHits == l.cacheHits + x.cacheHits + r.cacheHits
    ensures Sum([]) == Stats(0, 0, 0, 0)
  {
    var parts := a + [x] + b;
    if b == [] {
      assert parts == a + [x] && parts[..|parts| - 1] == a;
    } else {
      SumSplit(a, x, b[..|b| - 1]);
      assert parts[..|parts| - 1] == a + [x] + b[..|b| - 1];
    }
  }

  method OpenShard(
      db: map<string, string>, batchSize: int,
      policy: (nat, map<string, (bool, string)>) -> set<string>, hash: string -> string)
    returns (dedup: ExactHashDedup)
    ensures dedup.Wired() && dedup.Valid() && dedup.index != null && dedup.hash == hash && fresh(dedup.Repr)
    ensures dedup.Known() == db.Keys
  {
    hide PersistentHashIndex.Valid, PersistentHashIndex.Contents;
    var index := new PersistentHashIndex(db, batchSize, policy);
    dedup := new ExactHashDedup(index, hash);
  }

  method OpenShards(
      dbs: seq<map<string, string>>, batchSize: int,
      policy: (nat, map<string, (bool, string)>) -> set<string>, hash: string -> string)
    returns (made: seq<ExactHashDedup>, ghost objects: set<object?>)
    ensures |made| == |dbs| && fresh(objects)
    ensures forall i :: 0 <= i < |made| ==>
      && made[i].Wired() && made[i].Valid() && made[i].index != null && made[i].hash == hash && made[i].Repr <= objects
      && made[i].Known() == dbs[i].Keys
    ensures forall i, j :: 0 <= i < j < |made| ==> made[i].Repr !! made[j].Repr
  {
    hide ExactHashDedup.Valid, ExactHashDedup.Known;
    made, objects := [], {};
    for n := 0 to |dbs|
      invariant |made| == n && fresh(objects)
      invariant forall i :: 0 <= i < n ==>
        && made[i].Wired() && made[i].Valid() && made[i].index != null && made[i].hash == hash &&
          made[i].Repr <= objects
        && made[i].Known() == dbs[i].Keys
      invariant forall i, j :: 0 <= i < j < n ==> made[i].Repr !! made[j].Repr
    {
      var dedup := OpenShard(dbs[n], batchSize, policy, hash);
      made := made + [dedup];
      objects := objects + dedup.Repr;
    }
  }

  class ShardedExactDedup {
    const dedups: seq<ExactHashDedup>
    const hash: string -> string
    var stats: Stats
    ghost const Repr: set<object?>

    ghost predicate Wired() {
      && dedups != [] && this in Repr
      && (forall d :: d in dedups ==>
        d.index != null && d.Wired() && d.hash == hash && d.Repr <= Repr && this !in d.Repr)
      && (forall i, j :: 0 <= i < j < |dedups| ==> dedups[i].Repr !! dedups[j].Repr)
    }

    ghost predicate Valid()
      reads Repr
    {
      Wired() && forall d :: d in dedups ==> d.Valid()
    }

    /** What each shard knows. */
    ghost function Shards(): seq<set<string>>
      requires Wired()
      reads Repr
    {
      seq(|dedups|, i requires 0 <= i < |dedups| && dedups[i].Wired() && dedups[i].Repr <= Repr
        reads Repr => dedups[i].Known())
    }

    /** The counters of each shard's index. */
    ghost function Counters(): seq<Stats>
      requires Wired()
      reads Repr
    {
      seq(|dedups|, i requires 0 <= i < |dedups| && dedups[i].index in Repr && dedups[i].index != null reads Repr =>
        Stats(dedups[i].index.inserted, dedups[i].index.duplicates, dedups[i].index.lookups, dedups[i].index.cacheHits))
    }

    /** One index and one deduplicator per shard, over the databases found on disk. */
    constructor (dbs: seq<map<string, string>>, batchSize: int,
        policy: (nat, map<string, (bool, string)>) -> set<string>, hash: string -> string)
      requires dbs != []
      ensures Valid() && |dedups| == |dbs| && this.hash == hash
      ensures forall i :: 0 <= i < |dbs| ==> Shards()[i] == dbs[i].Keys
    {
      var made, objects := OpenShards(dbs, batchSize, policy, hash);
      this.dedups, this.hash, stats := made, hash, Stats(0, 0, 0, 0);
      Repr := objects + {this};
    }

    /** Two-level counters: the sums of the shards' own. */
    method SyncStats()
      requires Valid()
      modifies this
      ensures Valid() && Shards() == old(Shards()) && Counters() == old(Counters())
      ensures stats == Sum(Counters())
    {
      hide ExactHashDedup.Valid, ExactHashDedup.Known;
      var sum := Stats(0, 0, 0, 0);
      for i := 0 to |dedups|
        invariant sum == Sum(Counters()[..i])
      {
        assert Counters()[..i + 1][..i] == Counters()[..i] && dedups[i] in dedups;
        var index := dedups[i].index;
        sum := sum.Plus(Stats(index.inserted, index.duplicates, index.lookups, index.cacheHits));
      }
      assert Counters()[..|dedups|] == Counters();
      stats := sum;
    }

    /** The shard of the digest is asked, and no other shard changes. */
    method AskShard(d: string, source: string) returns (dup: bool)
      requires Valid() && IsHex(d)
      modifies Repr
      ensures Valid() && (dup <==> SaysDuplicate(old(Shards()), d)) && Shards() == Ask(old(Shards()), d)
      ensures |Counters()| == |old(Counters())|
      ensures forall j :: 0 <= j < |Counters()| ==> Counters()[j].duplicates == old(Counters())[j].duplicates
      ensures forall j :: 0 <= j < |Counters()| ==>
        Counters()[j].inserted == old(Counters())[j].inserted + if j == ShardOf(|dedups|, d) && !dup then 1 else 0
      ensures
        var learnt := dedups[ShardOf(|dedups|, d)].index.Contents();
        !dup ==> d in learnt && learnt[d] == source
    {
      hide ExactHashDedup.Valid, ExactHashDedup.Known;
      var i := ShardOf(|dedups|, d);
      assert dedups[i] in dedups;
      dup := dedups[i].IsDuplicate("", source, d);
      forall j | 0 <= j < |dedups| && j != i
        ensures dedups[j].Valid() && dedups[j].Known() == old(dedups[j].Known())
        ensures dedups[j].index.duplicates == old(dedups[j].index.duplicates)
      {
        assert dedups[j] in dedups;
        assert dedups[j].Repr !! dedups[i].Repr;
      }
      assert Shards() == Ask(old(Shards()), d);
    }

    /** The verdict is that of the digest's own shard, which alone learns the digest. The session
        statistics are brought up to date; their duplicate count never moves, because the indexes
        are always told that a registered digest is new. */
    method IsDuplicate(text: string, source: string, digest: string) returns (dup: bool)
      requires Valid() && IsHex(if digest != "" then digest else hash(text))
      modifies Repr
      ensures Valid()
      ensures
        var d := if digest != "" then digest else hash(text);
        (dup <==> SaysDuplicate(old(Shards()), d)) && Shards() == Ask(old(Shards()), d)
      ensures
        var d := if digest != "" then digest else hash(text);
        var learnt := dedups[ShardOf(|dedups|, d)].index.Contents();
        !dup ==> d in learnt && learnt[d] == source
      ensures stats == Sum(Counters()) && stats.duplicates == Sum(old(Counters())).duplicates
      ensures stats.inserted == Sum(old(Counters())).inserted + if dup then 0 else 1
    {
      hide ExactHashDedup.Valid, ExactHashDedup.Known;
      ghost var before := Counters();
      var d := if digest != "" then digest else hash(text);
      dup := AskShard(d, source);
      SumsMove(before, Counters(), ShardOf(|dedups|, d), if dup then 0 else 1);
      SyncStats();
    }

    /** A stream of digests gets the verdicts of the unsharded deduplicator. */
    method AskAll(digests: seq<string>, source: string) returns (verdicts: seq<bool>)
      requires Valid() && Placed(Shards()) && forall d :: d in digests ==> IsHex(d)
      modifies Repr
      ensures Valid() && Placed(Shards())
      ensures verdicts == Verdicts(Union(old(Shards())), digests)
      ensures Union(Shards()) == Asked(Union(old(Shards())), digests)
    {
      hide Wired, ExactHashDedup.Valid, ExactHashDedup.Known, Placed, Union;
      verdicts := [];
      ghost var known := Union(Shards());
      AnsweredNone(known);
      for i := 0 to |digests|
        invariant Valid() && Placed(Shards())
        invariant Answered(known, Union(Shards()), digests[..i], verdicts)
      {
        hide Answered;
        var d := digests[i];
        assert d in digests;
        assert digests[..i + 1] == digests[..i] + [d];
        AnsweredNext(known, Union(Shards()), digests[..i], verdicts, d);
        var dup := AskOne(d, source);
        verdicts := verdicts + [dup];
      }
      assert digests[..|digests|] == digests;
    }

    method AskOne(d: string, source: string) returns (dup: bool)
      requires Valid() && Placed(Shards()) && IsHex(d)
      modifies Repr
      ensures Valid() && Placed(Shards())
      ensures (dup <==> d in Union(old(Shards()))) && Union(Shards()) == Union(old(Shards())) + {d}
    {
      hide ExactHashDedup.Valid, ExactHashDedup.Known, Placed, Ask, SaysDuplicate, Union;
      assert d != "" && Shards() != [];
      AskKeepsPlaced(Shards(), d);
      dup := IsDuplicate("", source, d);
    }
  }

  lemma {:induction false} SumsMove(a: seq<Stats>, b: seq<Stats>, i: nat, n: int)
    requires |a| == |b| && forall j :: 0 <= j < |a| ==> a[j].duplicates == b[j].duplicates
    requires forall j :: 0 <= j < |a| ==> b[j].inserted == a[j].inserted + if j == i then n else 0
    ensures Sum(a).duplicates == Sum(b).duplicates
    ensures Sum(b).inserted == Sum(a).inserted + if i < |a| then n else 0
  {
    if a != [] {
      SumsMove(a[..|a| - 1], b[..|b| - 1], i, n);
    }
  }
}
