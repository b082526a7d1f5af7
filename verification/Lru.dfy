/** A bounded cache, for every eviction policy: after each store the policy may drop any keys,
    the one just stored included. */
module Lru {
  import opened Wrappers

  class BoundedLru<K(==, !new), V(!new)> {
    const policy: (nat, map<K, V>) -> set<K>
    var clock: nat
    var entries: map<K, V>

    /** The policy never drops anything. */
    ghost predicate KeepsAll() {
      forall n, m :: policy(n, m) == {}
    }

    constructor (policy: (nat, map<K, V>) -> set<K>)
      ensures entries == map[] && this.policy == policy
    {
      this.policy := policy;
      clock, entries := 0, map[];
    }

    method Get(k: K) returns (r: Option<V>)
      ensures r == if k in entries then Some(entries[k]) else None
    {
      r := if k in entries then Some(entries[k]) else None;
    }

    method Put(k: K, v: V)
      modifies this
      ensures entries == old(entries)[k := v] - policy(old(clock), old(entries)[k := v])
      ensures forall x :: x in entries ==> x in old(entries)[k := v] && entries[x] == old(entries)[k := v][x]
      ensures KeepsAll() ==> entries == old(entries)[k := v]
    {
      var grown := entries[k := v];
      entries := grown - policy(clock, grown);
      clock := clock + 1;
      assert KeepsAll() ==> entries == grown;
    }
  }
}
