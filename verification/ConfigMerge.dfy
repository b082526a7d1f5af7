/** Deep merge of configuration dictionaries, and their frozen form. */
module ConfigMerge {
  import opened Wrappers

  /** A key: a string, or another scalar that shows as `repr`. */
  datatype Key = Name(text: string) | Other(repr: string)

  /** What a configuration file can hold. */
  datatype Value =
    | Str(text: string)
    | Scalar(repr: string, truthy: bool)
    | List(items: seq<Value>)
    | Tuple(fixed: seq<Value>)
    | Dict(entries: map<Key, Value>)

  type Entries = map<Key, Value>

  /** What `b` leaves of `a`: two dictionaries merge key by key, anything else is replaced. */
  function Merge(a: Value, b: Value): (r: Value)
    ensures a.Dict? && b.Dict? ==> r.Dict? && r.entries.Keys == a.entries.Keys + b.entries.Keys
    decreases b
  {
    if a.Dict? && b.Dict? then
      Dict(map k | k in a.entries.Keys + b.entries.Keys ::
        if k !in b.entries then a.entries[k]
        else if k in a.entries then Merge(a.entries[k], b.entries[k])
        else b.entries[k])
    else b
  }

  function MergeEntries(a: Entries, b: Entries): Entries {
    Merge(Dict(a), Dict(b)).entries
  }

  /** The merge of the source: a copy of the base that the overriding entries are written into. */
  method MergeDicts(base: Entries, over: Entries) returns (out: Entries)
    ensures out == MergeEntries(base, over)
    decreases Dict(over)
  {
    out := base;
    var todo := over.Keys;
    while todo != {}
      invariant todo <= over.Keys
      invariant out.Keys == base.Keys + (over.Keys - todo)
      invariant forall k :: k in out ==>
        out[k] == if k in over.Keys - todo then MergeEntries(base, over)[k] else base[k]
    {
      var k :| k in todo;
      EntryOf(base, over, k);
      hide Merge;
      if k in out && out[k].Dict? && over[k].Dict? {
        var inner := MergeDicts(out[k].entries, over[k].entries);
        out := out[k := Dict(inner)];
      } else {
        out := out[k := over[k]];
      }
      todo := todo - {k};
    }
  }

  lemma EntryOf(base: Entries, over: Entries, k: Key)
    requires k in over
    ensures k in MergeEntries(base, over)
    ensures MergeEntries(base, over)[k] ==
            if k in base && base[k].Dict? && over[k].Dict? then Dict(MergeEntries(base[k].entries, over[k].entries))
              else over[k]
    ensures over[k].Dict? ==> (Dict(over) decreases to Dict(over[k].entries))
  {
    var (a, b) := (Dict(base), Dict(over));
    assert (b decreases to b.entries[k]);
    if k in base {
      assert Merge(a, b).entries[k] == Merge(base[k], over[k]);
      assert !(base[k].Dict? && over[k].Dict?) ==> Merge(base[k], over[k]) == over[k];
    }
    if over[k].Dict? {
      assert over[k] == Dict(over[k].entries);
    }
    if k in base && base[k].Dict? {
      assert base[k] == Dict(base[k].entries);
    }
  }

  // ---- associativity ----

  /** Merging `a` below `c` changes nothing: every key of `a` is a key of `c`, at every depth. */
  predicate Covered(a: Value, c: Value)
    decreases c
  {
    a.Dict? && c.Dict? ==>
      forall k :: k in a.entries ==> k in c.entries && Covered(a.entries[k], c.entries[k])
  }

  lemma {:induction false} CoveredIff(a: Value, c: Value)
    ensures Covered(a, c) <==> Merge(a, c) == c
    decreases c
  {
    if a.Dict? && c.Dict? {
      forall k | k in a.entries && k in c.entries
        ensures Covered(a.entries[k], c.entries[k]) <==> Merge(a.entries[k], c.entries[k]) == c.entries[k]
      {
        CoveredIff(a.entries[k], c.entries[k]);
      }
      if Merge(a, c) == c {
        assert forall k :: k in a.entries ==> k in Merge(a, c).entries;
      }
    }
  }

  /** Nowhere does a value that is no dictionary stand between two dictionaries, unless the last one
      covers the first. */
  predicate NoClash(a: Value, b: Value, c: Value)
    decreases c
  {
    a.Dict? && c.Dict? ==>
      if b.Dict? then
        forall k :: k in a.entries && k in b.entries && k in c.entries ==>
          NoClash(a.entries[k], b.entries[k], c.entries[k])
      else Covered(a, c)
  }

  /** Deep merge is associative exactly when there is no clash. */
  lemma {:induction false} MergeAssociativeIff(a: Value, b: Value, c: Value)
    ensures Merge(Merge(a, b), c) == Merge(a, Merge(b, c)) <==> NoClash(a, b, c)
    decreases c
  {
    if a.Dict? && c.Dict? {
      if b.Dict? {
        var l, r := Merge(Merge(a, b), c), Merge(a, Merge(b, c));
        forall k | k in l.entries
          ensures
            l.entries[k] == r.entries[k] <==>
            (k in a.entries && k in b.entries && k in c.entries ==> NoClash(a.entries[k], b.entries[k], c.entries[k]))
        {
          if k in a.entries && k in b.entries && k in c.entries {
            MergeAssociativeIff(a.entries[k], b.entries[k], c.entries[k]);
          }
        }
        assert l.entries.Keys == r.entries.Keys;
        assert (forall k :: k in l.entries ==> l.entries[k] == r.entries[k]) ==> l.entries == r.entries;
      } else {
        CoveredIff(a, c);
      }
    }
  }

  /** A dictionary, then a scalar, then a dictionary under the same key: merging from the right keeps
      an entry that merging from the left has dropped. */
  lemma AssociativityFails(k: Key, x: Key, y: Key, v: Value)
    requires x != y && !v.Dict?
    ensures
      var (a, b, c) := (Dict(map[k := Dict(map[x := v])]), Dict(map[k := v]), Dict(map[k := Dict(map[y := v])]));
      Merge(Merge(a, b), c) != Merge(a, Merge(b, c))
  {
    var (a, b, c) := (Dict(map[k := Dict(map[x := v])]), Dict(map[k := v]), Dict(map[k := Dict(map[y := v])]));
    MergeAssociativeIff(a, b, c);
    assert x in a.entries[k].entries;
    assert !Covered(a.entries[k], c.entries[k]);
    assert k in a.entries;
  }

  // ---- compatibility ----

  /** No path is a dictionary in one and something else in the other. */
  predicate Compatible(a: Value, b: Value)
    decreases b
  {
    && (a.Dict? <==> b.Dict?)
    && (a.Dict? && b.Dict? ==>
          forall k :: k in a.entries && k in b.entries ==> Compatible(a.entries[k], b.entries[k]))
  }

  /** What stands at the end of a path of keys. */
  function At(v: Value, path: seq<Key>): Option<Value>
    decreases |path|
  {
    if path == [] then Some(v)
    else if v.Dict? && path[0] in v.entries then At(v.entries[path[0]], path[1..])
    else None
  }

  ghost predicate SameKind(a: Value, b: Value, path: seq<Key>) {
    At(a, path).Some? && At(b, path).Some? ==> (At(a, path).value.Dict? <==> At(b, path).value.Dict?)
  }

  /** Compatible are those that agree, wherever both have something, on whether it is a dictionary. */
  lemma {:induction false} CompatibleIff(a: Value, b: Value)
    ensures Compatible(a, b) <==> forall path :: SameKind(a, b, path)
    decreases b
  {
    if !SameKind(a, b, []) {
      assert !Compatible(a, b);
    } else if a.Dict? {
      forall k | k in a.entries && k in b.entries
        ensures Compatible(a.entries[k], b.entries[k]) <==> forall path :: SameKind(a, b, [k] + path)
      {
        CompatibleIff(a.entries[k], b.entries[k]);
        forall path ensures SameKind(a.entries[k], b.entries[k], path) <==> SameKind(a, b, [k] + path) {
          assert ([k] + path)[1..] == path;
        }
        if forall path :: SameKind(a, b, [k] + path) {
          forall path ensures SameKind(a.entries[k], b.entries[k], path) {
            assert SameKind(a, b, [k] + path);
          }
        }
      }
      forall path | Compatible(a, b) ensures SameKind(a, b, path) {
        if path != [] && path[0] in a.entries && path[0] in b.entries {
          assert path == [path[0]] + path[1..];
        }
      }
    } else {
      forall path ensures SameKind(a, b, path) {
      }
    }
  }

  lemma {:induction false} CompatibleNoClash(a: Value, b: Value, c: Value)
    requires Compatible(a, b) && Compatible(b, c)
    ensures NoClash(a, b, c)
    decreases c
  {
    if a.Dict? && c.Dict? {
      forall k | k in a.entries && k in b.entries && k in c.entries
        ensures NoClash(a.entries[k], b.entries[k], c.entries[k])
      {
        CompatibleNoClash(a.entries[k], b.entries[k], c.entries[k]);
      }
    }
  }

  lemma {:induction false} CompatibleSymmetric(a: Value, b: Value)
    requires Compatible(a, b)
    ensures Compatible(b, a)
    decreases b
  {
    if a.Dict? {
      forall k | k in a.entries && k in b.entries
        ensures Compatible(b.entries[k], a.entries[k])
      {
        CompatibleSymmetric(a.entries[k], b.entries[k]);
      }
    }
  }

  /** Compatibility survives a merge. */
  lemma {:induction false} CompatibleMerge(a: Value, b: Value, c: Value)
    requires Compatible(a, b) && Compatible(a, c) && Compatible(b, c)
    ensures Compatible(a, Merge(b, c))
    decreases c
  {
    if a.Dict? {
      var m := Merge(b, c);
      forall k | k in a.entries && k in m.entries
        ensures Compatible(a.entries[k], m.entries[k])
      {
        if k in b.entries && k in c.entries {
          CompatibleMerge(a.entries[k], b.entries[k], c.entries[k]);
        }
      }
    }
  }

  /** The empty dictionary is neutral. */
  lemma MergeEmpty(m: Entries)
    ensures MergeEntries(map[], m) == m && MergeEntries(m, map[]) == m
  {
    assert MergeEntries(map[], m).Keys == m.Keys && MergeEntries(m, map[]).Keys == m.Keys;
  }

  // ---- the frozen form ----

  /** What `str` makes of a key. */
  function Shown(k: Key): string {
    match k
    case Name(text) => text
    case Other(repr) => repr
  }

  /** Of the keys that show the same, the one whose entry wins: the last one inserted. It is not
      known here which that is, only that it is one of them. */
  ghost predicate Picks(last: (Entries, string) -> Key) {
    forall m: Entries, k: Key :: k in m ==> last(m, Shown(k)) in m && Shown(last(m, Shown(k))) == Shown(k)
  }

  /** The keys as strings. */
  function Names(m: Entries): (names: set<Key>)
    ensures forall n :: n in names <==> exists k :: k in m && n == Name(Shown(k))
  {
    set k | k in m :: Name(Shown(k))
  }

  /** Lists become tuples and keys strings, at every depth. */
  ghost function Freeze(last: (Entries, string) -> Key, x: Value): Value
    requires Picks(last)
  {
    match x
    case Dict(m) => Dict(map n | n in Names(m) :: Freeze(last, m[last(m, n.text)]))
    case List(vs) => Tuple(seq(|vs|, i requires 0 <= i < |vs| => Freeze(last, vs[i])))
    case Tuple(vs) => Tuple(seq(|vs|, i requires 0 <= i < |vs| => Freeze(last, vs[i])))
    case _ => x
  }

  /** Tuples become lists and keys strings; a list is returned as it is. */
  ghost function Thaw(last: (Entries, string) -> Key, x: Value): Value
    requires Picks(last)
  {
    match x
    case Dict(m) => Dict(map n | n in Names(m) :: Thaw(last, m[last(m, n.text)]))
    case Tuple(vs) => List(seq(|vs|, i requires 0 <= i < |vs| => Thaw(last, vs[i])))
    case _ => x
  }

  /** No tuples, and only strings as keys. */
  predicate Plain(x: Value) {
    match x
    case Dict(m) => forall k :: k in m ==> k.Name? && Plain(m[k])
    case List(vs) => forall i :: 0 <= i < |vs| ==> Plain(vs[i])
    case Tuple(_) => false
    case _ => true
  }

  /** Among string keys each shows as itself only. */
  lemma NamedKeys(last: (Entries, string) -> Key, m: Entries)
    requires Picks(last) && forall k :: k in m ==> k.Name?
    ensures Names(m) == m.Keys && forall k :: k in m ==> last(m, k.text) == k
  {
    forall k | k in m ensures last(m, k.text) == k {
      assert Shown(k) == k.text;
    }
  }

  /** Thawing undoes freezing exactly on values without tuples in which every key is a string. */
  lemma {:induction false} ThawFreezeIff(last: (Entries, string) -> Key, x: Value)
    requires Picks(last)
    ensures Thaw(last, Freeze(last, x)) == x <==> Plain(x)
  {
    match x
    case Dict(m) => ThawFreezeDict(last, m, x);
    case List(vs) =>
      forall i | 0 <= i < |vs| ensures Thaw(last, Freeze(last, vs[i])) == vs[i] <==> Plain(vs[i]) {
        ThawFreezeIff(last, vs[i]);
      }
      var r := Thaw(last, Freeze(last, x)).items;
      assert |r| == |vs| && forall i :: 0 <= i < |vs| ==> r[i] == Thaw(last, Freeze(last, vs[i]));
    case _ =>
  }

  lemma FreezeEntries(last: (Entries, string) -> Key, m: Entries)
    requires Picks(last)
    ensures
      var f := Freeze(last, Dict(m));
      && f.Dict? && f.entries.Keys == Names(m)
      && ((forall k :: k in m ==> k.Name?) ==>
            Names(m) == m.Keys && forall k :: k in m ==> f.entries[k] == Freeze(last, m[k]))
  {
    if forall k :: k in m ==> k.Name? {
      NamedKeys(last, m);
    }
    hide Picks;
  }

  lemma ThawEntries(last: (Entries, string) -> Key, m: Entries)
    requires Picks(last) && forall k :: k in m ==> k.Name?
    ensures
      var t := Thaw(last, Dict(m));
      t.Dict? && t.entries.Keys == m.Keys && forall k :: k in m ==> t.entries[k] == Thaw(last, m[k])
  {
    NamedKeys(last, m);
    hide Picks;
  }

  lemma {:induction false} ThawFreezeDict(last: (Entries, string) -> Key, m: Entries, x: Value)
    requires Picks(last) && x == Dict(m)
    ensures Thaw(last, Freeze(last, x)) == x <==> Plain(x)
    decreases x, 0
  {
    hide Picks, Freeze, Thaw;
    FreezeEntries(last, m);
    var frozen := Freeze(last, x).entries;
    assert Freeze(last, x) == Dict(frozen);
    ThawEntries(last, frozen);
    var thawed := Thaw(last, Freeze(last, x)).entries;
    assert Thaw(last, Freeze(last, x)) == Dict(thawed);
    if forall k :: k in m ==> k.Name? {
      forall k | k in m ensures thawed[k] == m[k] <==> Plain(m[k]) {
        ThawFreezeIff(last, m[k]);
      }
      assert thawed == m <==> forall k :: k in m ==> thawed[k] == m[k];
    } else {
      var k :| k in m && !k.Name?;
      assert k !in thawed;
    }
  }
}
