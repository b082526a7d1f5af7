/** Inheritance of configuration files: a depth-first composition that shares one set of seen
    names. */
module ConfigCompose {
  import opened Wrappers
  import opened ConfigMerge

  type Name = string

  const EXTENDS := Key.Name("extends")

  /** The readable files, and how an entry of `extends` names one of them. */
  datatype Disk = Disk(files: map<Name, Value>, resolve: Value -> Option<Name>)

  datatype Error = Unreadable(name: Name) | Cycle(at: Name) | BadExtends | Unresolved(parent: Value)

  function RawOf(disk: Disk, name: Name): Entries
    requires name in disk.files
  {
    if disk.files[name].Dict? then disk.files[name].entries else map[]
  }

  predicate Truthy(v: Value) {
    match v
    case Str(text) => text != ""
    case Scalar(_, truthy) => truthy
    case List(items) => items != []
    case Tuple(items) => items != []
    case Dict(entries) => entries != map[]
  }

  predicate Inherits(raw: Entries) {
    EXTENDS in raw && Truthy(raw[EXTENDS])
  }

  function Parents(raw: Entries): Option<seq<Value>> {
    if !Inherits(raw) then Some([])
    else
      match raw[EXTENDS]
      case Str(_) => Some([raw[EXTENDS]])
      case List(items) => Some(items)
      case _ => None
  }

  /** What a file adds to its parents. An `extends` that names nobody stays in. */
  function Body(raw: Entries): Entries {
    if Inherits(raw) then raw - {EXTENDS} else raw
  }

  // ---- composition ----

  /** The composed entries and the names seen afterwards. */
  function Compose(disk: Disk, name: Name, seen: set<Name>): (r: Result<(Entries, set<Name>), Error>)
    ensures r.Ok? ==> name in disk.files.Keys - seen && seen + {name} <= r.value.1
    decreases disk.files.Keys - seen, 0
  {
    if name !in disk.files then Err(Unreadable(name))
    else if name in seen then Err(Cycle(name))
    else
      var raw := RawOf(disk, name);
      if !Inherits(raw) then Ok((raw, seen + {name}))
      else if Parents(raw).None? then Err(BadExtends)
      else
        match ComposeAll(disk, Parents(raw).value, seen + {name})
        case Err(e) => Err(e)
        case Ok((merged, after)) => Ok((MergeEntries(merged, Body(raw)), after))
  }

  /** The parents merged from first to last. */
  function ComposeAll(disk: Disk, parents: seq<Value>, seen: set<Name>): (r: Result<(Entries, set<Name>), Error>)
    ensures r.Ok? ==> seen <= r.value.1
    decreases disk.files.Keys - seen, 1 + |parents|
  {
    if parents == [] then Ok((map[], seen))
    else
      match ComposeAll(disk, parents[..|parents| - 1], seen)
      case Err(e) => Err(e)
      case Ok((merged, between)) =>
        match disk.resolve(parents[|parents| - 1])
        case None => Err(Unresolved(parents[|parents| - 1]))
        case Some(parent) =>
          match Compose(disk, parent, between)
          case Err(e) => Err(e)
          case Ok((m, after)) => Ok((MergeEntries(merged, m), after))
  }

  /** An error in a prefix of the parents is the error of the whole. */
  lemma {:induction false} EarlierError(disk: Disk, parents: seq<Value>, n: nat, seen: set<Name>)
    requires n <= |parents| && ComposeAll(disk, parents[..n], seen).Err?
    ensures ComposeAll(disk, parents, seen) == ComposeAll(disk, parents[..n], seen)
  {
    if n == |parents| {
      assert parents[..n] == parents;
    } else {
      var front := parents[..|parents| - 1];
      assert front[..n] == parents[..n];
      EarlierError(disk, front, n, seen);
    }
  }

  /** What `extends` makes of a file: absent or falsy it changes nothing, and stays in; a string is one
      parent, a list is all of them in order, and anything else is an error. */
  lemma ExtendsSays(disk: Disk, name: Name)
    requires name in disk.files && disk.files[name].Dict?
    ensures
      var (raw, k, r) := (disk.files[name].entries, Key.Name("extends"), Compose(disk, name, {}));
      if k !in raw || raw[k] == Str("") || raw[k] == List([]) || raw[k] == Tuple([]) || raw[k] == Dict(map[])
         || (raw[k].Scalar? && !raw[k].truthy)
      then r == Ok((raw, {name}))
      else match raw[k]
        case Str(_) =>
          (match disk.resolve(raw[k])
           case None => r == Err(Unresolved(raw[k]))
           case Some(parent) =>
             match Compose(disk, parent, {name})
             case Err(e) => r == Err(e)
             case Ok((m, after)) => r == Ok((MergeEntries(m, raw - {k}), after)))
        case List(items) =>
          (match ComposeAll(disk, items, {name})
           case Err(e) => r == Err(e)
           case Ok((m, after)) => r == Ok((MergeEntries(m, raw - {k}), after)))
        case _ => r == Err(BadExtends)
  {
    hide Merge;
    var v := Str("");
    if EXTENDS in disk.files[name].entries {
      v := disk.files[name].entries[EXTENDS];
    }
    assert [v][..0] == [] && [v][0] == v && {} + {name} == {name};
    assert ComposeAll(disk, [], {name}) == Ok((map[], {name}));
    forall m: Entries ensures MergeEntries(map[], m) == m {
      MergeEmpty(m);
    }
  }

  class Composer {
    const disk: Disk
    var seen: set<Name>

    constructor (disk: Disk)
      ensures this.disk == disk && seen == {}
    {
      this.disk, seen := disk, {};
    }

    method ComposePath(name: Name) returns (r: Result<Entries, Error>)
      modifies this
      ensures
        match Compose(disk, name, old(seen))
        case Err(e) => r == Err(e)
        case Ok((entries, after)) => r == Ok(entries) && seen == after
      decreases disk.files.Keys - seen, 0
    {
      if name !in disk.files {
        return Err(Unreadable(name));
      }
      var raw := if disk.files[name].Dict? then disk.files[name].entries else map[];
      if name in seen {
        return Err(Cycle(name));
      }
      seen := seen + {name};
      if EXTENDS !in raw || !Truthy(raw[EXTENDS]) {
        return Ok(raw);
      }
      var parents: seq<Value>;
      match raw[EXTENDS] {
        case Str(_) => parents := [raw[EXTENDS]];
        case List(items) => parents := items;
        case _ => return Err(BadExtends);
      }
      var inherited := ComposeParents(parents);
      if inherited.Err? {
        return inherited;
      }
      var whole := MergeDicts(inherited.value, raw - {EXTENDS});
      r := Ok(whole);
    }

    method ComposeParents(parents: seq<Value>) returns (r: Result<Entries, Error>)
      modifies this
      ensures
        match ComposeAll(disk, parents, old(seen))
        case Err(e) => r == Err(e)
        case Ok((entries, after)) => r == Ok(entries) && seen == after
      decreases disk.files.Keys - seen, 1
    {
      hide Merge, RawOf, Parents, Body;
      ghost var start := seen;
      var merged: Entries := map[];
      for i := 0 to |parents|
        invariant start <= seen
        invariant ComposeAll(disk, parents[..i], start) == Ok((merged, seen))
      {
        assert parents[..i + 1][..i] == parents[..i];
        var parent := disk.resolve(parents[i]);
        if parent.None? {
          EarlierError(disk, parents, i + 1, start);
          return Err(Unresolved(parents[i]));
        }
        var pdata := ComposePath(parent.value);
        if pdata.Err? {
          EarlierError(disk, parents, i + 1, start);
          return pdata;
        }
        merged := MergeDicts(merged, pdata.value);
      }
      assert parents[..|parents|] == parents;
      r := Ok(merged);
    }
  }

  // ---- the tree of inheritance ----

  datatype Tree = Node(name: Name, parents: seq<Tree>)

  /** `t` is the whole, finite unfolding of `extends` from its root. */
  ghost predicate Unfolds(disk: Disk, t: Tree)
    decreases t, 0
  {
    && t.name in disk.files
    && Parents(RawOf(disk, t.name)).Some?
    && UnfoldAll(disk, Parents(RawOf(disk, t.name)).value, t.parents)
  }

  ghost predicate UnfoldAll(disk: Disk, parents: seq<Value>, ts: seq<Tree>)
    decreases ts, 1
  {
    && |parents| == |ts|
    && forall i :: 0 <= i < |ts| ==> disk.resolve(parents[i]) == Some(ts[i].name) && Unfolds(disk, ts[i])
  }

  /** The files in the order they contribute: parents before children. */
  function PostOrder(t: Tree): seq<Name>
    decreases t, 0
  {
    PostOrderAll(t.parents) + [t.name]
  }

  function PostOrderAll(ts: seq<Tree>): seq<Name>
    decreases ts, 1
  {
    if ts == [] then [] else PostOrderAll(ts[..|ts| - 1]) + PostOrder(ts[|ts| - 1])
  }

  function Names(xs: seq<Name>): set<Name> {
    set x | x in xs
  }

  ghost predicate Distinct(xs: seq<Name>) {
    forall i, j :: 0 <= i < j < |xs| ==> xs[i] != xs[j]
  }

  /** The nested merge along the tree. */
  function Nested(disk: Disk, t: Tree): Entries
    requires Unfolds(disk, t)
    decreases t, 0
  {
    var raw := RawOf(disk, t.name);
    if Inherits(raw) then MergeEntries(NestedAll(disk, Parents(raw).value, t.parents), Body(raw)) else raw
  }

  function NestedAll(disk: Disk, parents: seq<Value>, ts: seq<Tree>): Entries
    requires UnfoldAll(disk, parents, ts)
    decreases ts, 1
  {
    if ts == [] then map[]
    else MergeEntries(NestedAll(disk, parents[..|ts| - 1], ts[..|ts| - 1]), Nested(disk, ts[|ts| - 1]))
  }

  lemma DistinctJoin(xs: seq<Name>, ys: seq<Name>)
    ensures Distinct(xs + ys) <==> Distinct(xs) && Distinct(ys) && Names(xs) !! Names(ys)
    ensures Names(xs + ys) == Names(xs) + Names(ys)
  {
    var zs := xs + ys;
    assert forall i :: 0 <= i < |xs| ==> zs[i] == xs[i];
    assert forall j :: 0 <= j < |ys| ==> zs[|xs| + j] == ys[j];
    forall i, j | 0 <= i < |xs| && 0 <= j < |ys| && Distinct(zs) ensures xs[i] != ys[j] {
      assert zs[i] != zs[|xs| + j];
    }
    if Distinct(xs) && Distinct(ys) && Names(xs) !! Names(ys) {
      forall i, j | 0 <= i < j < |zs| ensures zs[i] != zs[j] {
        if i < |xs| <= j {
          assert zs[i] in Names(xs) && zs[j] in Names(ys);
        }
      }
    }
    forall x ensures x in Names(zs) <==> x in Names(xs) + Names(ys) {
    }
  }

  /** With the tree at hand, composition succeeds exactly when no file occurs in it twice or was seen
      before; it then visits the files of the tree and gives the nested merge. */
  lemma {:induction false} ComposeOnTree(disk: Disk, t: Tree, seen: set<Name>)
    requires Unfolds(disk, t)
    ensures Compose(disk, t.name, seen).Ok? <==> Distinct(PostOrder(t)) && Names(PostOrder(t)) !! seen
    ensures Compose(disk, t.name, seen).Ok? ==>
      Compose(disk, t.name, seen).value == (Nested(disk, t), seen + Names(PostOrder(t)))
    decreases t, 0
  {
    var raw := RawOf(disk, t.name);
    DistinctJoin(PostOrderAll(t.parents), [t.name]);
    assert Names([t.name]) == {t.name};
    ComposeAllOnTree(disk, Parents(raw).value, t.parents, seen + {t.name});
    assert seen + {t.name} + Names(PostOrderAll(t.parents)) == seen + Names(PostOrder(t));
  }

  lemma {:induction false} ComposeAllOnTree(disk: Disk, parents: seq<Value>, ts: seq<Tree>, seen: set<Name>)
    requires UnfoldAll(disk, parents, ts)
    ensures ComposeAll(disk, parents, seen).Ok? <==> Distinct(PostOrderAll(ts)) && Names(PostOrderAll(ts)) !! seen
    ensures ComposeAll(disk, parents, seen).Ok? ==>
      ComposeAll(disk, parents, seen).value == (NestedAll(disk, parents, ts), seen + Names(PostOrderAll(ts)))
    decreases ts, 1
  {
    if ts == [] {
      assert parents == [] && Names([]) == {} && seen + {} == seen;
    } else {
      var n := |ts| - 1;
      ComposeAllOnTree(disk, parents[..n], ts[..n], seen);
      DistinctJoin(PostOrderAll(ts[..n]), PostOrder(ts[n]));
      var between := seen + Names(PostOrderAll(ts[..n]));
      ComposeOnTree(disk, ts[n], between);
      assert between + Names(PostOrder(ts[n])) == seen + Names(PostOrderAll(ts));
    }
  }

  /** What composes has a finite unfolding. */
  lemma {:induction false} UnfoldingOf(disk: Disk, name: Name, seen: set<Name>) returns (t: Tree)
    requires Compose(disk, name, seen).Ok?
    ensures Unfolds(disk, t) && t.name == name
    decreases disk.files.Keys - seen, 0
  {
    var raw := RawOf(disk, name);
    var ts: seq<Tree> := [];
    if Inherits(raw) {
      ts := UnfoldingsOf(disk, Parents(raw).value, seen + {name});
    }
    t := Node(name, ts);
  }

  lemma {:induction false} UnfoldingsOf(disk: Disk, parents: seq<Value>, seen: set<Name>) returns (ts: seq<Tree>)
    requires ComposeAll(disk, parents, seen).Ok?
    ensures UnfoldAll(disk, parents, ts)
    decreases disk.files.Keys - seen, 1 + |parents|
  {
    if parents == [] {
      ts := [];
    } else {
      var n := |parents| - 1;
      ts := UnfoldingsOf(disk, parents[..n], seen);
      var between := ComposeAll(disk, parents[..n], seen).value.1;
      var last := UnfoldingOf(disk, disk.resolve(parents[n]).value, between);
      ts := ts + [last];
    }
  }

  /** Composition of a file succeeds exactly when its inheritance unfolds to a finite tree in which
      no file occurs twice. Being reached on two ways, and not only on a cycle, is an error. */
  lemma ComposeIff(disk: Disk, name: Name)
    ensures Compose(disk, name, {}).Ok? <==>
            exists t :: Unfolds(disk, t) && t.name == name && Distinct(PostOrder(t))
  {
    if Compose(disk, name, {}).Ok? {
      var t := UnfoldingOf(disk, name, {});
      ComposeOnTree(disk, t, {});
    }
    forall t | Unfolds(disk, t) && t.name == name && Distinct(PostOrder(t))
      ensures Compose(disk, name, {}).Ok?
    {
      ComposeOnTree(disk, t, {});
    }
  }

  // ---- no cycle and no diamond ----

  ghost predicate Extends(disk: Disk, a: Name, b: Name) {
    && a in disk.files && Parents(RawOf(disk, a)).Some?
    && exists p :: p in Parents(RawOf(disk, a)).value && disk.resolve(p) == Some(b)
  }

  ghost predicate Path(disk: Disk, p: seq<Name>) {
    |p| > 0 && forall i :: 0 <= i < |p| - 1 ==> Extends(disk, p[i], p[i + 1])
  }

  /** The first step of a path goes into a subtree. */
  lemma Descend(disk: Disk, t: Tree, p: seq<Name>) returns (i: nat)
    requires Unfolds(disk, t) && Path(disk, p) && p[0] == t.name && |p| > 1
    ensures i < |t.parents| && Unfolds(disk, t.parents[i]) && t.parents[i].name == p[1] && Path(disk, p[1..])
  {
    assert Extends(disk, p[0], p[1]);
    var ps := Parents(RawOf(disk, t.name)).value;
    var v :| v in ps && disk.resolve(v) == Some(p[1]);
    i :| i < |ps| && ps[i] == v;
    forall j | 0 <= j < |p[1..]| - 1 ensures Extends(disk, p[1..][j], p[1..][j + 1]) {
      assert Extends(disk, p[j + 1], p[j + 2]);
    }
  }

  lemma {:induction false} Branch(ts: seq<Tree>, i: nat)
    requires i < |ts|
    ensures Names(PostOrder(ts[i])) <= Names(PostOrderAll(ts))
    ensures Distinct(PostOrderAll(ts)) ==> Distinct(PostOrder(ts[i]))
  {
    var n := |ts| - 1;
    DistinctJoin(PostOrderAll(ts[..n]), PostOrder(ts[n]));
    if i < n {
      Branch(ts[..n], i);
    }
  }

  lemma {:induction false} BranchesApart(ts: seq<Tree>, i: nat, j: nat)
    requires i < j < |ts| && Distinct(PostOrderAll(ts))
    ensures Names(PostOrder(ts[i])) !! Names(PostOrder(ts[j]))
  {
    var n := |ts| - 1;
    DistinctJoin(PostOrderAll(ts[..n]), PostOrder(ts[n]));
    if j < n {
      BranchesApart(ts[..n], i, j);
    } else {
      Branch(ts[..n], i);
    }
  }

  lemma {:induction false} PathStays(disk: Disk, t: Tree, p: seq<Name>)
    requires Unfolds(disk, t) && Path(disk, p) && p[0] == t.name
    ensures p[|p| - 1] in Names(PostOrder(t))
    decreases |p|
  {
    DistinctJoin(PostOrderAll(t.parents), [t.name]);
    if |p| > 1 {
      var i := Descend(disk, t, p);
      PathStays(disk, t.parents[i], p[1..]);
      Branch(t.parents, i);
    } else {
      assert t.name in Names([t.name]);
    }
  }

  lemma {:induction false} OnePath(disk: Disk, t: Tree, p: seq<Name>, q: seq<Name>)
    requires Unfolds(disk, t) && Distinct(PostOrder(t))
    requires Path(disk, p) && Path(disk, q) && p[0] == q[0] == t.name && p[|p| - 1] == q[|q| - 1]
    ensures p == q
    decreases |p|
  {
    DistinctJoin(PostOrderAll(t.parents), [t.name]);
    assert t.name in Names([t.name]);
    if |p| > 1 {
      var i := Descend(disk, t, p);
      PathStays(disk, t.parents[i], p[1..]);
      Branch(t.parents, i);
      if |q| > 1 {
        var j := Descend(disk, t, q);
        PathStays(disk, t.parents[j], q[1..]);
        if i < j {
          BranchesApart(t.parents, i, j);
        } else if j < i {
          BranchesApart(t.parents, j, i);
        } else {
          OnePath(disk, t.parents[i], p[1..], q[1..]);
          assert p == [p[0]] + p[1..] && q == [q[0]] + q[1..];
        }
      }
    } else if |q| > 1 {
      var j := Descend(disk, t, q);
      PathStays(disk, t.parents[j], q[1..]);
      Branch(t.parents, j);
    }
  }

  /** When composition succeeds, every file is reached from the root on one path only. */
  lemma SucceedsOnePath(disk: Disk, name: Name, p: seq<Name>, q: seq<Name>)
    requires Compose(disk, name, {}).Ok?
    requires Path(disk, p) && Path(disk, q) && p[0] == q[0] == name && p[|p| - 1] == q[|q| - 1]
    ensures p == q
  {
    var t := UnfoldingOf(disk, name, {});
    ComposeOnTree(disk, t, {});
    OnePath(disk, t, p, q);
  }

  /** Composition never succeeds when a cycle can be reached. */
  lemma CycleNeverSucceeds(disk: Disk, name: Name, p: seq<Name>, i: nat, j: nat)
    requires Path(disk, p) && p[0] == name && i < j < |p| && p[i] == p[j]
    ensures Compose(disk, name, {}).Err?
  {
    var (shorter, longer) := (p[..i + 1], p[..j + 1]);
    assert |shorter| < |longer| && shorter[i] == longer[j];
    if Compose(disk, name, {}).Ok? {
      SucceedsOnePath(disk, name, shorter, longer);
    }
  }

  // ---- the condition on the files ----

  /** The file is there, its `extends` is well formed, and its entries name different files. */
  ghost predicate Loads(disk: Disk, name: Name) {
    && name in disk.files
    && Parents(RawOf(disk, name)).Some?
    && var ps := Parents(RawOf(disk, name)).value;
    && (forall i :: 0 <= i < |ps| ==> disk.resolve(ps[i]).Some?)
    && (forall i, j :: 0 <= i < j < |ps| ==> disk.resolve(ps[i]) != disk.resolve(ps[j]))
  }

  ghost predicate From(disk: Disk, root: Name, p: seq<Name>) {
    Path(disk, p) && p[0] == root
  }

  ghost predicate AllLoad(disk: Disk, root: Name) {
    forall p :: From(disk, root, p) ==> Loads(disk, p[|p| - 1])
  }

  ghost predicate OneWay(disk: Disk, root: Name) {
    forall p, q :: From(disk, root, p) && From(disk, root, q) && p[|p| - 1] == q[|q| - 1] ==> p == q
  }

  /** Every file of a tree without repetition loads. */
  lemma {:induction false} TreeLoads(disk: Disk, t: Tree, p: seq<Name>)
    requires Unfolds(disk, t) && Distinct(PostOrder(t)) && From(disk, t.name, p)
    ensures Loads(disk, p[|p| - 1])
    decreases |p|
  {
    DistinctJoin(PostOrderAll(t.parents), [t.name]);
    if |p| > 1 {
      var i := Descend(disk, t, p);
      Branch(t.parents, i);
      TreeLoads(disk, t.parents[i], p[1..]);
    } else {
      RootLoads(disk, t);
    }
  }

  lemma RootLoads(disk: Disk, t: Tree)
    requires Unfolds(disk, t) && Distinct(PostOrderAll(t.parents))
    ensures Loads(disk, t.name)
  {
    var ps := Parents(RawOf(disk, t.name)).value;
    forall i, j | 0 <= i < j < |ps| ensures disk.resolve(ps[i]) != disk.resolve(ps[j]) {
      BranchesApart(t.parents, i, j);
      RootIn(t.parents[i]);
      RootIn(t.parents[j]);
    }
  }

  lemma RootIn(t: Tree)
    ensures t.name in Names(PostOrder(t))
  {
    DistinctJoin(PostOrderAll(t.parents), [t.name]);
    assert t.name in Names([t.name]);
  }

  /** Whatever stands in a tree is reached from its root. */
  lemma {:induction false} WayTo(disk: Disk, t: Tree, n: Name) returns (q: seq<Name>)
    requires Unfolds(disk, t) && n in Names(PostOrder(t))
    ensures From(disk, t.name, q) && q[|q| - 1] == n
    decreases t, 0
  {
    DistinctJoin(PostOrderAll(t.parents), [t.name]);
    assert Names([t.name]) == {t.name};
    if n == t.name {
      q := [n];
    } else {
      var i := BranchOf(t.parents, n);
      var rest := WayTo(disk, t.parents[i], n);
      q := [t.name] + rest;
      StepOn(disk, t, i);
      Longer(disk, t.name, rest);
    }
  }

  lemma {:induction false} BranchOf(ts: seq<Tree>, n: Name) returns (i: nat)
    requires n in Names(PostOrderAll(ts))
    ensures i < |ts| && n in Names(PostOrder(ts[i]))
  {
    var last := |ts| - 1;
    DistinctJoin(PostOrderAll(ts[..last]), PostOrder(ts[last]));
    if n in Names(PostOrder(ts[last])) {
      i := last;
    } else {
      i := BranchOf(ts[..last], n);
    }
  }

  lemma StepOn(disk: Disk, t: Tree, i: nat)
    requires Unfolds(disk, t) && i < |t.parents|
    ensures Extends(disk, t.name, t.parents[i].name)
  {
    var ps := Parents(RawOf(disk, t.name)).value;
    assert ps[i] in ps;
  }

  lemma Longer(disk: Disk, a: Name, q: seq<Name>)
    requires Path(disk, q) && Extends(disk, a, q[0])
    ensures Path(disk, [a] + q)
  {
    hide Extends;
    var r := [a] + q;
    forall i | 0 <= i < |r| - 1 ensures Extends(disk, r[i], r[i + 1]) {
      assert i > 0 ==> Extends(disk, q[i - 1], q[i]);
    }
  }

  /** One way on from the end of another. */
  lemma Onward(disk: Disk, p: seq<Name>, q: seq<Name>)
    requires Path(disk, p) && Path(disk, q) && Extends(disk, p[|p| - 1], q[0])
    ensures Path(disk, p + q)
  {
    hide Extends;
    var r := p + q;
    forall i | 0 <= i < |r| - 1 ensures Extends(disk, r[i], r[i + 1]) {
      if i < |p| - 1 {
        assert Extends(disk, p[i], p[i + 1]);
      } else if i >= |p| {
        assert Extends(disk, q[i - |p|], q[i - |p| + 1]);
      }
    }
  }

  lemma {:induction false} DistinctSize(xs: seq<Name>)
    requires Distinct(xs)
    ensures |Names(xs)| == |xs|
  {
    if xs != [] {
      var (front, last) := (xs[..|xs| - 1], xs[|xs| - 1]);
      DistinctSize(front);
      assert Names(xs) == Names(front) + {last} by {
        assert xs == front + [last];
        DistinctJoin(front, [last]);
        assert Names([last]) == {last};
      }
    }
  }

  /** A path goes through different files of the disk, and so is no longer than they are many. */
  lemma PathShort(disk: Disk, root: Name, p: seq<Name>)
    requires AllLoad(disk, root) && OneWay(disk, root) && From(disk, root, p)
    ensures |p| <= |disk.files.Keys|
  {
    hide Loads, Path, OneWay, AllLoad;
    forall i | 0 <= i < |p| ensures p[i] in disk.files {
      Prefix(disk, root, p, i);
      Loaded(disk, root, p[..i + 1]);
    }
    forall i, j | 0 <= i < j < |p| ensures p[i] != p[j] {
      Prefix(disk, root, p, i);
      Prefix(disk, root, p, j);
      Differ(disk, root, p[..i + 1], p[..j + 1]);
    }
    DistinctSize(p);
    Smaller(Names(p), disk.files.Keys);
  }

  lemma Prefix(disk: Disk, root: Name, p: seq<Name>, i: nat)
    requires From(disk, root, p) && i < |p|
    ensures From(disk, root, p[..i + 1]) && |p[..i + 1]| == i + 1 && p[..i + 1][i] == p[i]
  {
    hide Extends;
  }

  lemma Loaded(disk: Disk, root: Name, p: seq<Name>)
    requires AllLoad(disk, root) && From(disk, root, p)
    ensures |p| > 0 && p[|p| - 1] in disk.files
  {
    assert Loads(disk, p[|p| - 1]);
  }

  lemma Differ(disk: Disk, root: Name, p: seq<Name>, q: seq<Name>)
    requires OneWay(disk, root) && From(disk, root, p) && From(disk, root, q) && |p| != |q|
    ensures |p| > 0 && |q| > 0 && p[|p| - 1] != q[|q| - 1]
  {
  }

  lemma {:induction false} Smaller(a: set<Name>, b: set<Name>)
    requires a <= b
    ensures |a| <= |b|
  {
    if a != {} {
      var x :| x in a;
      Smaller(a - {x}, b - {x});
    }
  }

  /** The tree below the end of a path. */
  lemma {:induction false} Grown(disk: Disk, root: Name, p: seq<Name>) returns (t: Tree)
    requires AllLoad(disk, root) && OneWay(disk, root) && From(disk, root, p)
    ensures Unfolds(disk, t) && t.name == p[|p| - 1] && Distinct(PostOrder(t))
    decreases |disk.files.Keys| - |p|, 1
  {
    var name := p[|p| - 1];
    assert Loads(disk, name);
    var ps := Parents(RawOf(disk, name)).value;
    var ts := GrownAll(disk, root, p, ps);
    t := Node(name, ts);
    RootApart(disk, root, p, t);
    DistinctJoin(PostOrderAll(ts), [name]);
    assert Names([name]) == {name};
  }

  lemma {:induction false} GrownAll(disk: Disk, root: Name, p: seq<Name>, ps: seq<Value>) returns (ts: seq<Tree>)
    requires AllLoad(disk, root) && OneWay(disk, root) && From(disk, root, p)
    requires Loads(disk, p[|p| - 1]) && ps <= Parents(RawOf(disk, p[|p| - 1])).value
    ensures UnfoldAll(disk, ps, ts) && Distinct(PostOrderAll(ts))
    decreases |disk.files.Keys| - |p|, 0, |ps|
  {
    hide AllLoad, OneWay, Extends, Loads, Unfolds, Distinct;
    if ps == [] {
      ts := [];
      PostOrderNone();
    } else {
      var n := |ps| - 1;
      var parent := NextParent(disk, root, p, ps);
      var front := GrownAll(disk, root, p, ps[..n]);
      var last := Grown(disk, root, p + [parent]);
      ts := front + [last];
      assert ts[..n] == front;
      LastApart(disk, root, p, ps, front, last);
      DistinctJoin(PostOrderAll(front), PostOrder(last));
    }
  }

  lemma PostOrderNone()
    ensures Distinct(PostOrderAll([]))
  {
  }

  lemma NextParent(disk: Disk, root: Name, p: seq<Name>, ps: seq<Value>) returns (parent: Name)
    requires AllLoad(disk, root) && OneWay(disk, root) && From(disk, root, p) && ps != []
    requires Loads(disk, p[|p| - 1]) && ps <= Parents(RawOf(disk, p[|p| - 1])).value
    ensures disk.resolve(ps[|ps| - 1]) == Some(parent) && From(disk, root, p + [parent])
    ensures |p| < |p + [parent]| <= |disk.files.Keys| && ps[..|ps| - 1] <= Parents(RawOf(disk, p[|p| - 1])).value
  {
    var (n, name) := (|ps| - 1, p[|p| - 1]);
    var all := Parents(RawOf(disk, name)).value;
    assert ps[n] == all[n] && ps[n] in all;
    parent := disk.resolve(ps[n]).value;
    assert Extends(disk, name, parent);
    Onward(disk, p, [parent]);
    PathShort(disk, root, p + [parent]);
  }

  /** Two ways through different parents cannot meet. */
  lemma LastApart(disk: Disk, root: Name, p: seq<Name>, ps: seq<Value>, front: seq<Tree>, last: Tree)
    requires OneWay(disk, root) && From(disk, root, p) && |p| > 0 && Loads(disk, p[|p| - 1])
    requires ps != [] && ps <= Parents(RawOf(disk, p[|p| - 1])).value
    requires UnfoldAll(disk, ps[..|ps| - 1], front) && Unfolds(disk, last) &&
      disk.resolve(ps[|ps| - 1]) == Some(last.name)
    ensures Names(PostOrderAll(front)) !! Names(PostOrder(last))
  {
    var (name, all) := (p[|p| - 1], Parents(RawOf(disk, p[|p| - 1])).value);
    forall x | x in Names(PostOrderAll(front)) ensures x !in Names(PostOrder(last)) {
      if x in Names(PostOrder(last)) {
        var i := BranchOf(front, x);
        var a := WayTo(disk, front[i], x);
        var b := WayTo(disk, last, x);
        assert ps[i] == all[i] && ps[i] in all && ps[|ps| - 1] == all[|ps| - 1] && ps[|ps| - 1] in all;
        assert Extends(disk, name, front[i].name) && Extends(disk, name, last.name);
        Onward(disk, p, a);
        Onward(disk, p, b);
        Meet(disk, root, p, a, b);
      }
    }
  }

  lemma Meet(disk: Disk, root: Name, p: seq<Name>, a: seq<Name>, b: seq<Name>)
    requires OneWay(disk, root) && |p| > 0 && |a| > 0 && |b| > 0
    requires From(disk, root, p + a) && From(disk, root, p + b) && a[|a| - 1] == b[|b| - 1]
    ensures a[0] == b[0]
  {
    hide From;
    var (x, y) := (p + a, p + b);
    assert x[|x| - 1] == a[|a| - 1] && y[|y| - 1] == b[|b| - 1];
    assert x == y;
    assert x[|p|] == a[0] && y[|p|] == b[0];
  }

  /** The root of a tree does not stand below itself. */
  lemma RootApart(disk: Disk, root: Name, p: seq<Name>, t: Tree)
    requires OneWay(disk, root) && From(disk, root, p) && Unfolds(disk, t) && t.name == p[|p| - 1]
    ensures t.name !in Names(PostOrderAll(t.parents))
  {
    if t.name in Names(PostOrderAll(t.parents)) {
      var i := BranchOf(t.parents, t.name);
      var q := WayTo(disk, t.parents[i], t.name);
      StepOn(disk, t, i);
      Onward(disk, p, q);
      assert |p + q| > |p| && (p + q)[|p + q| - 1] == q[|q| - 1];
      Differ(disk, root, p, p + q);
    }
  }

  /** Composition succeeds exactly when every file that can be reached loads and is reached on one
      path only. */
  lemma ComposePathsIff(disk: Disk, name: Name)
    ensures Compose(disk, name, {}).Ok? <==> AllLoad(disk, name) && OneWay(disk, name)
  {
    if Compose(disk, name, {}).Ok? {
      var t := UnfoldingOf(disk, name, {});
      ComposeOnTree(disk, t, {});
      forall p | From(disk, name, p) ensures Loads(disk, p[|p| - 1]) {
        TreeLoads(disk, t, p);
      }
      forall p, q | From(disk, name, p) && From(disk, name, q) && p[|p| - 1] == q[|q| - 1] ensures p == q {
        OnePath(disk, t, p, q);
      }
    }
    if AllLoad(disk, name) && OneWay(disk, name) {
      assert From(disk, name, [name]);
      var t := Grown(disk, name, [name]);
      ComposeOnTree(disk, t, {});
    }
    hide Compose, Loads, Path;
  }

  // ---- the flat form ----

  /** The bodies of the files merged from left to right. */
  function Flat(disk: Disk, names: seq<Name>): Entries
    requires Names(names) <= disk.files.Keys
  {
    if names == [] then map[]
    else
      assert names[|names| - 1] in Names(names);
      assert Names(names[..|names| - 1]) <= Names(names);
      MergeEntries(Flat(disk, names[..|names| - 1]), Body(RawOf(disk, names[|names| - 1])))
  }

  function BodyOf(disk: Disk, name: Name): Value
    requires name in disk.files
  {
    Dict(Body(RawOf(disk, name)))
  }

  /** No path is a dictionary in one of the files and something else in another. */
  ghost predicate Agree(disk: Disk, names: set<Name>)
    requires names <= disk.files.Keys
  {
    forall a, b :: a in names && b in names ==> Compatible(BodyOf(disk, a), BodyOf(disk, b))
  }

  lemma {:induction false} FlatCompatible(disk: Disk, names: seq<Name>, x: Entries)
    requires Names(names) <= disk.files.Keys && Agree(disk, Names(names))
    requires forall n :: n in Names(names) ==> Compatible(Dict(x), BodyOf(disk, n))
    ensures Compatible(Dict(x), Dict(Flat(disk, names)))
  {
    if names != [] {
      var (front, last) := (names[..|names| - 1], names[|names| - 1]);
      assert last in Names(names);
      assert Names(front) <= Names(names);
      FlatCompatible(disk, front, x);
      FlatCompatible(disk, front, BodyOf(disk, last).entries);
      CompatibleSymmetric(BodyOf(disk, last), Dict(Flat(disk, front)));
      CompatibleMerge(Dict(x), Dict(Flat(disk, front)), BodyOf(disk, last));
    }
  }

  lemma {:induction false} FlatJoin(disk: Disk, xs: seq<Name>, ys: seq<Name>)
    requires Names(xs) + Names(ys) <= disk.files.Keys && Agree(disk, Names(xs) + Names(ys))
    ensures Names(xs + ys) <= disk.files.Keys
    ensures Flat(disk, xs + ys) == MergeEntries(Flat(disk, xs), Flat(disk, ys))
  {
    DistinctJoin(xs, ys);
    if ys == [] {
      assert xs + ys == xs;
      MergeEmpty(Flat(disk, xs));
    } else {
      var (front, last) := (ys[..|ys| - 1], ys[|ys| - 1]);
      assert last in Names(ys);
      assert Names(front) <= Names(ys);
      FlatJoin(disk, xs, front);
      FlatJoinMore(disk, xs, front, last);
      assert front + [last] == ys;
    }
    hide Flat, Merge, Agree, Names, Distinct;
  }

  lemma FlatJoinMore(disk: Disk, xs: seq<Name>, front: seq<Name>, last: Name)
    requires Names(xs) + Names(front) + {last} <= disk.files.Keys && Agree(disk, Names(xs) + Names(front) + {last})
    requires Names(xs + front) <= disk.files.Keys && Names(xs + (front + [last])) <= disk.files.Keys
    requires Names(front + [last]) <= disk.files.Keys
    requires Flat(disk, xs + front) == MergeEntries(Flat(disk, xs), Flat(disk, front))
    ensures Flat(disk, xs + (front + [last])) == MergeEntries(Flat(disk, xs), Flat(disk, front + [last]))
  {
    hide Flat, Merge, Compatible, NoClash, RawOf, Body, Agree, Distinct;
    FlatNoClash(disk, xs, front, last);
    MergeAssociativeIff(Dict(Flat(disk, xs)), Dict(Flat(disk, front)), BodyOf(disk, last));
    FlatMore(disk, front, last);
    FlatMore(disk, xs + front, last);
    assert xs + front + [last] == xs + (front + [last]);
  }

  lemma FlatMore(disk: Disk, names: seq<Name>, last: Name)
    requires Names(names) <= disk.files.Keys && last in disk.files
    ensures Names(names + [last]) <= disk.files.Keys
    ensures Dict(Flat(disk, names + [last])) == Merge(Dict(Flat(disk, names)), BodyOf(disk, last))
  {
    assert (names + [last])[..|names|] == names;
    hide Merge, RawOf, Body;
  }

  lemma FlatNoClash(disk: Disk, xs: seq<Name>, ys: seq<Name>, last: Name)
    requires Names(xs) + Names(ys) + {last} <= disk.files.Keys && Agree(disk, Names(xs) + Names(ys) + {last})
    ensures NoClash(Dict(Flat(disk, xs)), Dict(Flat(disk, ys)), BodyOf(disk, last))
  {
    hide Merge, Compatible, NoClash, RawOf, Body;
    var (a, b, c) := (Dict(Flat(disk, xs)), Dict(Flat(disk, ys)), BodyOf(disk, last));
    forall n | n in Names(ys) ensures Compatible(a, BodyOf(disk, n)) {
      FlatCompatible(disk, xs, BodyOf(disk, n).entries);
      CompatibleSymmetric(BodyOf(disk, n), a);
    }
    FlatCompatible(disk, ys, a.entries);
    FlatCompatible(disk, ys, c.entries);
    CompatibleSymmetric(c, b);
    CompatibleNoClash(a, b, c);
  }

  lemma AgreeFewer(disk: Disk, a: set<Name>, b: set<Name>)
    requires a <= b <= disk.files.Keys
    ensures Agree(disk, b) ==> Agree(disk, a)
  {
    hide Compatible;
  }

  lemma {:induction false} NestedIsFlat(disk: Disk, t: Tree)
    requires Unfolds(disk, t)
    ensures Names(PostOrder(t)) <= disk.files.Keys
    ensures Agree(disk, Names(PostOrder(t))) ==> Nested(disk, t) == Flat(disk, PostOrder(t))
    decreases t, 0
  {
    hide Merge, Compatible, Agree;
    var raw := RawOf(disk, t.name);
    DistinctJoin(PostOrderAll(t.parents), [t.name]);
    assert Names([t.name]) == {t.name};
    NestedAllIsFlat(disk, Parents(raw).value, t.parents);
    assert PostOrder(t)[..|PostOrder(t)| - 1] == PostOrderAll(t.parents);
    MergeEmpty(raw);
    AgreeFewer(disk, Names(PostOrderAll(t.parents)), Names(PostOrder(t)));
  }

  lemma {:induction false} NestedAllIsFlat(disk: Disk, parents: seq<Value>, ts: seq<Tree>)
    requires UnfoldAll(disk, parents, ts)
    ensures Names(PostOrderAll(ts)) <= disk.files.Keys
    ensures Agree(disk, Names(PostOrderAll(ts))) ==> NestedAll(disk, parents, ts) == Flat(disk, PostOrderAll(ts))
    decreases ts, 1
  {
    if ts != [] {
      var n := |ts| - 1;
      DistinctJoin(PostOrderAll(ts[..n]), PostOrder(ts[n]));
      NestedAllIsFlat(disk, parents[..n], ts[..n]);
      NestedIsFlat(disk, ts[n]);
      if Agree(disk, Names(PostOrderAll(ts))) {
        FlatJoin(disk, PostOrderAll(ts[..n]), PostOrder(ts[n]));
      }
    }
  }

  /** Main result: a composition that succeeds visits the files of its inheritance tree once each,
      and where they agree on what is a dictionary it equals merging them one after another, parents
      first. */
  lemma ComposeIsFlat(disk: Disk, name: Name) returns (t: Tree)
    requires Compose(disk, name, {}).Ok?
    ensures Unfolds(disk, t) && t.name == name && Distinct(PostOrder(t))
    ensures Compose(disk, name, {}).value.1 == Names(PostOrder(t)) <= disk.files.Keys
    ensures Agree(disk, Names(PostOrder(t))) ==> Compose(disk, name, {}).value.0 == Flat(disk, PostOrder(t))
  {
    t := UnfoldingOf(disk, name, {});
    ComposeOnTree(disk, t, {});
    NestedIsFlat(disk, t);
    assert {} + Names(PostOrder(t)) == Names(PostOrder(t));
  }

  // ---- keys ----

  lemma {:induction false} NestedKeys(disk: Disk, t: Tree, k: Key)
    requires Unfolds(disk, t)
    ensures Names(PostOrder(t)) <= disk.files.Keys
    ensures k in Nested(disk, t) <==> exists n :: n in Names(PostOrder(t)) && k in Body(RawOf(disk, n))
    decreases t, 0
  {
    var raw := RawOf(disk, t.name);
    DistinctJoin(PostOrderAll(t.parents), [t.name]);
    assert t.name in Names([t.name]);
    assert Names([t.name]) == {t.name};
    NestedAllKeys(disk, Parents(raw).value, t.parents, k);
  }

  lemma {:induction false} NestedAllKeys(disk: Disk, parents: seq<Value>, ts: seq<Tree>, k: Key)
    requires UnfoldAll(disk, parents, ts)
    ensures Names(PostOrderAll(ts)) <= disk.files.Keys
    ensures k in NestedAll(disk, parents, ts) <==> exists n :: n in Names(PostOrderAll(ts)) && k in Body(RawOf(disk, n))
    decreases ts, 1
  {
    if ts != [] {
      var n := |ts| - 1;
      DistinctJoin(PostOrderAll(ts[..n]), PostOrder(ts[n]));
      NestedAllKeys(disk, parents[..n], ts[..n], k);
      NestedKeys(disk, ts[n], k);
    }
  }

  /** The composed configuration still carries an `extends` key exactly when some file of the tree
      has one that names nobody. */
  lemma ExtendsLeaksIff(disk: Disk, t: Tree)
    requires Unfolds(disk, t) && Distinct(PostOrder(t))
    ensures Compose(disk, t.name, {}).Ok? && Names(PostOrder(t)) <= disk.files.Keys
    ensures EXTENDS in Compose(disk, t.name, {}).value.0 <==>
            exists n :: n in Names(PostOrder(t)) && EXTENDS in RawOf(disk, n) && !Inherits(RawOf(disk, n))
  {
    ComposeOnTree(disk, t, {});
    NestedKeys(disk, t, EXTENDS);
    assert forall n :: n in Names(PostOrder(t)) ==>
      (EXTENDS in Body(RawOf(disk, n)) <==> EXTENDS in RawOf(disk, n) && !Inherits(RawOf(disk, n)));
  }
}
