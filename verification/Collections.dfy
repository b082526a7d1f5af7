/** Sequence and set helpers shared by the components. */
module Collections {
  /** The last `n` elements, or all of them: what deleting the excess from the front leaves. */
  function Last<T>(xs: seq<T>, n: nat): seq<T> {
    if |xs| > n then xs[|xs| - n..] else xs
  }

  lemma Pick<T>(s: set<T>) returns (x: T)
    requires s != {}
    ensures x in s
  {
    x :| x in s;
  }

  /** A set of consecutive integers has as many members as the interval is long. */
  lemma {:induction false} IntervalSize(ids: set<int>, lo: int, hi: int)
    requires lo <= hi
    requires forall i :: i in ids <==> lo <= i < hi
    ensures |ids| == hi - lo
  {
    if lo == hi {
      if ids != {} {
        var x := Pick(ids);
      }
    } else {
      IntervalSize(ids - {hi - 1}, lo, hi - 1);
    }
  }

  lemma MultisetCancel<T>(a: multiset<T>, b: multiset<T>, w: T)
    requires a + multiset{w} == b + multiset{w}
    ensures a == b
  {
    assert a == a + multiset{w} - multiset{w};
    assert b == b + multiset{w} - multiset{w};
  }

  /** Of two lists with the same members the last member of the first stands somewhere in the second. */
  lemma WithoutLast<T>(a: seq<T>, b: seq<T>) returns (front: seq<T>, rest: seq<T>)
    requires a != [] && multiset(a) == multiset(b)
    ensures b == front + [a[|a| - 1]] + rest && multiset(a[..|a| - 1]) == multiset(front + rest)
  {
    var w := a[|a| - 1];
    assert w in multiset(a);
    assert w in multiset(b);
    var k :| 0 <= k < |b| && b[k] == w;
    front, rest := b[..k], b[k + 1..];
    assert a == a[..|a| - 1] + [w] && b == front + [w] + rest;
    assert multiset(a) == multiset(a[..|a| - 1]) + multiset{w};
    assert multiset(b) == multiset(front + rest) + multiset{w};
    MultisetCancel(multiset(a[..|a| - 1]), multiset(front + rest), w);
  }

  /** The members of the groups, one group after another. */
  function Flat<T>(gs: seq<seq<T>>): seq<T> {
    if gs == [] then [] else Flat(gs[..|gs| - 1]) + gs[|gs| - 1]
  }

  lemma FlatMore<T>(gs: seq<seq<T>>, g: seq<T>)
    ensures Flat(gs + [g]) == Flat(gs) + g
  {
    assert (gs + [g])[..|gs|] == gs;
  }

  lemma {:induction false} FlatFirst<T>(gs: seq<seq<T>>)
    requires gs != []
    ensures Flat(gs) == gs[0] + Flat(gs[1..])
  {
    var (n, rest) := (|gs| - 1, gs[1..]);
    if n == 0 {
      assert Flat(gs[..0]) == [];
    } else {
      FlatFirst(gs[..n]);
      assert gs[..n][1..] == rest[..n - 1];
      assert gs[0] + Flat(rest[..n - 1]) + gs[n] == gs[0] + (Flat(rest[..n - 1]) + gs[n]);
    }
  }

  lemma {:induction false} FlatJoin<T>(gs: seq<seq<T>>, hs: seq<seq<T>>)
    ensures Flat(gs + hs) == Flat(gs) + Flat(hs)
  {
    if hs == [] {
      assert gs + hs == gs;
    } else {
      FlatJoin(gs, hs[..|hs| - 1]);
      assert (gs + hs)[..|gs + hs| - 1] == gs + hs[..|hs| - 1];
    }
  }

  lemma FlatCut<T>(gs: seq<seq<T>>, a: nat)
    requires a <= |gs|
    ensures Flat(gs) == Flat(gs[..a]) + Flat(gs[a..])
  {
    hide Flat;
    assert gs == gs[..a] + gs[a..];
    FlatJoin(gs[..a], gs[a..]);
  }

  /** Some consecutive groups are a part of all members. */
  lemma FlatPart<T>(gs: seq<seq<T>>, a: nat, b: nat)
    requires a <= b <= |gs|
    ensures Flat(gs) == Flat(gs[..a]) + Flat(gs[a..b]) + Flat(gs[b..])
  {
    hide Flat;
    FlatCut(gs, b);
    var front := gs[..b];
    FlatCut(front, a);
    assert front[..a] == gs[..a] && front[a..] == gs[a..b];
  }

  // ---- stable insertion sort ----

  ghost predicate TotalPreorder<T(!new)>(le: (T, T) -> bool) {
    && (forall a, b :: le(a, b) || le(b, a))
    && (forall a, b, c :: le(a, b) && le(b, c) ==> le(a, c))
  }

  ghost predicate SortedBy<T>(le: (T, T) -> bool, xs: seq<T>) {
    forall i, j :: 0 <= i < j < |xs| ==> le(xs[i], xs[j])
  }

  /** The new element goes after those that may stand before it, so equal ones keep their order. */
  function InsertBy<T>(le: (T, T) -> bool, xs: seq<T>, x: T): seq<T> {
    if xs == [] || le(xs[|xs| - 1], x) then xs + [x] else InsertBy(le, xs[..|xs| - 1], x) + [xs[|xs| - 1]]
  }

  lemma {:induction false} InsertByKeeps<T(!new)>(le: (T, T) -> bool, xs: seq<T>, x: T)
    requires TotalPreorder(le) && SortedBy(le, xs)
    ensures SortedBy(le, InsertBy(le, xs, x)) && multiset(InsertBy(le, xs, x)) == multiset(xs) + multiset{x}
    ensures forall y :: y in InsertBy(le, xs, x) ==> y in xs || y == x
  {
    if xs == [] || le(xs[|xs| - 1], x) {
      SortedMore(le, xs, x);
    } else {
      var (front, last) := (xs[..|xs| - 1], xs[|xs| - 1]);
      assert xs == front + [last];
      InsertByKeeps(le, front, x);
      assert forall y :: y in front ==> exists i :: 0 <= i < |front| && xs[i] == y;
      SortedMore(le, InsertBy(le, front, x), last);
    }
  }

  lemma SortedMore<T(!new)>(le: (T, T) -> bool, xs: seq<T>, x: T)
    requires TotalPreorder(le) && SortedBy(le, xs)
    requires xs == [] || le(xs[|xs| - 1], x) || forall y :: y in xs ==> le(y, x)
    ensures SortedBy(le, xs + [x])
  {
    forall i | 0 <= i < |xs| ensures le(xs[i], x) {
      assert i < |xs| - 1 ==> le(xs[i], xs[|xs| - 1]);
    }
  }

  function SortedOf<T>(le: (T, T) -> bool, xs: seq<T>): seq<T> {
    if xs == [] then [] else InsertBy(le, SortedOf(le, xs[..|xs| - 1]), xs[|xs| - 1])
  }

  /** Sorting sorts, loses nothing, and leaves a sorted list alone. */
  lemma {:induction false} SortedOfIs<T(!new)>(le: (T, T) -> bool, xs: seq<T>)
    requires TotalPreorder(le)
    ensures SortedBy(le, SortedOf(le, xs)) && multiset(SortedOf(le, xs)) == multiset(xs)
    ensures SortedBy(le, xs) ==> SortedOf(le, xs) == xs
  {
    if xs != [] {
      var (front, last) := (xs[..|xs| - 1], xs[|xs| - 1]);
      assert xs == front + [last];
      SortedOfIs(le, front);
      InsertByKeeps(le, SortedOf(le, front), last);
    }
  }

  method SortBy<T>(le: (T, T) -> bool, xs: seq<T>) returns (ys: seq<T>)
    ensures ys == SortedOf(le, xs)
  {
    ys := [];
    for i := 0 to |xs|
      invariant ys == SortedOf(le, xs[..i])
    {
      assert xs[..i + 1][..i] == xs[..i];
      ys := InsertBy(le, ys, xs[i]);
    }
    assert xs[..|xs|] == xs;
  }

  // ---- joining ----

  lemma SplitLast<T>(a: seq<T>, front: seq<T>, b: seq<T>)
    requires b != [] && front == b[..|b| - 1]
    ensures b == front + [b[|b| - 1]] && a + b == a + front + [b[|b| - 1]]
  {
  }

  lemma Grouped<T>(a: seq<T>, b: seq<T>, c: seq<T>)
    ensures a + b + c == a + (b + c)
  {
  }
}
