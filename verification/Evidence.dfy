/** Evidence arithmetic over the reals: saturation against peers, baselines, utility and threshold. */
module Evidence {
  import opened Collections

  // ---- sums and maxima ----

  function Sum(f: real -> real, xs: seq<real>): real {
    if xs == [] then 0.0 else Sum(f, xs[..|xs| - 1]) + f(xs[|xs| - 1])
  }

  function Same(x: real): real {
    x
  }

  function Sign(x: real): real {
    if x > 0.0 then 1.0 else 0.0
  }

  function Mean(xs: seq<real>): real {
    if xs == [] then 0.0 else Over(Sum(Same, xs), |xs| as real)
  }

  function Maximum(xs: seq<real>): (m: real)
    requires xs != []
    ensures m in xs && forall x :: x in xs ==> x <= m
  {
    if |xs| == 1 then xs[0]
    else
      var (rest, last) := (Maximum(xs[..|xs| - 1]), xs[|xs| - 1]);
      assert xs == xs[..|xs| - 1] + [last];
      if rest >= last then rest else last
  }

  function Minimum(xs: seq<real>): (m: real)
    requires xs != []
    ensures m in xs && forall x :: x in xs ==> m <= x
  {
    if |xs| == 1 then xs[0]
    else
      var (rest, last) := (Minimum(xs[..|xs| - 1]), xs[|xs| - 1]);
      assert xs == xs[..|xs| - 1] + [last];
      if rest <= last then rest else last
  }

  function Clip(x: real): real {
    if x > 1.0 then 1.0 else if x < 0.0 then 0.0 else x
  }

  // ---- products and quotients ----

  function Times(x: real, y: real): real {
    x * y
  }

  function Over(x: real, y: real): real
    requires y != 0.0
  {
    x / y
  }

  /** What is left of one. */
  function Rest(x: real): real {
    1.0 - x
  }

  lemma TimesBetween(x: real, lo: real, hi: real, y: real)
    requires x >= 0.0 && lo <= y <= hi
    ensures lo * x <= Times(x, y) <= hi * x
  {
  }

  lemma TimesLe(c: real, x: real, y: real)
    requires c >= 0.0 && x <= y
    ensures Times(c, x) <= Times(c, y)
  {
  }

  lemma TimesPositive(x: real, y: real)
    requires x > 0.0 && y > 0.0
    ensures Times(x, y) > 0.0
  {
  }

  lemma TimesCommute(x: real, y: real)
    ensures Times(x, y) == Times(y, x)
  {
  }

  lemma TimesSum(c: real, x: real, y: real)
    ensures Times(c, x + y) == Times(c, x) + Times(c, y)
  {
  }

  lemma TimesThird(c: real, x: real, y: real)
    ensures Times(Times(c, x), y) == Times(c, Times(x, y))
  {
  }

  lemma OverTimes(x: real, y: real)
    requires y != 0.0
    ensures Times(Over(x, y), y) == x
  {
  }

  /** Quotients compare as their cross products do. */
  lemma OverLe(a: real, b: real, c: real, d: real)
    requires b > 0.0 && d > 0.0 && Times(a, d) <= Times(c, b)
    ensures Over(a, b) <= Over(c, d)
  {
    var (p, q) := (Over(a, b), Over(c, d));
    OverTimes(a, b);
    OverTimes(c, d);
    assert Times(p - q, Times(b, d)) == Times(Times(p, b), d) - Times(Times(q, d), b);
    TimesPositive(b, d);
    if p > q {
      TimesPositive(p - q, Times(b, d));
    }
  }

  lemma OverScaled(c: real, x: real, y: real)
    requires c > 0.0 && y > 0.0
    ensures Times(c, y) > 0.0 && Over(Times(c, x), Times(c, y)) == Over(x, y)
  {
    TimesPositive(c, y);
    assert Times(Times(c, x), y) == Times(x, Times(c, y));
    OverLe(Times(c, x), Times(c, y), x, y);
    OverLe(x, y, Times(c, x), Times(c, y));
  }

  // ---- saturation ----

  /** What a value is measured against: the mean of its peers, but at least a quarter of itself. */
  function Base(value: real, peers: seq<real>): (b: real)
    ensures value > 0.0 ==> b > 0.0
    ensures b >= value * 0.25
  {
    var b := if peers != [] then Mean(peers) else value;
    if b > value * 0.25 then b else value * 0.25
  }

  function Saturate(value: real, peers: seq<real>): real {
    if value <= 0.0 then 0.0 else Clip(Over(value, value + Base(value, peers)))
  }

  /** A quotient of a value by itself and a base of at least a quarter of it. */
  lemma OverRange(v: real, b: real)
    requires v > 0.0 && b >= v * 0.25
    ensures 0.0 < Over(v, v + b) <= 0.8
    ensures Over(v, v + b) == 0.8 <==> b == v * 0.25
  {
    var q := Over(v, v + b);
    OverTimes(v, v + b);
    assert Times(v, 5.0) <= Times(4.0, v + b);
    OverLe(v, v + b, 4.0, 5.0);
    assert Over(4.0, 5.0) == 0.8;
    if q <= 0.0 {
      TimesLe(v + b, q, 0.0);
      TimesCommute(v + b, q);
    }
    assert Times(0.8, v + b) == v <==> b == v * 0.25;
    if b == v * 0.25 {
      OverLe(4.0, 5.0, v, v + b);
    }
  }

  /** A saturated value lies between zero and four fifths; it is zero only for a value that is not
      positive, and is four fifths exactly when the peers' mean is at most a quarter of the value. */
  lemma SaturateRange(value: real, peers: seq<real>)
    ensures 0.0 <= Saturate(value, peers) <= 0.8
    ensures Saturate(value, peers) > 0.0 <==> value > 0.0
    ensures value > 0.0 ==> Saturate(value, peers) == Over(value, value + Base(value, peers))
    ensures value > 0.0 && peers != [] ==> (Saturate(value, peers) == 0.8 <==> Mean(peers) <= value * 0.25)
  {
    if value > 0.0 {
      OverRange(value, Base(value, peers));
    }
    hide Over, Mean;
  }

  /** Saturation is monotone in the value. */
  lemma SaturateMonotone(v: real, w: real, peers: seq<real>)
    requires v <= w
    ensures Saturate(v, peers) <= Saturate(w, peers)
  {
    SaturateRange(v, peers);
    SaturateRange(w, peers);
    hide Times, Over, Saturate, Base;
    if v > 0.0 {
      var (bv, bw) := (Base(v, peers), Base(w, peers));
      BasesCross(v, w, peers);
      TimesSum(v, w, bw);
      TimesSum(w, v, bv);
      TimesCommute(v, w);
      OverLe(v, v + bv, w, w + bw);
    }
  }

  lemma BasesCross(v: real, w: real, peers: seq<real>)
    requires 0.0 < v <= w
    ensures Times(v, Base(w, peers)) <= Times(w, Base(v, peers))
  {
    var (bv, bw) := (Base(v, peers), Base(w, peers));
    TimesCommute(v, w);
    if bw == w * 0.25 {
      TimesLe(w, v * 0.25, bv);
      assert Times(v, w * 0.25) == Times(w, v * 0.25);
    } else if peers != [] {
      assert bw == Mean(peers) <= bv;
      TimesLe(bw, v, w);
      TimesCommute(bw, v);
      TimesCommute(bw, w);
      TimesLe(w, bw, bv);
    }
    hide Mean, Times;
  }

  // ---- the baseline of a group ----

  function Positive(xs: seq<real>): (ps: seq<real>)
    ensures forall p :: p in ps <==> p in xs && p > 0.0
    ensures |ps| as real == Sum(Sign, xs)
  {
    if xs == [] then []
    else
      assert xs == xs[..|xs| - 1] + [xs[|xs| - 1]];
      Positive(xs[..|xs| - 1]) + if xs[|xs| - 1] > 0.0 then [xs[|xs| - 1]] else []
  }

  /** The greatest saturated value. */
  function MaxSaturate(vs: seq<real>, peers: seq<real>): real
    requires vs != []
  {
    if |vs| == 1 then Saturate(vs[0], peers)
    else
      var (rest, last) := (MaxSaturate(vs[..|vs| - 1], peers), Saturate(vs[|vs| - 1], peers));
      if rest >= last then rest else last
  }

  function AtMostOne(x: real): real {
    if x < 1.0 then x else 1.0
  }

  function PeerBaseline(values: seq<real>): real {
    var ps := Positive(values);
    if ps == [] then 0.0
    else if |ps| == 1 && |values| == 1 then AtMostOne(ps[0])
    else if |ps| == 1 then AtMostOne(ps[0] * 0.85)
    else MaxSaturate(ps, values)
  }

  lemma {:induction false} MaxSaturateIs(vs: seq<real>, peers: seq<real>)
    requires vs != []
    ensures MaxSaturate(vs, peers) == Saturate(Maximum(vs), peers)
  {
    if |vs| > 1 {
      var (front, last) := (vs[..|vs| - 1], vs[|vs| - 1]);
      MaxSaturateIs(front, peers);
      if Maximum(front) >= last {
        SaturateMonotone(last, Maximum(front), peers);
      } else {
        SaturateMonotone(Maximum(front), last, peers);
      }
    }
    hide Saturate;
  }

  lemma MaximumOfPositive(xs: seq<real>)
    requires Positive(xs) != []
    ensures xs != [] && Maximum(Positive(xs)) == Maximum(xs) > 0.0
  {
    var ps := Positive(xs);
    assert ps[0] in ps && ps[0] in xs;
    assert Maximum(ps) in xs;
    assert Maximum(xs) in ps;
  }

  /** The baseline depends on the greatest value, the number of positive values and the mean only:
      with two or more positive values it is the greatest one, saturated. */
  lemma BaselineIs(values: seq<real>)
    requires values != []
    ensures
      var n := Sum(Sign, values);
      PeerBaseline(values) ==
      if n == 0.0 then 0.0
      else if n == 1.0 then AtMostOne(Maximum(values) * if |values| == 1 then 1.0 else 0.85)
      else Saturate(Maximum(values), values)
  {
    hide Saturate, Sum, Positive, Maximum, MaxSaturate, AtMostOne;
    var ps := Positive(values);
    if ps != [] {
      MaximumOfPositive(values);
      MaxSaturateIs(ps, values);
      assert |ps| == 1 ==> Maximum(ps) == ps[0];
    }
  }

  /** A baseline lies between zero and one, and is positive exactly when some value is. */
  lemma BaselineRange(values: seq<real>)
    ensures 0.0 <= PeerBaseline(values) <= 1.0
    ensures PeerBaseline(values) > 0.0 <==> exists i :: 0 <= i < |values| && values[i] > 0.0
    ensures |Positive(values)| >= 2 ==> PeerBaseline(values) == Saturate(Maximum(values), values) <= 0.8
  {
    hide Saturate, Maximum, Positive, MaxSaturate, Sum;
    var ps := Positive(values);
    if ps != [] {
      MaximumOfPositive(values);
      MaxSaturateIs(ps, values);
      SaturateRange(Maximum(values), values);
    }
    SomePositive(values);
  }

  lemma SomePositive(values: seq<real>)
    ensures Positive(values) != [] <==> exists i :: 0 <= i < |values| && values[i] > 0.0
    ensures forall i :: 0 <= i < |Positive(values)| ==> Positive(values)[i] > 0.0
  {
    hide Positive, Sum;
    var ps := Positive(values);
    assert forall i :: 0 <= i < |ps| ==> ps[i] in ps;
    if ps != [] {
      assert ps[0] in values;
    }
    if i :| 0 <= i < |values| && values[i] > 0.0 {
      assert values[i] in ps;
    }
  }

  // ---- invariance ----

  lemma {:induction false} SumSplit(f: real -> real, a: seq<real>, b: seq<real>)
    ensures Sum(f, a + b) == Sum(f, a) + Sum(f, b)
  {
    if b == [] {
      assert a + b == a;
    } else {
      SumSplit(f, a, b[..|b| - 1]);
      assert (a + b)[..|a + b| - 1] == a + b[..|b| - 1];
    }
  }

  lemma {:induction false} SumPermuted(f: real -> real, a: seq<real>, b: seq<real>)
    requires multiset(a) == multiset(b)
    ensures Sum(f, a) == Sum(f, b)
  {
    if a == [] {
      assert |multiset(b)| == |b|;
    } else {
      var (front, last) := (a[..|a| - 1], a[|a| - 1]);
      assert a == front + [last];
      assert last in multiset(b);
      var i :| 0 <= i < |b| && b[i] == last;
      var (l, r) := (b[..i], b[i + 1..]);
      assert b == l + [last] + r;
      MultisetCancel(multiset(front), multiset(l + r), last);
      SumPermuted(f, front, l + r);
      SumSplit(f, l, r);
      SumSplit(f, l + [last], r);
      SumMore(f, l, last);
    }
  }

  lemma SumMore(f: real -> real, xs: seq<real>, x: real)
    ensures Sum(f, xs + [x]) == Sum(f, xs) + f(x)
  {
    assert (xs + [x])[..|xs|] == xs;
  }

  lemma MaximumPermuted(a: seq<real>, b: seq<real>)
    requires multiset(a) == multiset(b) && a != []
    ensures b != [] && Maximum(a) == Maximum(b)
  {
    assert a[0] in multiset(a);
    assert a[0] in multiset(b);
    assert forall x :: x in a ==> x in multiset(b);
    assert forall x :: x in b ==> x in multiset(a);
    hide Maximum;
    assert Maximum(a) in b && Maximum(b) in a;
  }

  /** The order of the values does not matter. */
  lemma BaselinePermuted(a: seq<real>, b: seq<real>)
    requires multiset(a) == multiset(b)
    ensures PeerBaseline(a) == PeerBaseline(b)
  {
    assert |multiset(a)| == |a| && |multiset(b)| == |b|;
    if a != [] {
      BaselineIs(a);
      BaselineIs(b);
      SumPermuted(Sign, a, b);
      SumPermuted(Same, a, b);
      MaximumPermuted(a, b);
      hide PeerBaseline, Sum, Maximum;
      MeanOnly(Maximum(a), a, b);
    }
  }

  /** Of the peers only the mean matters. */
  lemma MeanOnly(value: real, a: seq<real>, b: seq<real>)
    requires a != [] && b != [] && Sum(Same, a) == Sum(Same, b) && |a| == |b|
    ensures Saturate(value, a) == Saturate(value, b)
  {
    hide Sum;
  }

  function Scaled(c: real, xs: seq<real>): (ys: seq<real>)
    ensures |ys| == |xs|
  {
    seq(|xs|, i requires 0 <= i < |xs| => Times(c, xs[i]))
  }

  lemma {:induction false} SumScaled(c: real, xs: seq<real>)
    requires c > 0.0
    ensures Sum(Same, Scaled(c, xs)) == Times(c, Sum(Same, xs))
    ensures Sum(Sign, Scaled(c, xs)) == Sum(Sign, xs)
  {
    if xs == [] {
      assert Times(c, 0.0) == 0.0;
    } else {
      var (front, last) := (xs[..|xs| - 1], xs[|xs| - 1]);
      SumScaled(c, front);
      SignScaled(c, last);
      TimesSum(c, Sum(Same, front), last);
      hide Times;
      assert Scaled(c, xs) == Scaled(c, front) + [Times(c, last)];
      SumMore(Same, Scaled(c, front), Times(c, last));
      SumMore(Sign, Scaled(c, front), Times(c, last));
    }
    hide Times, Scaled;
  }

  lemma SignScaled(c: real, x: real)
    requires c > 0.0
    ensures Sign(Times(c, x)) == Sign(x)
  {
    if x > 0.0 {
      TimesPositive(c, x);
    } else {
      TimesLe(c, x, 0.0);
    }
  }

  lemma MaximumScaled(c: real, xs: seq<real>)
    requires c > 0.0 && xs != []
    ensures Maximum(Scaled(c, xs)) == Times(c, Maximum(xs))
  {
    hide Times, Maximum;
    var ys := Scaled(c, xs);
    var i :| 0 <= i < |xs| && xs[i] == Maximum(xs);
    assert ys[i] in ys;
    var j :| 0 <= j < |ys| && ys[j] == Maximum(ys);
    assert xs[j] in xs;
    TimesLe(c, xs[j], Maximum(xs));
  }

  lemma MeanScaled(c: real, xs: seq<real>)
    requires c > 0.0 && xs != []
    ensures Mean(Scaled(c, xs)) == Times(c, Mean(xs))
  {
    SumScaled(c, xs);
    var (n, s) := (|xs| as real, Sum(Same, xs));
    hide Sum, Scaled;
    OverTimes(s, n);
    OverTimes(Times(c, s), n);
    TimesThird(c, Over(s, n), n);
    assert Times(Over(Times(c, s), n), n) == Times(Times(c, Over(s, n)), n);
  }

  lemma BaseScaled(c: real, v: real, peers: seq<real>)
    requires c > 0.0 && peers != []
    ensures Base(Times(c, v), Scaled(c, peers)) == Times(c, Base(v, peers))
  {
    MeanScaled(c, peers);
    var m := Mean(peers);
    assert Times(c, v) * 0.25 == Times(c, v * 0.25);
    if m > v * 0.25 {
      TimesPositive(c, m - v * 0.25);
      assert Times(c, m - v * 0.25) == Times(c, m) - Times(c, v * 0.25);
    } else {
      TimesLe(c, m, v * 0.25);
    }
    hide Mean, Scaled, Times;
  }

  lemma SaturateScaled(c: real, v: real, peers: seq<real>)
    requires c > 0.0 && v > 0.0 && peers != []
    ensures Saturate(Times(c, v), Scaled(c, peers)) == Saturate(v, peers)
  {
    BaseScaled(c, v, peers);
    TimesPositive(c, v);
    TimesSum(c, v, Base(v, peers));
    OverScaled(c, v, v + Base(v, peers));
    hide Base, Times, Over, Scaled;
  }

  /** With two or more positive values the unit of measurement does not matter. */
  lemma BaselineScaled(c: real, values: seq<real>)
    requires c > 0.0 && |Positive(values)| >= 2
    ensures PeerBaseline(Scaled(c, values)) == PeerBaseline(values)
  {
    MaximumOfPositive(values);
    hide PeerBaseline, Sum, Saturate, Maximum, Scaled, Times;
    BaselineIs(values);
    BaselineIs(Scaled(c, values));
    SumScaled(c, values);
    MaximumScaled(c, values);
    SaturateScaled(c, Maximum(values), values);
  }

  /** A list with exactly one positive value has a baseline that some change of unit changes. */
  lemma SingleNotScaled(values: seq<real>) returns (c: real)
    requires |Positive(values)| == 1
    ensures c > 0.0 && PeerBaseline(Scaled(c, values)) != PeerBaseline(values)
  {
    MaximumOfPositive(values);
    hide PeerBaseline, Sum, Saturate, Maximum, Scaled, Times, Shrink;
    c := Shrink(Maximum(values));
    Shrinks(Maximum(values));
    BaselineIs(values);
    BaselineIs(Scaled(c, values));
    SumScaled(c, values);
    MaximumScaled(c, values);
  }

  /** A factor that halves a number below one, and brings any other down to one half. */
  function Shrink(m: real): real
    requires m > 0.0
  {
    if m < 1.0 then 0.5 else Over(0.5, m)
  }

  lemma Shrinks(m: real)
    requires m > 0.0
    ensures Shrink(m) > 0.0 && Times(Shrink(m), m) == if m < 1.0 then 0.5 * m else 0.5
  {
    if m >= 1.0 {
      OverTimes(0.5, m);
      if Over(0.5, m) <= 0.0 {
        TimesLe(m, Over(0.5, m), 0.0);
        TimesCommute(m, Over(0.5, m));
      }
    }
  }

  /** The unit of measurement matters to a baseline exactly when there is one positive value, and so
      no peer to measure it by. */
  lemma BaselineScaledIff(values: seq<real>)
    ensures (forall c: real :: c > 0.0 ==> PeerBaseline(Scaled(c, values)) == PeerBaseline(values))
      <==> |Positive(values)| != 1
  {
    if |Positive(values)| == 1 {
      var c := SingleNotScaled(values);
    }
    forall c: real | c > 0.0 && |Positive(values)| != 1
      ensures PeerBaseline(Scaled(c, values)) == PeerBaseline(values)
    {
      if |Positive(values)| >= 2 {
        BaselineScaled(c, values);
      } else {
        SumScaled(c, values);
        assert |Positive(Scaled(c, values))| as real == |Positive(values)| as real;
      }
    }
  }

  // ---- utility, threshold, uncertainty ----

  /** Utility and strength of the evidence. */
  function Aggregate(pos: seq<real>, neg: seq<real>): (r: (real, real)) {
    var (strength, noise) := (PeerBaseline(pos), PeerBaseline(neg));
    (Times(Saturate(strength, pos), Rest(Saturate(noise, neg))), strength)
  }

  function Threshold(pos: seq<real>, neg: seq<real>): real {
    var (p, n) := (PeerBaseline(pos), PeerBaseline(neg));
    Times(p, Rest(Times(n, Saturate(n, pos + neg))))
  }

  function Spread(xs: seq<real>): real {
    if xs == [] then 0.0
    else
      var d := Maximum(xs) - Minimum(xs);
      if d != 0.0 then d else Mean(xs)
  }

  function Uncertainty(pos: seq<real>, neg: seq<real>, coherence: real): real {
    Clip(Times(Spread(pos + neg), Rest(coherence)))
  }

  function Margin(utility: real, threshold: real, uncertainty: real): real {
    utility - Times(threshold, Rest(uncertainty))
  }

  /** Utility lies between zero and four fifths. Noise takes away four fifths of the saturated
      strength at most, so utility is positive exactly when some positive evidence is. */
  lemma UtilityRange(pos: seq<real>, neg: seq<real>)
    ensures
      var (utility, strength) := Aggregate(pos, neg);
      && 0.0 <= utility <= 0.8
      && Saturate(strength, pos) * 0.2 <= utility <= Saturate(strength, pos)
      && (utility > 0.0 <==> exists i :: 0 <= i < |pos| && pos[i] > 0.0)
  {
    var (strength, noise) := (PeerBaseline(pos), PeerBaseline(neg));
    hide Saturate, PeerBaseline, Times;
    BaselineRange(pos);
    SaturateRange(strength, pos);
    SaturateRange(noise, neg);
    TimesBetween(Saturate(strength, pos), 0.2, 1.0, Rest(Saturate(noise, neg)));
  }

  /** Without noise utility is the saturated strength, and noise takes away four fifths of it exactly
      when it is saturated itself. What one side gains on the other by being the evidence and not the
      noise is what it has over the other without noise. */
  lemma NoiseTakes(pos: seq<real>, neg: seq<real>)
    ensures
      var (s, n) := (Saturate(PeerBaseline(pos), pos), Saturate(PeerBaseline(neg), neg));
      && Aggregate(pos, []).0 == s
      && (s > 0.0 ==> (Aggregate(pos, neg).0 == s * 0.2 <==> n == 0.8))
      && (s > 0.0 ==> (Aggregate(pos, neg).0 == s <==> forall i :: 0 <= i < |neg| ==> neg[i] <= 0.0))
    ensures Aggregate(pos, neg).0 - Aggregate(neg, pos).0 == Aggregate(pos, []).0 - Aggregate(neg, []).0
    ensures Aggregate(pos, neg).1 == PeerBaseline(pos)
  {
    var (s, n) := (Saturate(PeerBaseline(pos), pos), Saturate(PeerBaseline(neg), neg));
    assert PeerBaseline([]) == 0.0 && Saturate(0.0, []) == 0.0;
    BaselineRange(neg);
    SaturateRange(PeerBaseline(neg), neg);
    hide Saturate, PeerBaseline, Times;
    RestTimes(s, n);
    RestTimes(s, 0.0);
    RestTimes(n, s);
    RestTimes(n, 0.0);
  }

  lemma RestTimes(s: real, n: real)
    ensures n == 0.0 ==> Times(s, Rest(n)) == s
    ensures Times(s, Rest(n)) - Times(n, Rest(s)) == s - n
    ensures s > 0.0 ==> (Times(s, Rest(n)) == s <==> n == 0.0) && (Times(s, Rest(n)) == s * 0.2 <==> n == 0.8)
  {
    TimesRest(s, n);
    TimesRest(n, s);
    TimesCommute(s, n);
    TimesConstant(s);
    hide Times;
    if s > 0.0 {
      CancelLeft(s, Rest(n), 1.0);
      CancelLeft(s, Rest(n), 0.2);
    }
  }

  lemma TimesRest(s: real, n: real)
    ensures Times(s, Rest(n)) == s - Times(s, n)
  {
  }

  lemma CancelLeft(s: real, x: real, y: real)
    requires s > 0.0
    ensures Times(s, x) == Times(s, y) <==> x == y
  {
    LessLeft(s, x, y);
    LessLeft(s, y, x);
    hide Times;
  }

  lemma LessLeft(c: real, x: real, y: real)
    requires c > 0.0
    ensures Times(c, x) < Times(c, y) <==> x < y
  {
    if x < y {
      TimesPositive(c, y - x);
      assert Times(c, y - x) == Times(c, y) - Times(c, x);
    } else {
      TimesLe(c, y, x);
    }
  }

  lemma TimesConstant(x: real)
    ensures Times(x, 0.0) == Times(0.0, x) == 0.0 && Times(x, 1.0) == Times(1.0, x) == x
    ensures Times(x, 0.2) == x * 0.2 && Times(x, 0.5) == x * 0.5
  {
  }

  /** The threshold lies between a fifth of the positive baseline and the baseline itself. */
  lemma ThresholdRange(pos: seq<real>, neg: seq<real>)
    ensures PeerBaseline(pos) * 0.2 <= Threshold(pos, neg) <= PeerBaseline(pos)
    ensures 0.0 <= Threshold(pos, neg) <= 1.0
  {
    var (p, n) := (PeerBaseline(pos), PeerBaseline(neg));
    hide Saturate, PeerBaseline, Times;
    BaselineRange(pos);
    BaselineRange(neg);
    SaturateRange(n, pos + neg);
    var s := Saturate(n, pos + neg);
    TimesBetween(n, 0.0, 0.8, s);
    TimesBetween(p, 0.2, 1.0, Rest(Times(n, s)));
  }

  /** The threshold is the baseline unless there is negative evidence, which lowers it by what the
      saturation of its baseline among all peers takes of that baseline: the more the lower, and down to
      a fifth exactly for a negative baseline of one that is saturated. */
  lemma ThresholdIs(pos: seq<real>, neg: seq<real>, other: seq<real>)
    requires PeerBaseline(pos) > 0.0
    ensures
      var (p, n, o) := (PeerBaseline(pos), PeerBaseline(neg), PeerBaseline(other));
      var (s, t) := (Saturate(n, pos + neg), Saturate(o, pos + other));
      && (Threshold(pos, neg) == p <==> forall i :: 0 <= i < |neg| ==> neg[i] <= 0.0)
      && (Threshold(pos, neg) == p * 0.2 <==> n == 1.0 && s == 0.8)
      && (n == 1.0 && s == 0.5 ==> Threshold(pos, neg) == p * 0.5)
      && (Times(n, s) < Times(o, t) <==> Threshold(pos, other) < Threshold(pos, neg))
  {
    var (p, n, o) := (PeerBaseline(pos), PeerBaseline(neg), PeerBaseline(other));
    var (s, t) := (Saturate(n, pos + neg), Saturate(o, pos + other));
    BaselineRange(neg);
    SaturateRange(n, pos + neg);
    hide Saturate, PeerBaseline, Times;
    Largest(n, s);
    Lowered(p, Times(n, s), Times(o, t));
  }

  lemma Lowered(p: real, x: real, y: real)
    requires p > 0.0
    ensures Times(p, Rest(x)) == p <==> x == 0.0
    ensures Times(p, Rest(x)) == p * 0.2 <==> x == 0.8
    ensures x == 0.5 ==> Times(p, Rest(x)) == p * 0.5
    ensures x < y <==> Times(p, Rest(y)) < Times(p, Rest(x))
  {
    TimesConstant(p);
    CancelLeft(p, Rest(x), 1.0);
    CancelLeft(p, Rest(x), 0.2);
    LessLeft(p, Rest(y), Rest(x));
    hide Times;
  }

  lemma Largest(n: real, s: real)
    requires 0.0 <= n <= 1.0 && 0.0 <= s <= 0.8
    ensures Times(n, s) == 0.8 <==> n == 1.0 && s == 0.8
    ensures Times(n, s) == 0.0 <==> n == 0.0 || s == 0.0
    ensures n == 1.0 ==> Times(n, s) == s
  {
    TimesBetween(n, 0.0, 0.8, s);
    TimesBetween(s, 0.0, 1.0, n);
    TimesCommute(n, s);
    TimesConstant(n);
    TimesConstant(s);
    if n > 0.0 && s > 0.0 {
      TimesPositive(n, s);
    }
    hide Times;
  }

  /** The spread of equal values is that value, and of others how far apart they are. */
  lemma SpreadIs(xs: seq<real>)
    requires xs != []
    ensures Spread(xs) == if Maximum(xs) == Minimum(xs) then xs[0] else Maximum(xs) - Minimum(xs)
  {
    hide Mean, Maximum, Minimum;
    if Maximum(xs) == Minimum(xs) {
      MeanEqual(xs);
    }
  }

  lemma MeanEqual(xs: seq<real>)
    requires xs != [] && Maximum(xs) == Minimum(xs)
    ensures Mean(xs) == xs[0]
  {
    hide Maximum, Minimum, Over;
    AllEqual(xs);
    SumConstant(xs, xs[0]);
    OverCancel(xs[0], |xs| as real, Sum(Same, xs));
  }

  lemma OverCancel(x: real, n: real, total: real)
    requires n > 0.0 && total == x * n
    ensures Over(total, n) == x
  {
    assert x * n / n == x;
  }

  lemma AllEqual(xs: seq<real>)
    requires xs != [] && Maximum(xs) == Minimum(xs)
    ensures forall i :: 0 <= i < |xs| ==> xs[i] == xs[0]
  {
    forall i | 0 <= i < |xs| ensures xs[i] == Maximum(xs) {
      assert xs[i] in xs;
    }
    assert xs[0] in xs;
    hide Maximum, Minimum;
  }

  lemma {:induction false} SumConstant(xs: seq<real>, x: real)
    requires forall i :: 0 <= i < |xs| ==> xs[i] == x
    ensures Sum(Same, xs) == x * |xs| as real
  {
    if xs != [] {
      SumConstant(xs[..|xs| - 1], x);
      assert |xs| as real == (|xs| - 1) as real + 1.0;
      assert x * |xs| as real == x * (|xs| - 1) as real + x;
    }
  }

  lemma UncertaintyRange(pos: seq<real>, neg: seq<real>, coherence: real)
    ensures 0.0 <= Uncertainty(pos, neg, coherence) <= 1.0
  {
    hide Spread, Times;
  }

  /** Uncertainty only ever lowers the bar: the margin lies between utility less threshold and
      utility. */
  lemma MarginRange(pos: seq<real>, neg: seq<real>, coherence: real, utility: real)
    ensures
      var (t, u) := (Threshold(pos, neg), Uncertainty(pos, neg, coherence));
      utility - t <= Margin(utility, t, u) <= utility
  {
    var (t, u) := (Threshold(pos, neg), Uncertainty(pos, neg, coherence));
    UncertaintyRange(pos, neg, coherence);
    hide Threshold, Uncertainty, Times;
    ThresholdRange(pos, neg);
    TimesBetween(t, 0.0, 1.0, Rest(u));
  }

  /** Evidence that is spread out moves the bar: full coherence leaves it at the threshold, none with a
      spread of one or more takes it away, and in between it goes down evenly. */
  lemma MarginIs(pos: seq<real>, neg: seq<real>, coherence: real, utility: real)
    requires 0.0 <= coherence <= 1.0 && Spread(pos + neg) >= 0.0
    ensures
      var (t, spread) := (Threshold(pos, neg), Spread(pos + neg));
      var margin := Margin(utility, t, Uncertainty(pos, neg, coherence));
      && (coherence == 1.0 || spread == 0.0 ==> margin == utility - t)
      && (coherence == 0.0 && spread >= 1.0 ==> margin == utility)
      && (spread <= 1.0 ==> margin == utility - t + Times(t, Times(spread, Rest(coherence))))
  {
    var (t, spread) := (Threshold(pos, neg), Spread(pos + neg));
    hide Threshold, Spread;
    var x := Times(spread, Rest(coherence));
    TimesBetween(spread, 0.0, 1.0, Rest(coherence));
    assert Times(t, Rest(x)) == t - Times(t, x);
  }
}
