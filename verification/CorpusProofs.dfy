/** Conservation of fragment counts over every run of the statistics cache. */
module CorpusProofs {
  import opened Wrappers
  import opened CorpusSpec

  // ---- sums ----

  /** What is counted of a fragment: its lines, its documents, its characters, or one bin of its
      histogram. */
  datatype Measure = Lines | Docs | Chars | Bin(b: nat)

  function Amount(x: Measure, f: Fragment): int {
    match x
    case Lines => f.lines
    case Docs => f.docs
    case Chars => f.chars
    case Bin(b) => if b < |f.histogram| then f.histogram[b] else 0
  }

  ghost function Sum(x: Measure, m: map<string, Fragment>): int {
    if m == map[] then 0
    else
      assert m.Keys != {};
      var k :| k in m;
      Amount(x, m[k]) + Sum(x, m - {k})
  }

  lemma {:induction false} SumWithout(x: Measure, m: map<string, Fragment>, k: string)
    requires k in m
    ensures Sum(x, m) == Amount(x, m[k]) + Sum(x, m - {k})
    decreases |m|
  {
    hide Amount;
    assert m.Keys != {};
    var j :| j in m && Sum(x, m) == Amount(x, m[j]) + Sum(x, m - {j});
    if j != k {
      assert |m - {j}| < |m| && |m - {k}| < |m| by {
        assert (m - {j}).Keys == m.Keys - {j} && (m - {k}).Keys == m.Keys - {k};
      }
      SumWithout(x, m - {j}, k);
      SumWithout(x, m - {k}, j);
      assert m - {j} - {k} == m - {k} - {j};
    }
  }

  lemma SumSet(x: Measure, m: map<string, Fragment>, k: string, f: Fragment)
    ensures Sum(x, m[k := f]) == Sum(x, m) - AmountAt(x, m, k) + Amount(x, f)
  {
    hide Amount;
    SumWithout(x, m[k := f], k);
    assert m[k := f] - {k} == m - {k};
    if k in m {
      SumWithout(x, m, k);
    } else {
      assert m - {k} == m;
    }
  }

  lemma {:induction false} SumSame(x: Measure, a: map<string, Fragment>, b: map<string, Fragment>)
    requires a.Keys == b.Keys && forall k :: k in a ==> Amount(x, a[k]) == Amount(x, b[k])
    ensures Sum(x, a) == Sum(x, b)
    decreases |a|
  {
    hide Amount;
    if a.Keys == {} {
      assert a == map[] && b == map[];
    } else {
      var k :| k in a.Keys;
      SumWithout(x, a, k);
      SumWithout(x, b, k);
      assert (a - {k}).Keys == a.Keys - {k} && (b - {k}).Keys == b.Keys - {k};
      SumSame(x, a - {k}, b - {k});
    }
  }

  function AmountAt(x: Measure, m: map<string, Fragment>, k: string): int {
    if k in m then Amount(x, m[k]) else 0
  }

  // ---- the invariant ----

  function SumHistogram(h: seq<int>): int {
    if h == [] then 0 else SumHistogram(h[..|h| - 1]) + h[|h| - 1]
  }

  /** The histogram of five bins adds up to the line frequency. */
  ghost predicate FragmentOk(k: string, f: Fragment) {
    f.key == k && |f.histogram| == 5 && SumHistogram(f.histogram) == f.lines
  }

  ghost predicate SameCounts(a: Fragment, b: Fragment) {
    a.docs == b.docs && a.lines == b.lines && a.chars == b.chars && a.histogram == b.histogram
  }

  ghost predicate RowsOk(attached: bool, rows: map<string, Fragment>) {
    && (forall k :: k in rows ==> FragmentOk(k, rows[k]) && rows[k].fingerprint == "" && !rows[k].seen)
    && (!attached ==> rows == map[])
  }

  ghost predicate FragmentsOk(fragments: map<string, Fragment>) {
    forall k :: k in fragments ==> FragmentOk(k, fragments[k])
  }

  /** A cached fragment not seen in this batch has its counts in the store, if there is one; `but`
      is exempt. */
  ghost predicate Saved(attached: bool, rows: map<string, Fragment>, fragments: map<string, Fragment>,
      but: Option<string>) {
    attached ==> forall k :: k in fragments && !fragments[k].seen && but != Some(k) ==>
      k in rows && SameCounts(rows[k], fragments[k])
  }

  /** Every fingerprint entry points to a cached fragment with that fingerprint. */
  ghost predicate IndexOk(fpIndex: map<string, string>, fragments: map<string, Fragment>) {
    forall fp :: fp in fpIndex ==> fp != "" && fpIndex[fp] in fragments && fragments[fpIndex[fp]].fingerprint == fp
  }

  /** The invariant, with one fragment allowed not to be saved yet. */
  ghost predicate InvBut(s: State, but: Option<string>) {
    && RowsOk(s.attached, s.rows) && FragmentsOk(s.fragments)
    && IndexOk(s.fpIndex, s.fragments) && Saved(s.attached, s.rows, s.fragments, but)
  }

  ghost predicate Inv(s: State) {
    InvBut(s, None)
  }

  /** Memory overlaid on the store. */
  ghost function Overlay(s: State): map<string, Fragment> {
    s.rows + s.fragments
  }

  ghost function Total(x: Measure, s: State): int {
    Sum(x, Overlay(s))
  }

  // ---- small changes ----

  lemma PutInv(s: State, k: string, f: Fragment, but: Option<string>)
    requires InvBut(s, but) && but in {None, Some(k)} && FragmentOk(k, f)
    requires k in s.fragments ==> s.fragments[k].fingerprint in {"", f.fingerprint}
    ensures InvBut(s.(fragments := s.fragments[k := f]), Some(k))
  {
    hide FragmentOk, SameCounts, RowsOk;
    var more := s.fragments[k := f];
    assert FragmentsOk(more);
    assert Saved(s.attached, s.rows, more, Some(k));
  }

  lemma PutTotal(x: Measure, s: State, k: string, f: Fragment)
    ensures Total(x, s.(fragments := s.fragments[k := f])) == Total(x, s) - AmountAt(x, Overlay(s), k) + Amount(x, f)
  {
    hide Sum;
    assert Overlay(s.(fragments := s.fragments[k := f])) == Overlay(s)[k := f];
    SumSet(x, Overlay(s), k, f);
  }

  lemma PutKeeps(x: Measure, s: State, k: string, f: Fragment, but: Option<string>)
    requires InvBut(s, but) && but in {None, Some(k)} && FragmentOk(k, f)
    requires k in s.fragments ==> s.fragments[k].fingerprint in {"", f.fingerprint}
    ensures
      var t := s.(fragments := s.fragments[k := f]);
      InvBut(t, Some(k)) && Total(x, t) == Total(x, s) - AmountAt(x, Overlay(s), k) + Amount(x, f)
  {
    hide InvBut, Total, FragmentOk;
    PutInv(s, k, f, but);
    PutTotal(x, s, k, f);
  }

  lemma IndexKeeps(x: Measure, s: State, fp: string, k: string, but: Option<string>)
    requires InvBut(s, but) && k in s.fragments && s.fragments[k].fingerprint == fp != ""
    ensures
      var t := s.(fpIndex := s.fpIndex[fp := k]);
      InvBut(t, but) && Total(x, t) == Total(x, s)
  {
    hide FragmentOk, SameCounts, Sum;
    assert Overlay(s.(fpIndex := s.fpIndex[fp := k])) == Overlay(s);
  }

  lemma Settled(s: State, k: string)
    requires InvBut(s, Some(k)) && k in s.fragments
    requires s.fragments[k].seen || (s.attached && k in s.rows && SameCounts(s.rows[k], s.fragments[k]))
    ensures Inv(s)
  {
  }

  // ---- one unit ----

  /** Under the invariant the store is never asked by fingerprint. */
  lemma FourthLookupIsDead(s: State, key: string, fp: string)
    requires Inv(s)
    ensures Find(s, key, fp) == OrElse(OrElse(Cached(s, key), ByFingerprint(s, fp)), Load(s, key))
  {
  }

  /** What is found is cached, or is the row of the key itself. */
  lemma FoundIs(s: State, key: string, fp: string)
    requires Inv(s) && Find(s, key, fp).Some?
    ensures
      var f := Find(s, key, fp).value;
      && FragmentOk(f.key, f)
      && (f.key in s.fragments ==> s.fragments[f.key] == f)
      && (f.key !in s.fragments ==>
            f.key == key && s.attached && key in s.rows && SameCounts(s.rows[key], f) && f.fingerprint == "" && !f.seen)
  {
    FourthLookupIsDead(s, key, fp);
    hide SumHistogram;
  }

  lemma AdmitKeeps(x: Measure, s: State, u: Unit)
    requires Inv(s) && u.fp != ""
    ensures
      var (t, key) := Admit(s, u);
      && key in t.fragments && InvBut(t, Some(key)) && Total(x, t) == Total(x, s)
      && t.rows == s.rows && t.attached == s.attached && t.batchId == s.batchId
      && t.fragments[key].fingerprint != ""
  {
    hide InvBut, Total, SumHistogram, Find;
    match Find(s, u.key, u.fp)
    case None =>
      AdmitNew(x, s, u);
    case Some(f) =>
      FoundIs(s, u.key, u.fp);
      AdmitFound(x, s, u, f);
  }

  lemma AdmitNew(x: Measure, s: State, u: Unit)
    requires Inv(s) && u.fp != "" && Find(s, u.key, u.fp).None?
    ensures
      var f := Fragment(u.key, u.fp, 0, 0, 0, [0, 0, 0, 0, 0], 0, s.batchId + 1, 1.0, false);
      var t := s.(fragments := s.fragments[u.key := f], fpIndex := s.fpIndex[u.fp := u.key]);
      InvBut(t, Some(u.key)) && Total(x, t) == Total(x, s)
  {
    hide InvBut, Total, SumHistogram, Find;
    var f := Fragment(u.key, u.fp, 0, 0, 0, [0, 0, 0, 0, 0], 0, s.batchId + 1, 1.0, false);
    AbsentEverywhere(x, s, u.key, u.fp);
    HistogramZero();
    PutKeeps(x, s, u.key, f, None);
    IndexKeeps(x, s.(fragments := s.fragments[u.key := f]), u.fp, u.key, Some(u.key));
  }

  lemma AbsentEverywhere(x: Measure, s: State, key: string, fp: string)
    requires Inv(s) && Find(s, key, fp).None?
    ensures AmountAt(x, Overlay(s), key) == 0 && key !in s.fragments
  {
  }

  lemma AdmitFound(x: Measure, s: State, u: Unit, f: Fragment)
    requires Inv(s) && u.fp != "" && FragmentOk(f.key, f)
    requires f.key in s.fragments ==> s.fragments[f.key] == f
    requires f.key !in s.fragments ==> f.key in s.rows && SameCounts(s.rows[f.key], f) && f.fingerprint == ""
    ensures
      var s1 := if f.key in s.fragments then s else s.(fragments := s.fragments[f.key := f]);
      var t := if f.fingerprint != "" then s1
               else s1.(fragments := s1.fragments[f.key := f.(fingerprint := u.fp)],
                 fpIndex := s1.fpIndex[u.fp := f.key]);
      InvBut(t, Some(f.key)) && Total(x, t) == Total(x, s)
  {
    FoundSame(x, s, f);
    LaterExempt(s, f.key);
    var g := f.(fingerprint := u.fp);
    assert FragmentOk(g.key, g);
    hide InvBut, Total, SumHistogram, FragmentOk, SameCounts, Amount;
    var s1 := s;
    if f.key !in s.fragments {
      PutKeeps(x, s, f.key, f, None);
      s1 := s.(fragments := s.fragments[f.key := f]);
    }
    if f.fingerprint == "" {
      assert AmountAt(x, Overlay(s1), f.key) == Amount(x, f);
      PutKeeps(x, s1, f.key, g, Some(f.key));
      IndexKeeps(x, s1.(fragments := s1.fragments[f.key := g]), u.fp, f.key, Some(f.key));
    }
  }

  lemma LaterExempt(s: State, k: string)
    requires Inv(s)
    ensures InvBut(s, Some(k))
  {
  }

  lemma HistogramZero()
    ensures SumHistogram([0, 0, 0, 0, 0]) == 0
  {
    assert [0, 0, 0, 0, 0][..4] == [0, 0, 0, 0] && [0, 0, 0, 0][..3] == [0, 0, 0] && [0, 0, 0][..2] == [0, 0] &&
      [0, 0][..1] == [0];
  }

  lemma {:induction false} HistogramBump(h: seq<int>, b: nat)
    requires b < |h|
    ensures SumHistogram(h[b := h[b] + 1]) == SumHistogram(h) + 1
  {
    var g := h[b := h[b] + 1];
    if b < |h| - 1 {
      HistogramBump(h[..|h| - 1], b);
      assert g[..|g| - 1] == h[..|h| - 1][b := h[b] + 1];
    } else {
      assert g[..|g| - 1] == h[..|h| - 1];
    }
  }

  /** What a unit adds to a measure. */
  function Gain(x: Measure, u: Unit, firstInDoc: bool, docLen: int): nat {
    match x
    case Lines => 1
    case Docs => if firstInDoc then 1 else 0
    case Chars => u.length
    case Bin(b) => if PositionBin(u.start, docLen) == b then 1 else 0
  }

  lemma CountedOk(x: Measure, f: Fragment, u: Unit, firstInDoc: bool, docLen: int, batchId: int)
    requires FragmentOk(f.key, f)
    ensures
      var g := Counted(f, u, firstInDoc, PositionBin(u.start, docLen), batchId);
      FragmentOk(f.key, g) && Amount(x, g) == Amount(x, f) + Gain(x, u, firstInDoc, docLen)
  {
    hide PositionBin;
    assert Padded(f.histogram) == f.histogram;
    HistogramBump(f.histogram, PositionBin(u.start, docLen));
  }

  lemma ObserveUnitKeeps(x: Measure, s: State, u: Unit, firstInDoc: bool, docLen: int)
    requires Inv(s) && u.fp != ""
    ensures Inv(ObserveUnit(s, u, firstInDoc, docLen))
    ensures Total(x, ObserveUnit(s, u, firstInDoc, docLen)) == Total(x, s) + Gain(x, u, firstInDoc, docLen)
  {
    AdmitKeeps(x, s, u);
    var (t, key) := Admit(s, u);
    var f := t.fragments[key];
    var g := Counted(f, u, firstInDoc, PositionBin(u.start, docLen), s.batchId);
    assert FragmentOk(key, f);
    CountedOk(x, f, u, firstInDoc, docLen, s.batchId);
    assert AmountAt(x, Overlay(t), key) == Amount(x, f);
    hide InvBut, Total, FragmentOk, PositionBin, Admit, Amount, Gain;
    PutKeeps(x, t, key, g, Some(key));
    Settled(t.(fragments := t.fragments[key := g]), key);
  }

  // ---- documents ----

  function CountEligible(units: seq<Unit>): nat {
    if units == [] then 0 else CountEligible(units[..|units| - 1]) + if Eligible(units[|units| - 1]) then 1 else 0
  }

  ghost predicate Fingerprinted(units: seq<Unit>) {
    forall i :: 0 <= i < |units| ==> units[i].fp != ""
  }

  /** What the eligible units of a document add to a measure; a unit is the first of its key when no
      eligible one before it has the key. */
  function Gains(x: Measure, units: seq<Unit>, docLen: int): nat {
    if units == [] then 0
    else
      var (front, last) := (units[..|units| - 1], units[|units| - 1]);
      Gains(x, front, docLen) + if Eligible(last) then Gain(x, last, last.key !in KeysOf(front), docLen) else 0
  }

  lemma NoKeys()
    ensures KeysOf([]) == {}
  {
  }

  lemma KeysMore(units: seq<Unit>, u: Unit)
    ensures KeysOf(units + [u]) == KeysOf(units) + if Eligible(u) then {u.key} else {}
  {
    hide Eligible;
    var more := units + [u];
    assert forall v :: v in more <==> v in units || v == u;
    forall k ensures k in KeysOf(more) <==> k in KeysOf(units) || (Eligible(u) && k == u.key) {
      if Eligible(u) && k == u.key {
        assert u in more;
      }
    }
  }

  /** Units count one by one: those of the seven kinds, outside fences, that have four characters or more
      but for white space at the ends. */
  lemma {:induction false} EligibleUnits(a: seq<Unit>, u: Unit, b: seq<Unit>)
    ensures
      var counts := !u.inFence && u.strippedLength > 3
        && u.kind in ["line", "paragraph", "block", "header", "footer", "list", "table"];
      && CountEligible(a + [u] + b) == CountEligible(a) + (if counts then 1 else 0) + CountEligible(b)
      && KeysOf(a + [u] + b) == KeysOf(a) + (if counts then {u.key} else {}) + KeysOf(b)
  {
    if b == [] {
      assert a + [u] + b == a + [u];
      CountMore(a, u);
      NoKeys();
      KeysMore(a, u);
    } else {
      var (front, last) := (b[..|b| - 1], b[|b| - 1]);
      EligibleUnits(a, u, front);
      hide Eligible, KeysOf, CountEligible;
      assert b == front + [last] && a + [u] + b == (a + [u] + front) + [last];
      KeysMore(front, last);
      KeysMore(a + [u] + front, last);
      CountMore(front, last);
      CountMore(a + [u] + front, last);
    }
  }

  lemma CountMore(units: seq<Unit>, u: Unit)
    ensures CountEligible(units + [u]) == CountEligible(units) + if Eligible(u) then 1 else 0
  {
    assert (units + [u])[..|units|] == units;
  }

  /** A document adds one to the document frequencies for each key of its eligible units, and one to the
      line frequencies for each eligible unit. */
  lemma {:induction false} GainsAre(units: seq<Unit>, docLen: int)
    ensures Gains(Docs, units, docLen) == |KeysOf(units)|
    ensures Gains(Lines, units, docLen) == CountEligible(units)
  {
    hide Eligible, KeysOf;
    if units == [] {
      NoKeys();
    } else {
      var (front, last) := (units[..|units| - 1], units[|units| - 1]);
      GainsAre(front, docLen);
      assert units == front + [last];
      KeysMore(front, last);
    }
  }

  lemma {:induction false} ObserveUnitsKeep(x: Measure, s: State, units: seq<Unit>, docLen: int)
    requires Inv(s) && Fingerprinted(units)
    ensures Inv(ObserveUnits(s, units, docLen))
    ensures Total(x, ObserveUnits(s, units, docLen)) == Total(x, s) + Gains(x, units, docLen)
    ensures ObserveUnits(s, units, docLen).attached == s.attached
  {
    if units != [] {
      hide Inv, Total, ObserveUnit, Eligible, KeysOf, Gain;
      var front := units[..|units| - 1];
      ObserveUnitsKeep(x, s, front, docLen);
      var (t, last) := (ObserveUnits(s, front, docLen), units[|units| - 1]);
      ObserveUnitKeeps(x, t, last, last.key !in KeysOf(front), docLen);
      ObserveUnitAttached(t, last, last.key !in KeysOf(front), docLen);
    }
  }

  lemma ObserveUnitAttached(s: State, u: Unit, firstInDoc: bool, docLen: int)
    ensures ObserveUnit(s, u, firstInDoc, docLen).attached == s.attached
  {
  }

  // ---- lookups ----

  lemma PullKeeps(x: Measure, s: State, key: string)
    requires Inv(s)
    ensures Inv(Pull(s, key)) && Total(x, Pull(s, key)) == Total(x, s)
  {
    if key !in s.fragments && Load(s, key).Some? {
      var f := Load(s, key).value;
      hide SumHistogram, Sum;
      assert FragmentOk(key, f) && SameCounts(s.rows[key], f) && f.fingerprint == "";
      assert AmountAt(x, Overlay(s), key) == Amount(x, f);
      PutKeeps(x, s, key, f, None);
      Settled(s.(fragments := s.fragments[key := f]), key);
    }
  }

  // ---- write-back and eviction ----

  lemma AgedAllOk(fragments: map<string, Fragment>, fpIndex: map<string, string>, decay: real)
    requires FragmentsOk(fragments) && IndexOk(fpIndex, fragments)
    ensures FragmentsOk(AgedAll(fragments, decay)) && IndexOk(fpIndex, AgedAll(fragments, decay))
    ensures SameAmounts(fragments, AgedAll(fragments, decay)) && NoneSeen(AgedAll(fragments, decay))
  {
    hide SumHistogram;
  }

  ghost predicate NoneSeen(fragments: map<string, Fragment>) {
    forall k :: k in fragments ==> !fragments[k].seen
  }

  ghost predicate SameAmounts(a: map<string, Fragment>, b: map<string, Fragment>) {
    a.Keys == b.Keys && forall k :: k in a ==> SameCounts(a[k], b[k])
  }

  lemma RowsOfOk(rows: map<string, Fragment>, fragments: map<string, Fragment>)
    requires RowsOk(true, rows) && FragmentsOk(fragments) && NoneSeen(fragments)
    ensures RowsOk(true, rows + RowsOf(fragments)) && Saved(true, rows + RowsOf(fragments), fragments, None)
  {
    hide SumHistogram;
  }

  lemma OverlayRows(
      x: Measure, rows: map<string, Fragment>, before: map<string, Fragment>, after: map<string, Fragment>)
    requires SameAmounts(before, after)
    ensures Sum(x, rows + before) == Sum(x, rows + after)
    ensures Sum(x, rows + before) == Sum(x, rows + RowsOf(after) + after)
  {
    hide Sum;
    assert (rows + before).Keys == (rows + after).Keys == (rows + RowsOf(after) + after).Keys;
    SumSame(x, rows + before, rows + after);
    SumSame(x, rows + before, rows + RowsOf(after) + after);
  }

  lemma WriteBackKeeps(x: Measure, s: State, decay: real)
    requires Inv(s)
    ensures
      var t := WriteBack(s, decay);
      && Inv(t) && Total(x, t) == Total(x, s) && t.attached == s.attached
      && SameAmounts(s.fragments, t.fragments) && NoneSeen(t.fragments)
  {
    var t := WriteBack(s, decay);
    AgedAllOk(s.fragments, s.fpIndex, decay);
    OverlayRows(x, s.rows, s.fragments, t.fragments);
    if s.attached {
      RowsOfOk(s.rows, t.fragments);
    } else {
      assert Saved(false, t.rows, t.fragments, None);
    }
    hide AgedAll, RowsOf, FragmentsOk, IndexOk, Saved, RowsOk, SameAmounts, NoneSeen, Sum;
  }

  lemma EvictKeeps(s: State, key: string)
    requires Inv(s) && key in s.fragments
    ensures Inv(Evict(s, key))
  {
    hide FragmentOk, SameCounts;
  }

  /** Evicting a fragment not seen in this batch loses its count exactly when no store is
      attached. */
  lemma EvictLoses(x: Measure, s: State, key: string)
    requires Inv(s) && key in s.fragments && !s.fragments[key].seen
    ensures Inv(Evict(s, key))
    ensures Total(x, Evict(s, key)) == Total(x, s) - if s.attached then 0 else Amount(x, s.fragments[key])
  {
    EvictKeeps(s, key);
    hide InvBut, Total, Evict;
    if s.attached {
      EvictAttached(x, s, key);
    } else {
      EvictDetached(x, s, key);
    }
  }

  lemma EvictAttached(x: Measure, s: State, key: string)
    requires Inv(s) && key in s.fragments && !s.fragments[key].seen && s.attached
    ensures Total(x, Evict(s, key)) == Total(x, s)
  {
    hide Sum, FragmentOk;
    var t := Evict(s, key);
    assert key in s.rows && SameCounts(s.rows[key], s.fragments[key]);
    assert Overlay(t).Keys == Overlay(s).Keys;
    SumSame(x, Overlay(t), Overlay(s));
  }

  lemma EvictDetached(x: Measure, s: State, key: string)
    requires RowsOk(s.attached, s.rows) && key in s.fragments && !s.attached
    ensures Total(x, Evict(s, key)) == Total(x, s) - Amount(x, s.fragments[key])
  {
    hide Sum, FragmentOk;
    assert s.rows == map[];
    assert Overlay(Evict(s, key)) == Overlay(s) - {key};
    SumWithout(x, Overlay(s), key);
  }

  lemma {:induction false} EvictRankedKeeps(x: Measure, s: State, ranked: seq<string>, target: int)
    requires Inv(s) && s.attached
    ensures Inv(EvictRanked(s, ranked, target)) && Total(x, EvictRanked(s, ranked, target)) == Total(x, s)
    ensures EvictRanked(s, ranked, target).attached
    decreases |ranked|
  {
    if ranked != [] && |s.fragments| > target {
      hide Inv, Total;
      if ranked[0] !in s.fragments || s.fragments[ranked[0]].seen {
        EvictRankedKeeps(x, s, ranked[1..], target);
      } else {
        EvictLoses(x, s, ranked[0]);
        EvictRankedKeeps(x, Evict(s, ranked[0]), ranked[1..], target);
      }
    }
  }

  /** Eviction unlinks the fingerprints of what was evicted and no others. */
  lemma {:induction false} EvictUnlinks(s: State, ranked: seq<string>, target: int, fp: string)
    requires Inv(s)
    ensures
      var t := EvictRanked(s, ranked, target);
      && (fp in t.fpIndex <==> fp in s.fpIndex && s.fpIndex[fp] in t.fragments)
      && (fp in t.fpIndex ==> t.fpIndex[fp] == s.fpIndex[fp])
    decreases |ranked|
  {
    if ranked != [] && |s.fragments| > target {
      hide InvBut;
      if ranked[0] !in s.fragments || s.fragments[ranked[0]].seen {
        EvictUnlinks(s, ranked[1..], target, fp);
      } else {
        EvictUnlinksOne(s, ranked[0], fp);
        EvictKeeps(s, ranked[0]);
        EvictUnlinks(Evict(s, ranked[0]), ranked[1..], target, fp);
        EvictRankedLeaves(Evict(s, ranked[0]), ranked[1..], target);
        hide Evict;
      }
    } else {
      assert fp in s.fpIndex ==> s.fpIndex[fp] in s.fragments;
    }
  }

  lemma EvictUnlinksOne(s: State, key: string, fp: string)
    requires Inv(s) && key in s.fragments
    ensures
      var t := Evict(s, key);
      && (fp in t.fpIndex <==> fp in s.fpIndex && s.fpIndex[fp] != key)
      && (fp in t.fpIndex ==> t.fpIndex[fp] == s.fpIndex[fp])
      && t.fragments.Keys == s.fragments.Keys - {key}
  {
  }

  // ---- runs ----

  ghost predicate OpOk(op: Op) {
    op.Observing? ==> Fingerprinted(op.doc.units)
  }

  function LengthOf(doc: Document): nat {
    if doc.charCount > 1 then doc.charCount else 1
  }

  /** What the documents observed in a run add to a measure. */
  function RunGains(x: Measure, ops: seq<Op>): nat {
    if ops == [] then 0
    else
      (if ops[0].Observing? then Gains(x, ops[0].doc.units, LengthOf(ops[0].doc)) else 0) + RunGains(x, ops[1..])
  }

  lemma ObserveKeeps(x: Measure, s: State, doc: Document)
    requires Inv(s) && Fingerprinted(doc.units)
    ensures Inv(Observe(s, doc)) && Observe(s, doc).attached == s.attached
    ensures Total(x, Observe(s, doc)) == Total(x, s) + Gains(x, doc.units, LengthOf(doc))
  {
    var t := s.(docsSeen := s.docsSeen + 1);
    assert Overlay(t) == Overlay(s);
    ObserveUnitsKeep(x, t, doc.units, LengthOf(doc));
  }

  lemma EndBatchKeeps(x: Measure, s: State, decay: real, ranked: seq<string>, cap: nat)
    requires Inv(s) && s.attached
    ensures Inv(EndBatch(s, decay, ranked, cap)) && EndBatch(s, decay, ranked, cap).attached
    ensures Total(x, EndBatch(s, decay, ranked, cap)) == Total(x, s)
  {
    WriteBackKeeps(x, s, decay);
    hide Inv, Total, WriteBack;
    EvictRankedKeeps(x, WriteBack(s, decay), ranked, Target(cap));
  }

  lemma ObserveKeepsAll(s: State, doc: Document)
    requires Inv(s) && Fingerprinted(doc.units)
    ensures
      var t := Observe(s, doc);
      && Inv(t) && (forall x :: Total(x, t) == Total(x, s) + Gains(x, doc.units, LengthOf(doc)))
      && Total(Lines, t) == Total(Lines, s) + CountEligible(doc.units)
      && Total(Docs, t) == Total(Docs, s) + |KeysOf(doc.units)|
  {
    hide Inv, Total, Observe, Gains, KeysOf, CountEligible, Fingerprinted;
    ObserveKeeps(Lines, s, doc);
    forall x ensures Total(x, Observe(s, doc)) == Total(x, s) + Gains(x, doc.units, LengthOf(doc)) {
      ObserveKeeps(x, s, doc);
    }
    GainsAre(doc.units, LengthOf(doc));
  }

  lemma EndBatchKeepsAll(s: State, decay: real, ranked: seq<string>, cap: nat)
    requires Inv(s) && s.attached
    ensures
      var t := EndBatch(s, decay, ranked, cap);
      Inv(t) && forall x :: Total(x, t) == Total(x, s)
  {
    hide Inv, Total, EndBatch;
    EndBatchKeeps(Lines, s, decay, ranked, cap);
    forall x ensures Total(x, EndBatch(s, decay, ranked, cap)) == Total(x, s) {
      EndBatchKeeps(x, s, decay, ranked, cap);
    }
  }

  lemma PullAttached(s: State, key: string)
    ensures Pull(s, key).attached == s.attached
  {
  }

  lemma DoKeeps(x: Measure, s: State, op: Op)
    requires Inv(s) && s.attached && OpOk(op)
    ensures Inv(Do(s, op)) && Do(s, op).attached
    ensures Total(x, Do(s, op)) == Total(x, s) + if op.Observing? then Gains(x, op.doc.units, LengthOf(op.doc)) else 0
  {
    hide Inv, Total, Observe, Pull, EndBatch, Load;
    match op
    case Observing(doc) => ObserveKeeps(x, s, doc);
    case Looking(key) =>
      PullKeeps(x, s, key);
      PullAttached(s, key);
    case LookingText(key, fp) =>
      PullKeeps(x, s, key);
      PullAttached(s, key);
      if fp in s.fpIndex {
        PullKeeps(x, s, s.fpIndex[fp]);
        PullAttached(s, s.fpIndex[fp]);
      }
    case Ending(decay, ranked, cap) => EndBatchKeeps(x, s, decay, ranked, cap);
  }

  /** Main result: with a store attached, over any run of observations, lookups and batch ends, what is
      counted in memory overlaid on the store adds up to what the observed documents add, on top of
      what the store held. Histograms, the fingerprint index and the saved counts stay consistent
      throughout. */
  lemma {:induction false} RunConserves(x: Measure, s: State, ops: seq<Op>)
    requires Inv(s) && s.attached && forall i :: 0 <= i < |ops| ==> OpOk(ops[i])
    ensures Inv(Run(s, ops))
    ensures Total(x, Run(s, ops)) == Total(x, s) + RunGains(x, ops)
    decreases |ops|
  {
    if ops != [] {
      hide Inv, Total, Do, OpOk, Gains;
      DoKeeps(x, s, ops[0]);
      RunConserves(x, Do(s, ops[0]), ops[1..]);
    }
  }

  /** The eligible units of a run, and the keys of each of its documents. */
  function Units(ops: seq<Op>): nat {
    if ops == [] then 0
    else (if ops[0].Observing? then CountEligible(ops[0].doc.units) else 0) + Units(ops[1..])
  }

  function Keys(ops: seq<Op>): nat {
    if ops == [] then 0
    else (if ops[0].Observing? then |KeysOf(ops[0].doc.units)| else 0) + Keys(ops[1..])
  }

  lemma {:induction false} RunGainsAre(ops: seq<Op>)
    ensures RunGains(Lines, ops) == Units(ops) && RunGains(Docs, ops) == Keys(ops)
  {
    hide Gains, CountEligible, KeysOf;
    if ops != [] {
      RunGainsAre(ops[1..]);
      if ops[0].Observing? {
        GainsAre(ops[0].doc.units, LengthOf(ops[0].doc));
      }
    }
  }

  /** In particular the line frequencies add up to the eligible units observed, and the document
      frequencies to the keys of each document. */
  lemma RunCounts(s: State, ops: seq<Op>)
    requires Inv(s) && s.attached && forall i :: 0 <= i < |ops| ==> OpOk(ops[i])
    ensures Total(Lines, Run(s, ops)) == Total(Lines, s) + Units(ops)
    ensures Total(Docs, Run(s, ops)) == Total(Docs, s) + Keys(ops)
  {
    RunConserves(Lines, s, ops);
    RunConserves(Docs, s, ops);
    RunGainsAre(ops);
    hide Inv, Total, Run, OpOk;
  }

  // ---- which fragment a unit counts towards, and where ----

  /** The fragment of the unit's own key if it is cached, else that of its fingerprint if that is
      indexed, else that of its key. */
  lemma AdmittedIs(s: State, u: Unit)
    requires Inv(s)
    ensures Admit(s, u).1 ==
            if u.key in s.fragments then u.key else if u.fp in s.fpIndex then s.fpIndex[u.fp] else u.key
  {
    FourthLookupIsDead(s, u.key, u.fp);
    hide FragmentOk, SumHistogram, SameCounts;
    assert forall k :: k in s.fragments ==> s.fragments[k].key == k by {
      KeysAgree(s);
    }
    assert u.key in s.rows ==> s.rows[u.key].key == u.key by {
      KeysAgree(s);
    }
  }

  lemma KeysAgree(s: State)
    requires Inv(s)
    ensures forall k :: k in s.fragments ==> s.fragments[k].key == k
    ensures forall k :: k in s.rows ==> s.rows[k].key == k
  {
  }

  lemma FragmentIs(t: State, key: string)
    requires InvBut(t, Some(key)) && key in t.fragments
    ensures FragmentOk(key, t.fragments[key]) && t.fragments[key].key == key
  {
  }

  /** A unit adds to that fragment only. */
  lemma ObserveOne(x: Measure, s: State, u: Unit, firstInDoc: bool, docLen: int, k: string)
    requires Inv(s) && u.fp != ""
    ensures
      var t := ObserveUnit(s, u, firstInDoc, docLen);
      AmountAt(x, Overlay(t), k) ==
        AmountAt(x, Overlay(s), k) + if k == Admit(s, u).1 then Gain(x, u, firstInDoc, docLen) else 0
  {
    hide InvBut, Total, FragmentOk, PositionBin, Admit, Amount, Gain, Counted;
    AdmitKeeps(x, s, u);
    var (t, key) := Admit(s, u);
    FragmentIs(t, key);
    CountedOk(x, t.fragments[key], u, firstInDoc, docLen, s.batchId);
    AdmitOne(x, s, u, k);
  }

  /** Admission changes no amount. */
  lemma AdmitOne(x: Measure, s: State, u: Unit, k: string)
    requires Inv(s)
    ensures AmountAt(x, Overlay(Admit(s, u).0), k) == AmountAt(x, Overlay(s), k)
  {
    hide InvBut, Amount, Find;
    match Find(s, u.key, u.fp)
    case None =>
      AbsentHere(s, u.key, u.fp);
      NothingYet(x, u, s.batchId);
    case Some(f) =>
      FoundIs(s, u.key, u.fp);
      FoundSame(x, s, f);
  }

  lemma AbsentHere(s: State, key: string, fp: string)
    requires Inv(s) && Find(s, key, fp).None?
    ensures key !in Overlay(s)
  {
  }

  lemma NothingYet(x: Measure, u: Unit, batchId: int)
    ensures Amount(x, Fragment(u.key, u.fp, 0, 0, 0, [0, 0, 0, 0, 0], 0, batchId + 1, 1.0, false)) == 0
  {
  }

  /** A fragment found has the amounts of the one in memory over store. */
  lemma FoundSame(x: Measure, s: State, f: Fragment)
    requires f.key in s.fragments ==> s.fragments[f.key] == f
    requires f.key !in s.fragments ==> f.key in s.rows && SameCounts(s.rows[f.key], f)
    ensures f.key in Overlay(s) && Amount(x, Overlay(s)[f.key]) == Amount(x, f)
    ensures forall fp :: Amount(x, f.(fingerprint := fp)) == Amount(x, f)
  {
  }

  /** What a cached fragment, a row of the store or neither gives a unit to start from. */
  ghost predicate StartsFrom(s: State, k: string, u: Unit, f: Fragment) {
    if k in s.fragments then f == s.fragments[k]
    else if s.attached && k in s.rows then
      f == s.rows[k].(weight := if s.rows[k].weight == 0.0 then 1.0 else s.rows[k].weight)
    else f.weight == 1.0 && f.firstSeen == s.batchId + 1 && f.fingerprint == u.fp
  }

  /** Only the fingerprint of the fragment is linked anew, and to it. */
  ghost predicate NewLinks(before: map<string, string>, after: map<string, string>, fp: string, k: string) {
    forall p :: p in after && (p !in before || before[p] != after[p]) ==> after[p] == k && p == fp
  }

  /** A unit marks its fragment as seen in the batch under way, gives it a fiftieth more weight up to
      one and a fingerprint if it has none, and leaves all other fragments as they were. */
  lemma ObservedIs(s: State, u: Unit, firstInDoc: bool, docLen: int) returns (f: Fragment)
    requires Inv(s)
    ensures
      var (t, k) := (ObserveUnit(s, u, firstInDoc, docLen), Admit(s, u).1);
      && k in t.fragments && StartsFrom(s, k, u, f)
      && var g := t.fragments[k];
      && g.seen && g.lastSeen == s.batchId + 1 && g.firstSeen == f.firstSeen && g.key == k
      && g.weight == (if f.weight > 0.98 then 1.0 else f.weight + 0.02)
      && g.fingerprint == (if f.fingerprint == "" then u.fp else f.fingerprint)
      && t.fragments == s.fragments[k := g] && t.rows == s.rows
      && NewLinks(s.fpIndex, t.fpIndex, g.fingerprint, k)
  {
    f := StartIs(s, u);
    hide Inv, StartsFrom, Admit, PositionBin, Padded;
  }

  /** Admission puts the fragment into the cache, with a fingerprint. */
  lemma StartIs(s: State, u: Unit) returns (f: Fragment)
    requires Inv(s)
    ensures
      var (t, k) := Admit(s, u);
      && StartsFrom(s, k, u, f) && f.key == k
      && var g := f.(fingerprint := if f.fingerprint == "" then u.fp else f.fingerprint);
      && t == s.(fragments := s.fragments[k := g], fpIndex := t.fpIndex)
      && NewLinks(s.fpIndex, t.fpIndex, g.fingerprint, k)
  {
    match Find(s, u.key, u.fp)
    case None =>
      hide Inv;
      f := Fragment(u.key, u.fp, 0, 0, 0, [0, 0, 0, 0, 0], 0, s.batchId + 1, 1.0, false);
    case Some(found) =>
      f := found;
      FoundStarts(s, u);
      hide Inv;
      assert f.key in s.fragments ==> s.fragments[f.key] == f;
      hide StartsFrom;
      AdmitsFound(s, u, f);
  }

  lemma AdmitsFound(s: State, u: Unit, f: Fragment)
    requires Find(s, u.key, u.fp) == Some(f) && (f.key in s.fragments ==> s.fragments[f.key] == f)
    ensures
      var (t, k) := Admit(s, u);
      && k == f.key
      && var g := f.(fingerprint := if f.fingerprint == "" then u.fp else f.fingerprint);
      && t == s.(fragments := s.fragments[k := g], fpIndex := t.fpIndex)
      && NewLinks(s.fpIndex, t.fpIndex, g.fingerprint, k)
  {
    hide Find;
    assert f.key in s.fragments ==> s.fragments[f.key := f] == s.fragments;
  }

  lemma FoundStarts(s: State, u: Unit)
    requires Inv(s) && Find(s, u.key, u.fp).Some?
    ensures
      var f := Find(s, u.key, u.fp).value;
      StartsFrom(s, f.key, u, f)
  {
    FourthLookupIsDead(s, u.key, u.fp);
    KeysAgree(s);
    hide Inv;
  }

  /** Where a unit starts in the document, in tenths and quarters of it. */
  lemma PositionBinIs(start: nat, docLen: int)
    ensures docLen <= 0 ==> PositionBin(start, docLen) == 2
    ensures docLen > 0 ==>
      && (PositionBin(start, docLen) == 0 <==> 10 * start < docLen)
      && (PositionBin(start, docLen) <= 1 <==> 4 * start < docLen)
      && (PositionBin(start, docLen) <= 2 <==> 4 * start < 3 * docLen)
      && (PositionBin(start, docLen) <= 3 <==> 10 * start < 9 * docLen)
  {
    if docLen > 0 {
      var (x, y) := (start as real, docLen as real);
      var r := x / y;
      assert r * y == x;
      Part(r, x, y, 0.10);
      Part(r, x, y, 0.25);
      Part(r, x, y, 0.75);
      Part(r, x, y, 0.90);
    }
  }

  lemma Part(r: real, x: real, y: real, part: real)
    requires y > 0.0 && r * y == x
    ensures r < part <==> x < part * y
  {
    if r < part {
      Less(r, part, y);
    } else if part < r {
      Less(part, r, y);
    }
  }

  lemma Less(a: real, b: real, y: real)
    requires a < b && y > 0.0
    ensures a * y < b * y
  {
  }

  lemma AgedIs(s: State, decay: real, k: string)
    ensures
      var t := WriteBack(s, decay);
      && t.fragments.Keys == s.fragments.Keys
      && (k in s.fragments ==>
           && var f := s.fragments[k];
           && var g := f.(seen := false, weight := if f.seen then f.weight else decay * f.weight);
           && t.fragments[k] == g && (s.attached ==> k in t.rows && t.rows[k] == g.(fingerprint := "")))
      && (k !in s.fragments ==> (k in t.rows <==> k in s.rows) && (k in t.rows ==> t.rows[k] == s.rows[k]))
  {
    hide SumHistogram;
    assert k in s.fragments ==> decay * s.fragments[k].weight == s.fragments[k].weight * decay;
  }

  // ---- what eviction takes ----

  /** With nothing seen since the last write-back, eviction drops a prefix of the ranking, just long
      enough to reach the target. */
  lemma {:induction false} EvictsPrefix(s: State, ranked: seq<string>, target: int) returns (n: nat)
    requires target >= 0 && NoneSeen(s.fragments) && Lists(ranked, s.fragments.Keys)
    ensures n <= |ranked|
    ensures
      var t := EvictRanked(s, ranked, target);
      && |t.fragments| == (if |s.fragments| < target then |s.fragments| else target)
      && t.fragments.Keys == Members(ranked[n..]) && Within(t.fragments, s.fragments)
    decreases |ranked|
  {
    hide Evict, NoneSeen, EvictRanked, Lists, Members, Within;
    EvictFirst(s, ranked, target);
    if |s.fragments| <= target || ranked == [] {
      n := 0;
      ListsWhole(s.fragments, ranked);
    } else {
      EvictOne(s, ranked);
      var t := Evict(s, ranked[0]);
      n := EvictsPrefix(t, ranked[1..], target);
      assert ranked[1..][n..] == ranked[n + 1..];
      n := n + 1;
      WithinTrans(EvictRanked(s, ranked, target).fragments, t.fragments, s.fragments);
    }
  }

  lemma ListsWhole(fragments: map<string, Fragment>, ranked: seq<string>)
    requires Lists(ranked, fragments.Keys)
    ensures fragments.Keys == Members(ranked[0..]) && Within(fragments, fragments)
    ensures ranked == [] ==> |fragments| == 0
  {
    assert ranked[0..] == ranked && |fragments| == |fragments.Keys|;
  }

  lemma EvictFirst(s: State, ranked: seq<string>, target: int)
    requires NoneSeen(s.fragments)
    ensures |s.fragments| <= target || ranked == [] ==> EvictRanked(s, ranked, target) == s
    ensures |s.fragments| > target && ranked != [] && ranked[0] in s.fragments ==>
      EvictRanked(s, ranked, target) == EvictRanked(Evict(s, ranked[0]), ranked[1..], target)
  {
  }

  ghost function Members(xs: seq<string>): set<string> {
    set x | x in xs
  }

  /** `xs` lists the members of `keys`, each once. */
  ghost predicate Lists(xs: seq<string>, keys: set<string>) {
    keys == Members(xs) && forall i, j :: 0 <= i < j < |xs| ==> xs[i] != xs[j]
  }

  ghost predicate Within(a: map<string, Fragment>, b: map<string, Fragment>) {
    forall k :: k in a ==> k in b && a[k] == b[k]
  }

  lemma WithinTrans(a: map<string, Fragment>, b: map<string, Fragment>, c: map<string, Fragment>)
    requires Within(a, b) && Within(b, c)
    ensures Within(a, c)
  {
  }

  lemma EvictOne(s: State, ranked: seq<string>)
    requires ranked != [] && NoneSeen(s.fragments) && Lists(ranked, s.fragments.Keys)
    ensures ranked[0] in s.fragments && !s.fragments[ranked[0]].seen
    ensures
      var t := Evict(s, ranked[0]);
      && NoneSeen(t.fragments) && Lists(ranked[1..], t.fragments.Keys) && Within(t.fragments, s.fragments)
      && |t.fragments| == |s.fragments| - 1
  {
    assert ranked[0] in Members(ranked);
    var t := Evict(s, ranked[0]);
    assert ranked == [ranked[0]] + ranked[1..];
    assert t.fragments.Keys == s.fragments.Keys - {ranked[0]};
    assert |t.fragments| == |t.fragments.Keys| && |s.fragments| == |s.fragments.Keys|;
    forall k
      ensures k in Members(ranked[1..]) <==> k in t.fragments.Keys
    {
      if k in ranked[1..] {
        var i :| 0 <= i < |ranked[1..]| && ranked[1..][i] == k;
        assert ranked[i + 1] == k;
      }
    }
  }

  /** `a` is visited no later than `b`: by weight, then last batch seen, then larger document
      frequency first. */
  predicate RankLe(a: Fragment, b: Fragment) {
    || a.weight < b.weight
    || (a.weight == b.weight && (a.lastSeen < b.lastSeen || (a.lastSeen == b.lastSeen && a.docs >= b.docs)))
  }

  /** A ranking lists every cached key once, sorted; ties may stand in any order. */
  ghost predicate IsRanking(ranked: seq<string>, fragments: map<string, Fragment>) {
    && Lists(ranked, fragments.Keys)
    && (forall i, j :: 0 <= i < j < |ranked| && ranked[i] in fragments && ranked[j] in fragments ==>
          RankLe(fragments[ranked[i]], fragments[ranked[j]]))
  }

  /** At a batch end a cache over its cap is cut to nine tenths of it, rounded down, but never to nothing;
      one within it stays whole. What was evicted had no more weight than what stayed; of the same
      weight it was seen no later; and seen in the same batch it was in no fewer documents. */
  lemma EndBatchTrims(s: State, decay: real, ranked: seq<string>, cap: nat)
    requires Inv(s) && IsRanking(ranked, WriteBack(s, decay).fragments)
    ensures
      var (w, t) := (WriteBack(s, decay), EndBatch(s, decay, ranked, cap));
      && |t.fragments| == (if |w.fragments| <= cap then |w.fragments| else if cap >= 3 then cap - (cap + 9) / 10 else 1)
      && |t.fragments| <= (if cap > 1 then cap else 1)
      && forall a, b :: a in w.fragments && a !in t.fragments && b in t.fragments ==>
        && b in w.fragments
        && var (out, stays) := (w.fragments[a], w.fragments[b]);
        && out.weight <= stays.weight
        && (out.weight == stays.weight ==> out.lastSeen <= stays.lastSeen)
        && (out.weight == stays.weight && out.lastSeen == stays.lastSeen ==> out.docs >= stays.docs)
  {
    hide WriteBack, Trim, Inv, Total, IsRanking, SameAmounts;
    WriteBackKeeps(Lines, s, decay);
    TrimsRanked(WriteBack(s, decay), ranked, cap);
  }

  lemma TrimsRanked(w: State, ranked: seq<string>, cap: nat)
    requires NoneSeen(w.fragments) && IsRanking(ranked, w.fragments)
    ensures
      var t := Trim(w, ranked, cap);
      && |t.fragments| == (if |w.fragments| <= cap then |w.fragments| else if cap >= 3 then cap - (cap + 9) / 10 else 1)
      && forall a, b :: a in w.fragments && a !in t.fragments && b in t.fragments ==>
        b in w.fragments && RankLe(w.fragments[a], w.fragments[b])
  {
    if |w.fragments| > cap {
      var n := EvictsPrefix(w, ranked, Target(cap));
      hide RankLe, EvictRanked, IsRanking;
      var t := EvictRanked(w, ranked, Target(cap));
      forall a, b | a in w.fragments && a !in t.fragments && b in t.fragments
        ensures b in w.fragments && RankLe(w.fragments[a], w.fragments[b])
      {
        SplitRanked(w.fragments, ranked, n, a, b);
      }
    }
  }

  lemma {:induction false} EvictRankedLeaves(s: State, ranked: seq<string>, target: int)
    ensures
      var t := EvictRanked(s, ranked, target);
      t == s.(fragments := t.fragments, fpIndex := t.fpIndex) && Within(t.fragments, s.fragments)
    decreases |ranked|
  {
    if ranked != [] && |s.fragments| > target {
      EvictRankedLeaves(s, ranked[1..], target);
      if ranked[0] in s.fragments {
        EvictRankedLeaves(Evict(s, ranked[0]), ranked[1..], target);
      }
    }
  }

  /** What a fragment is after a batch end, in the cache if it stays and in the store if there is one: a
      fragment seen in the batch keeps its weight, any other decays, and nothing else changes. Rows
      without a cached fragment are left alone. */
  lemma EndedIs(s: State, decay: real, ranked: seq<string>, cap: nat, k: string)
    ensures
      var t := EndBatch(s, decay, ranked, cap);
      && t.batchId == s.batchId + 1 && t.docsSeen == s.docsSeen && (k in t.fragments ==> k in s.fragments)
      && if k !in s.fragments || !s.attached then
           (k in t.rows <==> k in s.rows) && (k in t.rows ==> t.rows[k] == s.rows[k])
         else
           && var f := s.fragments[k];
           && var g := f.(seen := false, weight := if f.seen then f.weight else decay * f.weight);
           && k in t.rows && t.rows[k] == g.(fingerprint := "") && (k in t.fragments ==> t.fragments[k] == g)
  {
    EvictRankedLeaves(WriteBack(s, decay), ranked, Target(cap));
    hide EvictRanked;
    AgedIs(s, decay, k);
  }

  /** A key before the cut ranks no later than one after it. */
  lemma SplitRanked(fragments: map<string, Fragment>, ranked: seq<string>, n: nat, a: string, b: string)
    requires IsRanking(ranked, fragments) && n <= |ranked|
    requires a in fragments.Keys && a !in Members(ranked[n..]) && b in Members(ranked[n..])
    ensures b in fragments && RankLe(fragments[a], fragments[b])
  {
    hide RankLe;
    var i := BeforeCut(ranked, n, a);
    var j := AfterCut(ranked, n, b);
    assert ranked[j] in Members(ranked);
    assert ranked[i] in fragments && ranked[j] in fragments;
  }

  lemma BeforeCut(xs: seq<string>, n: nat, a: string) returns (i: nat)
    requires n <= |xs| && a in Members(xs) && a !in Members(xs[n..])
    ensures i < n && xs[i] == a
  {
    i :| i < |xs| && xs[i] == a;
    assert xs == xs[..n] + xs[n..];
    assert forall k :: n <= k < |xs| ==> xs[k] in xs[n..];
  }

  lemma AfterCut(xs: seq<string>, n: nat, b: string) returns (j: nat)
    requires n <= |xs| && b in Members(xs[n..])
    ensures n <= j < |xs| && xs[j] == b
  {
    var k :| 0 <= k < |xs[n..]| && xs[n..][k] == b;
    j := n + k;
  }
}
