/** Delivery, termination and fairness of the interleaver, over any number of ticks. */
module InterleaveProofs {
  import opened Arithmetic
  import opened Wrappers
  import opened InterleaveSpec

  // ---- exactly-once delivery ----

  function Project(items: seq<Item>, name: string): seq<Item> {
    if items == [] then []
    else
      var rest := Project(items[..|items| - 1], name);
      if items[|items| - 1].name == name then rest + [items[|items| - 1]] else rest
  }

  /** What a handle still has to deliver: its unread lines in file order, numbered on. */
  function Remaining(name: string, h: Handle): seq<Item> {
    if h.exhausted || h.pos > |h.lines| then []
    else
      seq(|h.lines| - h.pos,
          i requires 0 <= i < |h.lines| - h.pos => Item(name, h.path, h.lineNo + 1 + i, h.lines[h.pos + i]))
  }

  function Own(y: Option<Item>, name: string): seq<Item> {
    if y.Some? && y.value.name == name then [y.value] else []
  }

  lemma TickDelivers(s: State, name: string)
    requires s.schedule != [] && name in s.handles
    ensures Own(Tick(s).1, name) + Remaining(name, Tick(s).0.handles[name]) == Remaining(name, s.handles[name])
  {
    var h := s.handles[name];
    var before := Remaining(name, h);
    var after := Remaining(name, Tick(s).0.handles[name]);
    if name == SlotAt(s.schedule, s.tick) && !h.exhausted && h.pos < |h.lines| {
      assert before == [before[0]] + after;
    }
  }

  /** After any number of ticks, what a source has delivered followed by what it still holds is
      what it held: every line once, in file order, with consecutive numbers. */
  lemma {:induction false} TicksDeliver(s: State, n: nat, name: string)
    requires s.schedule != [] && name in s.handles
    ensures Project(Yields(s, n), name) + Remaining(name, Ticks(s, n).handles[name])
         == Remaining(name, s.handles[name])
  {
    hide Remaining, Tick, Project, Own;
    if n == 0 {
      ProjectNothing(name);
    } else {
      TicksDeliver(s, n - 1, name);
      var y := Tick(Ticks(s, n - 1)).1;
      TickDelivers(Ticks(s, n - 1), name);
      ProjectStep(Yields(s, n - 1), y, name);
      var after := Remaining(name, Ticks(s, n).handles[name]);
      assert Project(Yields(s, n), name) == Project(Yields(s, n - 1), name) + Own(y, name);
      Associates(Project(Yields(s, n - 1), name), Own(y, name), after);
    }
  }

  lemma Associates<T>(a: seq<T>, b: seq<T>, c: seq<T>)
    ensures a + b + c == a + (b + c)
  {
  }

  lemma ProjectNothing(name: string)
    ensures Project([], name) == []
    ensures forall rest: seq<Item> :: Project([], name) + rest == rest
  {
  }

  lemma ProjectStep(items: seq<Item>, y: Option<Item>, name: string)
    ensures Project(items + if y.Some? then [y.value] else [], name) == Project(items, name) + Own(y, name)
  {
    var grown := items + if y.Some? then [y.value] else [];
    if y.Some? {
      assert grown[..|grown| - 1] == items;
    } else {
      assert grown == items;
    }
  }

  // ---- termination ----

  ghost predicate Done(s: State) {
    forall name :: !Live(s, name)
  }

  ghost predicate EndsAfter(s: State, n: nat)
    requires s.schedule != []
  {
    Done(Ticks(s, n))
  }

  ghost predicate AllScheduled(s: State) {
    forall name :: Live(s, name) ==> name in s.schedule
  }

  /** The reads still to come, the one that finds the end of the file included. */
  ghost function Pending(s: State): set<(string, int)> {
    set name, i | name in s.handles && !s.handles[name].exhausted && s.handles[name].pos <= i <= |s.handles[name].lines|
      :: (name, i)
  }

  ghost predicate Sound(s: State) {
    forall name :: name in s.handles ==> s.handles[name].pos <= |s.handles[name].lines|
  }

  lemma TickKeeps(s: State)
    requires s.schedule != [] && Sound(s) && AllScheduled(s)
    ensures Sound(Tick(s).0) && AllScheduled(Tick(s).0)
    ensures Tick(s).0.schedule == s.schedule && Tick(s).0.tick == s.tick + 1
    ensures !Live(s, SlotAt(s.schedule, s.tick)) ==>
      Tick(s).0 == s.(tick := s.tick + 1) && Pending(Tick(s).0) == Pending(s)
    ensures Live(s, SlotAt(s.schedule, s.tick)) ==> Pending(Tick(s).0) < Pending(s)
  {
    var name := SlotAt(s.schedule, s.tick);
    var t := Tick(s).0;
    assert forall other :: Live(t, other) ==> Live(s, other);
    if Live(s, name) {
      var h := s.handles[name];
      assert (name, h.pos as int) in Pending(s) && (name, h.pos as int) !in Pending(t);
    }
  }

  lemma LaterSlot(j: nat, tick: nat, len: nat) returns (target: nat)
    requires j < len
    ensures target >= tick && target % len == j
  {
    assert tick * len >= tick * 1;
    target := tick * len + j;
    ModUnique(target, tick, j, len);
  }

  /** While something is live, a live slot lies ahead. */
  lemma LiveSlotAhead(s: State) returns (target: nat)
    requires s.schedule != [] && AllScheduled(s) && !Done(s)
    ensures target >= s.tick && Live(s, SlotAt(s.schedule, target))
  {
    var name :| Live(s, name);
    var j: nat :| j < |s.schedule| && s.schedule[j] == name;
    target := LaterSlot(j, s.tick, |s.schedule|);
  }

  lemma {:induction false} DrainsFrom(s: State, n: nat, target: nat) returns (last: nat)
    requires s.schedule != []
    requires
      var t := Ticks(s, n);
      && Sound(t) && AllScheduled(t)
      && (!Done(t) ==> target >= t.tick && Live(t, SlotAt(t.schedule, target)))
    ensures Done(Ticks(s, last))
    decreases Pending(Ticks(s, n)), target - n
  {
    hide SlotAt, Tick, Sound, AllScheduled, Pending;
    var t := Ticks(s, n);
    if Done(t) {
      return n;
    }
    TickKeeps(t);
    var t1 := Ticks(s, n + 1);
    assert t1 == Tick(t).0;
    var next := target;
    if Live(t, SlotAt(t.schedule, t.tick)) && !Done(t1) {
      next := LiveSlotAhead(t1);
    }
    last := DrainsFrom(s, n + 1, next);
  }

  lemma {:induction false} UnscheduledStaysLive(s: State, n: nat, name: string)
    requires s.schedule != [] && Live(s, name) && name !in s.schedule
    ensures Live(Ticks(s, n), name)
  {
    if n > 0 {
      UnscheduledStaysLive(s, n - 1, name);
    }
  }

  /** With a non-empty schedule the iteration ends exactly when every live source is scheduled. */
  lemma TerminatesIff(s: State)
    requires s.schedule != [] && Sound(s)
    ensures (exists n: nat :: EndsAfter(s, n)) <==> AllScheduled(s)
  {
    if AllScheduled(s) {
      var target := 0;
      if !Done(s) {
        target := LiveSlotAhead(s);
      }
      assert Ticks(s, 0) == s;
      var last := DrainsFrom(s, 0, target);
      assert EndsAfter(s, last);
    } else {
      var name :| Live(s, name) && name !in s.schedule;
      forall n: nat ensures !EndsAfter(s, n) { UnscheduledStaysLive(s, n, name); }
    }
  }

  // ---- stopping and reopening ----

  /** The machine that opening the sources at the given offsets starts from. */
  ghost predicate FromOpen(s: State, sources: map<string, Source>, offsets: map<string, nat>) {
    && s.handles.Keys == sources.Keys
    && forall n :: n in sources ==>
      s.handles[n] == Opened(sources[n], if n in offsets then offsets[n] else 0)
  }

  /** The offset a checkpoint records for a source: the number of lines consumed. */
  ghost predicate At(h: Handle, src: Source) {
    && h.path == src.path && h.lines == src.lines
    && (h.pos == h.lineNo + 1 || (h.pos == |h.lines| && h.lineNo >= h.pos))
    && (h.exhausted ==> h.pos == |h.lines|)
    && h.lineNo >= -1 && h.pos <= |h.lines|
  }

  lemma {:induction false} TicksStayAt(s: State, n: nat, name: string, src: Source)
    requires s.schedule != [] && name in s.handles && At(s.handles[name], src)
    ensures At(Ticks(s, n).handles[name], src)
  {
    if n > 0 {
      TicksStayAt(s, n - 1, name, src);
    }
  }

  lemma ReopenedHolds(name: string, h: Handle, src: Source)
    requires At(h, src)
    ensures Remaining(name, Opened(src, h.lineNo + 1)) == Remaining(name, h)
  {
  }

  lemma DoneHolds(s: State, name: string)
    requires Done(s) && name in s.handles
    ensures Remaining(name, s.handles[name]) == []
  {
    assert !Live(s, name);
  }

  /** Stopping after any number of ticks and reopening every source at its consumed offset
      delivers, per source, exactly what the first run had not delivered. */
  lemma ReopenDeliversRest(
      sources: map<string, Source>, offsets: map<string, nat>, s: State, n: nat,
      consumed: map<string, nat>, r: State, m: nat, name: string)
    requires s.schedule != [] && r.schedule != []
    requires FromOpen(s, sources, offsets) && name in sources
    requires name in consumed && consumed[name] == Ticks(s, n).handles[name].lineNo + 1
    requires FromOpen(r, sources, consumed) && Done(Ticks(r, m))
    ensures Project(Yields(s, n), name) + Project(Yields(r, m), name) == Remaining(name, s.handles[name])
  {
    hide Remaining, Project, Done, Yields, Ticks;
    assert name in s.handles.Keys && name in r.handles.Keys;
    TicksStayAt(s, n, name, sources[name]);
    TicksDeliver(s, n, name);
    TicksDeliver(r, m, name);
    DoneHolds(Ticks(r, m), name);
    ReopenedHolds(name, Ticks(s, n).handles[name], sources[name]);
  }

  // ---- weighted fairness ----

  ghost function Count(xs: seq<string>, name: string): nat {
    if xs == [] then 0 else Count(xs[..|xs| - 1], name) + if xs[|xs| - 1] == name then 1 else 0
  }

  lemma {:induction false} CountAppend(a: seq<string>, b: seq<string>, name: string)
    ensures Count(a + b, name) == Count(a, name) + Count(b, name)
  {
    if b == [] {
      assert a + b == a;
    } else {
      assert (a + b)[..|a + b| - 1] == a + b[..|b| - 1];
      CountAppend(a, b[..|b| - 1], name);
    }
  }

  lemma {:induction false} CountBlock(block: seq<string>, owner: string, name: string)
    requires forall i :: 0 <= i < |block| ==> block[i] == owner
    ensures Count(block, name) == if owner == name then |block| else 0
  {
    if block != [] {
      CountBlock(block[..|block| - 1], owner, name);
    }
  }

  lemma {:induction false} SortedIs(names: set<string>)
    ensures forall i, j :: 0 <= i < j < |Sorted(names)| ==>
      Sorted(names)[i] != Sorted(names)[j] && StringLe(Sorted(names)[i], Sorted(names)[j])
  {
    if names != {} {
      SortedIs(names - {First(names)});
    }
  }

  /** A source occurs in the schedule as often as its weight says, and not at all for a weight
      of zero or less. */
  lemma {:induction false} BlocksCount(order: seq<string>, weights: map<string, int>, name: string)
    requires forall n :: n in order ==> n in weights
    requires forall i, j :: 0 <= i < j < |order| ==> order[i] != order[j]
    ensures Count(Blocks(order, weights), name)
         == if name in order && weights[name] > 0 then weights[name] else 0
  {
    if order != [] {
      var last := order[|order| - 1];
      var front := order[..|order| - 1];
      assert order == front + [last];
      BlocksCount(front, weights, name);
      CountAppend(Blocks(front, weights), Block(last, weights[last]), name);
      CountBlock(Block(last, weights[last]), last, name);
    }
  }

  /** Schedule slots of `name` in the `n` ticks after `tick`. */
  ghost function Slots(schedule: seq<string>, tick: nat, n: nat, name: string): nat
    requires schedule != []
  {
    if n == 0 then 0
    else
      Slots(schedule, tick, n - 1, name) + (if SlotAt(schedule, tick + n - 1) == name then 1 else 0)
  }

  lemma SlotsNext(schedule: seq<string>, n: nat, name: string)
    requires schedule != []
    ensures Slots(schedule, 0, n + 1, name) ==
            Slots(schedule, 0, n, name) + if SlotAt(schedule, n) == name then 1 else 0
  {
  }

  lemma CountNext(xs: seq<string>, j: nat, name: string)
    requires 0 < j <= |xs|
    ensures Count(xs[..j], name) == Count(xs[..j - 1], name) + if xs[j - 1] == name then 1 else 0
  {
    assert xs[..j][..j - 1] == xs[..j - 1];
  }

  /** After `k` whole cycles and `j` more slots. */
  lemma {:induction false} SlotsAre(schedule: seq<string>, k: nat, j: nat, name: string)
    requires schedule != [] && j <= |schedule|
    ensures Slots(schedule, 0, k * |schedule| + j, name) == k * Count(schedule, name) + Count(schedule[..j], name)
    decreases k, j
  {
    var len := |schedule|;
    hide Slots, Count;
    if j > 0 {
      SlotsAre(schedule, k, j - 1, name);
      ModUnique(k * len + (j - 1), k, j - 1, len);
      SlotsNext(schedule, k * len + (j - 1), name);
      CountNext(schedule, j, name);
    } else if k > 0 {
      NoneYet(schedule, name);
      SlotsAre(schedule, k - 1, len, name);
      assert schedule[..len] == schedule;
      Distribute(k, len);
      Distribute(k, Count(schedule, name));
    } else {
      NoneYet(schedule, name);
    }
  }

  lemma NoneYet(schedule: seq<string>, name: string)
    requires schedule != []
    ensures Slots(schedule, 0, 0, name) == 0 && Count(schedule[..0], name) == 0
  {
  }

  lemma SlotInSchedule(schedule: seq<string>, tick: nat)
    requires schedule != []
    ensures SlotAt(schedule, tick) in schedule
  {
  }

  ghost predicate NoneDry(s: State, n: nat)
    requires s.schedule != []
  {
    forall x :: x in s.schedule ==> Live(Ticks(s, n), x)
  }

  /** While no source has run dry, every slot of a source yields one of its lines. */
  lemma {:induction false} YieldsFollowSlots(s: State, n: nat, name: string)
    requires s.schedule != [] && NoneDry(s, n)
    ensures |Project(Yields(s, n), name)| == Slots(s.schedule, s.tick, n, name)
  {
    hide Project, SlotAt;
    if n == 0 {
      ProjectNothing(name);
    } else {
      var t := Ticks(s, n - 1);
      assert forall x :: Live(Tick(t).0, x) ==> Live(t, x);
      YieldsFollowSlots(s, n - 1, name);
      ProjectStep(Yields(s, n - 1), Tick(t).1, name);
      SlotInSchedule(s.schedule, t.tick);
    }
  }

  lemma CountPrefix(xs: seq<string>, j: nat, name: string)
    requires j <= |xs|
    ensures Count(xs[..j], name) <= Count(xs, name)
  {
    assert xs == xs[..j] + xs[j..];
    CountAppend(xs[..j], xs[j..], name);
  }

  /** While no source has run dry, after `k` whole schedule cycles each source has yielded
      exactly `k` times its weight; during the next cycle never less, and never more than
      `k + 1` times. */
  lemma Fair(s: State, weights: map<string, int>, n: nat, k: nat, j: nat, name: string)
    requires s.schedule != [] && s.schedule == ScheduleOf(weights) && s.tick == 0
    requires n == k * |s.schedule| + j && j <= |s.schedule| && NoneDry(s, n)
    requires name in weights && weights[name] >= 0
    ensures
      var got := |Project(Yields(s, n), name)|;
      && k * weights[name] <= got <= k * weights[name] + weights[name]
      && (j == 0 ==> got == k * weights[name])
      && (j == |s.schedule| ==> got == k * weights[name] + weights[name])
  {
    hide Project, Slots, Yields, Ticks, NoneDry, ScheduleOf, Count;
    ScheduleCount(weights, name);
    YieldsFollowSlots(s, n, name);
    SlotsAre(s.schedule, k, j, name);
    CountPrefix(s.schedule, j, name);
    CountEnds(s.schedule, name);
  }

  /** An opened interleaver, in the weights as configured: while none of its sources has run dry, after
      `k` whole cycles and `j` more slots each has yielded `k` times its weight, and at most once more;
      a source without a configured weight counts once, one with a weight of zero or less never. */
  lemma OpenedFair(s: State, weights: map<string, int>, n: nat, k: nat, j: nat, name: string)
    requires s.schedule != [] && s.tick == 0
    requires s.schedule == ScheduleOf(map x | x in s.handles :: WeightOf(weights, x)) && name in s.handles
    requires n == k * |s.schedule| + j && j <= |s.schedule| && NoneDry(s, n)
    ensures
      var w := if name !in weights then 1 else if weights[name] > 0 then weights[name] else 0;
      var got := |Project(Yields(s, n), name)|;
      && k * w <= got <= k * w + w && (j == 0 ==> got == k * w) && (j == |s.schedule| ==> got == k * w + w)
  {
    hide Project, Slots, Yields, Ticks, NoneDry, ScheduleOf, Count;
    OpenedCount(s.handles.Keys, weights, name);
    YieldsFollowSlots(s, n, name);
    SlotsAre(s.schedule, k, j, name);
    CountPrefix(s.schedule, j, name);
    CountEnds(s.schedule, name);
    assert (map x | x in s.handles :: WeightOf(weights, x)) == map x | x in s.handles.Keys :: WeightOf(weights, x);
  }

  /** How often an opened source stands in the schedule, in the weights as configured. */
  lemma OpenedCount(names: set<string>, weights: map<string, int>, name: string)
    requires name in names
    ensures Count(ScheduleOf(map x | x in names :: WeightOf(weights, x)), name) ==
            if name !in weights then 1 else if weights[name] > 0 then weights[name] else 0
  {
    var all := map x | x in names :: WeightOf(weights, x);
    hide Sorted, Count, Blocks;
    SortedIs(all.Keys);
    BlocksCount(Sorted(all.Keys), all, name);
  }

  /** The schedule lists the names in order. */
  lemma ScheduleSorted(weights: map<string, int>)
    ensures forall i, j :: 0 <= i < j < |ScheduleOf(weights)| ==>
      StringLe(ScheduleOf(weights)[i], ScheduleOf(weights)[j])
  {
    SortedIs(weights.Keys);
    BlocksSorted(Sorted(weights.Keys), weights);
    hide Sorted, Blocks;
  }

  lemma {:induction false} BlocksSorted(order: seq<string>, weights: map<string, int>)
    requires forall n :: n in order ==> n in weights
    requires forall i, j :: 0 <= i < j < |order| ==> StringLe(order[i], order[j])
    ensures forall i, j :: 0 <= i < j < |Blocks(order, weights)| ==>
      StringLe(Blocks(order, weights)[i], Blocks(order, weights)[j])
  {
    hide StringLe;
    if order != [] {
      var (front, last) := (order[..|order| - 1], order[|order| - 1]);
      BlocksSorted(front, weights);
      BlocksNames(front, weights);
      StringLeTotal(last, last);
      forall i | 0 <= i < |Blocks(front, weights)| ensures StringLe(Blocks(front, weights)[i], last) {
        var x := Blocks(front, weights)[i];
        assert x in Blocks(front, weights);
        var k :| 0 <= k < |front| && front[k] == x;
        assert order[k] == x;
      }
    }
  }

  /** One string comes before another when it is a first part of it, or smaller where they first
      differ. */
  lemma {:induction false} StringLeIs(a: string, b: string)
    ensures StringLe(a, b) <==>
            a <= b || exists i :: 0 <= i < |a| && i < |b| && a[..i] == b[..i] && a[i] < b[i]
  {
    if a != "" && b != "" && a[0] == b[0] {
      StringLeIs(a[1..], b[1..]);
      assert a == [a[0]] + a[1..] && b == [b[0]] + b[1..];
      if i :| 0 <= i < |a| && i < |b| && a[..i] == b[..i] && a[i] < b[i] {
        assert a[1..][..i - 1] == a[..i][1..] && b[1..][..i - 1] == b[..i][1..];
      }
      if i :| 0 <= i < |a[1..]| && i < |b[1..]| && a[1..][..i] == b[1..][..i] && a[1..][i] < b[1..][i] {
        assert a[..i + 1] == [a[0]] + a[1..][..i] && b[..i + 1] == [b[0]] + b[1..][..i];
      }
    } else if a != "" && b != "" {
      assert a[..0] == b[..0];
    }
  }

  lemma ScheduleCount(weights: map<string, int>, name: string)
    requires name in weights && weights[name] >= 0
    ensures Count(ScheduleOf(weights), name) == weights[name]
  {
    hide Sorted, Count;
    SortedIs(weights.Keys);
    BlocksCount(Sorted(weights.Keys), weights, name);
  }

  lemma CountEnds(xs: seq<string>, name: string)
    ensures Count(xs[..0], name) == 0 && xs[..|xs|] == xs
  {
  }

  lemma {:induction false} CountPositive(xs: seq<string>, name: string)
    ensures name in xs <==> Count(xs, name) > 0
  {
    if xs != [] {
      CountPositive(xs[..|xs| - 1], name);
      assert xs == xs[..|xs| - 1] + [xs[|xs| - 1]];
    }
  }

  /** The iteration ends: at once if there is no schedule, else after some number of ticks. */
  ghost predicate Ends(s: State) {
    s.schedule == [] || exists n: nat :: EndsAfter(s, n)
  }

  /** Freshly opened, the iteration comes to an end exactly when every weight is at least one or none
      is positive: beside others a source of weight zero counts as active but never gets a slot. In
      the second case there is no schedule, and nothing is delivered. */
  lemma OpenedEndsIff(s: State, weights: map<string, int>)
    requires s.schedule == ScheduleOf(weights) && Sound(s)
    requires s.handles.Keys == weights.Keys && forall n :: n in s.handles ==> !s.handles[n].exhausted
    ensures s.schedule == [] <==> forall name :: name in weights ==> weights[name] <= 0
    ensures Ends(s) <==>
            || (forall name :: name in weights ==> weights[name] >= 1)
            || (forall name :: name in weights ==> weights[name] <= 0)
  {
    hide Sorted, Blocks, ScheduleOf, Sound, EndsAfter;
    InSchedule(weights);
    NamesInSchedule(weights);
    if s.schedule != [] {
      assert forall name :: name in weights <==> Live(s, name);
      TerminatesIff(s);
    }
  }

  lemma InSchedule(weights: map<string, int>)
    ensures forall name :: name in weights ==> (name in ScheduleOf(weights) <==> weights[name] >= 1)
  {
    hide Sorted, Blocks;
    forall name | name in weights
      ensures name in ScheduleOf(weights) <==> weights[name] >= 1
    {
      SortedIs(weights.Keys);
      BlocksCount(Sorted(weights.Keys), weights, name);
      CountPositive(ScheduleOf(weights), name);
    }
  }

  lemma {:induction false} BlocksNames(order: seq<string>, weights: map<string, int>)
    requires forall n :: n in order ==> n in weights
    ensures forall x :: x in Blocks(order, weights) ==> x in order
  {
    if order != [] {
      BlocksNames(order[..|order| - 1], weights);
    }
  }

  lemma NamesInSchedule(weights: map<string, int>)
    ensures ScheduleOf(weights) != [] ==> exists name :: name in weights && name in ScheduleOf(weights)
  {
    hide Blocks, Sorted;
    var schedule := ScheduleOf(weights);
    BlocksNames(Sorted(weights.Keys), weights);
    if schedule != [] {
      assert schedule[0] in schedule;
    }
  }
}
