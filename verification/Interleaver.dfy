/** The interleaver as the object that is opened, iterated and opened again at its offsets. */
module Interleaver {
  import opened Collections
  import opened Wrappers
  import opened InterleaveSpec
  import opened InterleaveProofs

  method WeightedSchedule(weights: map<string, int>) returns (schedule: seq<string>)
    ensures schedule == ScheduleOf(weights)
    ensures forall name :: name in weights ==>
      Count(schedule, name) == if weights[name] > 0 then weights[name] else 0
  {
    schedule := [];
    var order := Sorted(weights.Keys);
    for i := 0 to |order|
      invariant schedule == Blocks(order[..i], weights)
    {
      assert order[..i + 1][..i] == order[..i];
      schedule := schedule + Block(order[i], weights[order[i]]);
    }
    assert order[..|order|] == order;
    SortedIs(weights.Keys);
    forall name | name in weights
      ensures Count(schedule, name) == if weights[name] > 0 then weights[name] else 0
    {
      BlocksCount(order, weights, name);
    }
  }

  /** The last source of each name wins, as it does when a dictionary is filled in order. */
  ghost function ByName(sources: seq<Source>): map<string, Source> {
    if sources == [] then map[]
    else ByName(sources[..|sources| - 1])[sources[|sources| - 1].name := sources[|sources| - 1]]
  }

  /** Each name is opened with a source of that name, namely the last one in the list. */
  lemma {:induction false} LastOfNameWins(sources: seq<Source>, i: nat)
    requires i < |sources|
    ensures
      var name := sources[i].name;
      && name in ByName(sources) && ByName(sources)[name].name == name
      && ((forall j :: i < j < |sources| ==> sources[j].name != name) ==> ByName(sources)[name] == sources[i])
  {
    if i < |sources| - 1 {
      var front := sources[..|sources| - 1];
      LastOfNameWins(front, i);
      assert forall j :: i < j < |front| ==> front[j] == sources[j];
    }
  }

  class InterleavedSources {
    var handles: map<string, Handle>
    var schedule: seq<string>
    var tick: nat

    function Now(): State
      reads this
    {
      InterleaveSpec.State.State(handles, schedule, tick)
    }

    constructor (sources: seq<Source>, checkpoint: map<string, nat>, weights: map<string, int>)
      ensures FromOpen(Now(), ByName(sources), checkpoint) && tick == 0
      ensures schedule == ScheduleOf(map n | n in handles :: WeightOf(weights, n))
      ensures forall name :: name in handles ==>
        Count(schedule, name) == if name !in weights then 1 else if weights[name] > 0 then weights[name] else 0
      ensures Sound(Now())
    {
      hide ScheduleOf, Count;
      var handlesByName: map<string, Handle> := map[];
      for i := 0 to |sources|
        invariant FromOpen(InterleaveSpec.State.State(handlesByName, [], 0), ByName(sources[..i]), checkpoint)
      {
        assert sources[..i + 1][..i] == sources[..i];
        var src := sources[i];
        var offset := if src.name in checkpoint then checkpoint[src.name] else 0;
        handlesByName := handlesByName[src.name := Opened(src, offset)];
      }
      assert sources[..|sources|] == sources;
      var planned := WeightedSchedule(map n | n in handlesByName :: WeightOf(weights, n));
      forall name | name in handlesByName
        ensures Count(planned, name) == if name !in weights then 1 else if weights[name] > 0 then weights[name] else 0
      {
        OpenedCount(handlesByName.Keys, weights, name);
        assert (map n | n in handlesByName :: WeightOf(weights, n))
            == map n | n in handlesByName.Keys :: WeightOf(weights, n);
      }
      handles, schedule, tick := handlesByName, planned, 0;
    }

    /** One pass of the loop body: one tick of the clocked machine. */
    method Advance(active: int) returns (left: int, y: Option<Item>)
      requires schedule != [] && active == |LiveNames(Now())|
      modifies this
      ensures (Now(), y) == Tick(old(Now())) && left == |LiveNames(Now())|
    {
      hide SlotAt;
      TickLiveNames(Now());
      y, left := None, active;
      var name := SlotAt(schedule, tick);
      tick := tick + 1;
      if name in handles && !handles[name].exhausted {
        var h := handles[name];
        if h.pos >= |h.lines| {
          handles := handles[name := h.(exhausted := true)];
          left := left - 1;
        } else {
          handles := handles[name := h.(pos := h.pos + 1, lineNo := h.lineNo + 1)];
          y := Some(Item(name, h.path, h.lineNo + 1, h.lines[h.pos]));
        }
      }
    }

    /** The whole iteration. If every live source is scheduled it ends, having run the clocked
        machine until nothing is live and yielded what the machine yields; each source has then
        delivered exactly what it held. An empty schedule yields nothing at all. */
    method Iterate() returns (out: seq<Item>, ghost ticks: nat)
      requires Sound(Now())
      requires schedule != [] ==> AllScheduled(Now())
      modifies this
      ensures schedule == old(schedule)
      ensures schedule == [] ==> out == [] && Now() == old(Now())
      ensures schedule != [] ==>
        && Now() == Ticks(old(Now()), ticks) && Done(Now())
        && out == Yields(old(Now()), ticks)
        && forall name :: name in old(handles) ==> Project(out, name) == Remaining(name, old(handles)[name])
    {
      out, ticks := [], 0;
      if schedule == [] {
        return;
      }
      ghost var start := Now();
      var active := |LiveNames(Now())|;
      ghost var target: nat := LoopStart(start);
      hide Loop, Tick, LiveNames, Done, Project, Remaining;
      while active > 0
        invariant schedule != [] && Loop(start, Now(), out, ticks, active, target)
        decreases Pending(Now()), target - tick
      {
        ghost var before := Now();
        var y;
        active, y := Advance(active) by { LoopCounts(start, before, out, ticks, active, target); }
        target := LoopNext(start, before, out, ticks, active, target);
        out := out + if y.Some? then [y.value] else [];
        ticks := ticks + 1;
      }
      LoopEnds(start, Now(), out, ticks, active, target);
    }
  }

  /** The loop invariant: the object is the clocked machine after `n` ticks, `active` counts its
      live sources, and while there are any a live slot lies ahead at `target`. */
  ghost predicate Loop(start: State, now: State, out: seq<Item>, n: nat, active: int, target: nat) {
    && start.schedule != [] && now == Ticks(start, n) && out == Yields(start, n)
    && active == |LiveNames(now)|
    && Sound(now) && AllScheduled(now)
    && (active > 0 ==> target >= now.tick && Live(now, SlotAt(now.schedule, target)))
  }

  lemma LoopStart(s: State) returns (target: nat)
    requires s.schedule != [] && Sound(s) && AllScheduled(s)
    ensures Loop(s, s, [], 0, |LiveNames(s)|, target)
  {
    hide SlotAt, AllScheduled, Sound, Live, LiveNames;
    LiveNamesEmpty(s);
    target := 0;
    if |LiveNames(s)| > 0 {
      target := LiveSlotAhead(s);
    }
  }

  lemma LoopCounts(start: State, now: State, out: seq<Item>, n: nat, active: int, target: nat)
    requires Loop(start, now, out, n, active, target)
    ensures active == |LiveNames(now)|
  {
  }

  lemma LoopNext(start: State, now: State, out: seq<Item>, n: nat, left: int, target: nat) returns (next: nat)
    requires now.schedule != [] && Loop(start, now, out, n, |LiveNames(now)|, target) && |LiveNames(now)| > 0
    requires left == |LiveNames(Tick(now).0)|
    ensures
      var (t, y) := Tick(now);
      && t.schedule == now.schedule && t.tick == now.tick + 1
      && Loop(start, t, out + if y.Some? then [y.value] else [], n + 1, left, next)
      && (Pending(t) < Pending(now) || (Pending(t) == Pending(now) && now.tick < target && next == target))
  {
    hide SlotAt, Tick, Pending, Sound, AllScheduled, LiveNames;
    TickKeeps(now);
    var t := Tick(now).0;
    next := target;
    LiveNamesEmpty(t);
    if Live(now, SlotAt(now.schedule, now.tick)) && left > 0 {
      next := LiveSlotAhead(t);
    }
  }

  lemma LoopEnds(start: State, now: State, out: seq<Item>, n: nat, active: int, target: nat)
    requires Loop(start, now, out, n, active, target) && active <= 0
    ensures start.schedule != [] && now == Ticks(start, n) && Done(now) && out == Yields(start, n)
    ensures now.schedule == start.schedule
    ensures forall name :: name in start.handles ==> Project(out, name) == Remaining(name, start.handles[name])
  {
    LiveNamesEmpty(now);
    AllDelivered(start, n);
  }

  /** A finished run has delivered what every source held. */
  lemma AllDelivered(s: State, n: nat)
    requires s.schedule != [] && Done(Ticks(s, n))
    ensures forall name :: name in s.handles ==> Project(Yields(s, n), name) == Remaining(name, s.handles[name])
  {
    hide Done, Remaining, Project;
    forall name | name in s.handles
      ensures Project(Yields(s, n), name) == Remaining(name, s.handles[name])
    {
      TicksDeliver(s, n, name);
      DoneHolds(Ticks(s, n), name);
    }
  }

  function LiveNames(s: State): set<string> {
    set name | name in s.handles && !s.handles[name].exhausted
  }

  lemma LiveNamesEmpty(s: State)
    ensures |LiveNames(s)| == 0 <==> Done(s)
  {
    assert forall name :: name in LiveNames(s) <==> Live(s, name);
    if |LiveNames(s)| > 0 {
      var name := Pick(LiveNames(s));
      assert Live(s, name);
    }
  }

  lemma TickLiveNames(s: State)
    requires s.schedule != []
    ensures
      var name := SlotAt(s.schedule, s.tick);
      var t := Tick(s).0;
      if Live(s, name) && !Live(t, name) then |LiveNames(t)| == |LiveNames(s)| - 1
      else |LiveNames(t)| == |LiveNames(s)|
  {
    hide SlotAt;
    var name := SlotAt(s.schedule, s.tick);
    var t := Tick(s).0;
    if Live(s, name) && !Live(t, name) {
      assert LiveNames(t) == LiveNames(s) - {name};
    } else {
      assert LiveNames(t) == LiveNames(s);
    }
  }
}
