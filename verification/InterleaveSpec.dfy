/** The weighted interleaver of source files as a clocked machine on values. */
module InterleaveSpec {
  import opened Collections
  import opened Wrappers

  datatype Handle = Handle(path: string, lines: seq<string>, pos: nat, lineNo: int, exhausted: bool)

  datatype Item = Item(name: string, path: string, lineNo: int, line: string)

  datatype State = State(handles: map<string, Handle>, schedule: seq<string>, tick: nat)

  /** A source file: the directory that names it, its path and its lines (line ends included). */
  datatype Source = Source(name: string, path: string, lines: seq<string>)

  // ---- the sorted names and the schedule ----

  predicate StringLe(a: string, b: string) {
    a == "" || (b != "" && (a[0] < b[0] || (a[0] == b[0] && StringLe(a[1..], b[1..]))))
  }

  lemma {:induction false} StringLeTotal(a: string, b: string)
    ensures StringLe(a, b) || StringLe(b, a)
    ensures StringLe(a, b) && StringLe(b, a) ==> a == b
  {
    if a != "" && b != "" && a[0] == b[0] {
      StringLeTotal(a[1..], b[1..]);
      assert a == [a[0]] + a[1..] && b == [b[0]] + b[1..];
    }
  }

  lemma {:induction false} StringLeTransitive(a: string, b: string, c: string)
    requires StringLe(a, b) && StringLe(b, c)
    ensures StringLe(a, c)
  {
    if a != "" && a[0] == b[0] && b[0] == c[0] {
      StringLeTransitive(a[1..], b[1..], c[1..]);
    }
  }

  predicate IsFirst(names: set<string>, x: string) {
    x in names && forall y :: y in names ==> StringLe(x, y)
  }

  lemma {:induction false} FirstExists(names: set<string>)
    requires names != {}
    ensures exists x :: IsFirst(names, x)
    ensures forall x, y :: IsFirst(names, x) && IsFirst(names, y) ==> x == y
  {
    var x := Pick(names);
    StringLeTotal(x, x);
    if names == {x} {
      assert IsFirst(names, x);
    } else {
      FirstExists(names - {x});
      var y :| IsFirst(names - {x}, y);
      StringLeTotal(x, y);
      var first := if StringLe(x, y) then x else y;
      forall z | z in names
        ensures StringLe(first, z)
      {
        if StringLe(x, y) && z != x {
          StringLeTransitive(x, y, z);
        }
      }
      assert IsFirst(names, first);
    }
    forall x, y | IsFirst(names, x) && IsFirst(names, y)
      ensures x == y
    {
      StringLeTotal(x, y);
    }
  }

  function First(names: set<string>): (x: string)
    requires names != {}
    ensures IsFirst(names, x)
  {
    FirstExists(names);
    var x :| IsFirst(names, x);
    x
  }

  function Sorted(names: set<string>): (r: seq<string>)
    ensures forall x :: x in r <==> x in names
  {
    if names == {} then [] else [First(names)] + Sorted(names - {First(names)})
  }

  function Block(name: string, weight: int): seq<string> {
    if weight <= 0 then [] else seq(weight, _ => name)
  }

  function Blocks(order: seq<string>, weights: map<string, int>): seq<string>
    requires forall n :: n in order ==> n in weights
  {
    if order == [] then []
    else Blocks(order[..|order| - 1], weights) + Block(order[|order| - 1], weights[order[|order| - 1]])
  }

  /** The schedule lists the names in sorted order, each as often as its weight. */
  function ScheduleOf(weights: map<string, int>): seq<string> {
    Blocks(Sorted(weights.Keys), weights)
  }

  // ---- one tick ----

  predicate Live(s: State, name: string) {
    name in s.handles && !s.handles[name].exhausted
  }

  function SlotAt(schedule: seq<string>, tick: nat): string
    requires schedule != []
  {
    schedule[tick % |schedule|]
  }

  function Tick(s: State): (State, Option<Item>)
    requires s.schedule != []
  {
    var name := SlotAt(s.schedule, s.tick);
    var s1 := s.(tick := s.tick + 1);
    if !Live(s, name) then (s1, None)
    else
      var h := s.handles[name];
      if h.pos >= |h.lines| then (s1.(handles := s.handles[name := h.(exhausted := true)]), None)
      else
        (s1.(handles := s.handles[name := h.(pos := h.pos + 1, lineNo := h.lineNo + 1)]),
         Some(Item(name, h.path, h.lineNo + 1, h.lines[h.pos])))
  }

  function Ticks(s: State, n: nat): (r: State)
    requires s.schedule != []
    ensures r.schedule == s.schedule && r.tick == s.tick + n && r.handles.Keys == s.handles.Keys
  {
    if n == 0 then s else Tick(Ticks(s, n - 1)).0
  }

  function Yields(s: State, n: nat): seq<Item>
    requires s.schedule != []
  {
    if n == 0 then []
    else
      var y := Tick(Ticks(s, n - 1)).1;
      Yields(s, n - 1) + if y.Some? then [y.value] else []
  }

  // ---- opening ----

  function Opened(src: Source, offset: nat): Handle {
    Handle(src.path, src.lines, if offset < |src.lines| then offset else |src.lines|, offset - 1, false)
  }

  function WeightOf(weights: map<string, int>, name: string): int {
    if name in weights then weights[name] else 1
  }
}
