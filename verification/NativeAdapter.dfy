/**
 The native adapter's race for a child process: a wait task per launch and any
 number of stop calls, each of which may take the child out of its shared cell.
 Every access under a lock is one step; steps of all tasks interleave freely.
 A launch has a number of its own; the instance id it is filed under may be used again.
 */
module NativeAdapter {

  /** Where the wait task is: none was spawned, before taking the child, awaiting its
      exit, after the exit, after removing the map entry, returned. */
  datatype WaitPc = NoTask | Start | Waiting | Reaped | Unlisted | Done

  /** A stop call: it removed a map entry and holds the cell, it took the child, it returned. */
  datatype StopCall = Holding(launch: nat) | Killing(launch: nat) | Ended

  /** One launch: its instance id, its cell, its wait task, and what happened so far. `spared`
      means that a kill returned an error. */
  datatype Cell = Cell(
    id: nat, child: bool, wait: WaitPc,
    takes: nat, waitWon: bool, stopWon: bool, notices: nat, killed: bool, spared: bool)

  /** The launches, the map of children from instance id to launch, and the stop calls. */
  datatype State = State(cells: map<nat, Cell>, children: map<nat, nat>, stops: map<nat, StopCall>)

  datatype Event =
    | Launch(launch: nat, id: nat, exitSink: bool)
    | WaitTake(launch: nat)
    | WaitReap(launch: nat)
    | WaitUnlist(launch: nat)
    | WaitNotify(launch: nat)
    | StopRemove(call: nat, id: nat)
    | StopTake(call: nat)
    | StopKill(call: nat, ok: bool)

  predicate AtWait(s: State, n: nat, pc: WaitPc) {
    n in s.cells && s.cells[n].wait == pc
  }

  function With(s: State, n: nat, c: Cell): State {
    s.(cells := s.cells[n := c])
  }

  function Take(c: Cell): Cell {
    c.(child := false, takes := c.takes + 1)
  }

  function NewCell(id: nat, exitSink: bool): Cell {
    Cell(id, true, if exitSink then Start else NoTask, 0, false, false, 0, false, false)
  }

  function TakenToWait(c: Cell): Cell {
    if c.child then Take(c).(wait := Waiting, waitWon := true) else c.(wait := Done)
  }

  /** One step of one task; a step that is not enabled changes nothing. */
  function Step(s: State, e: Event): State {
    match e
    case Launch(n, id, sink) =>
      if n in s.cells then s else With(s, n, NewCell(id, sink)).(children := s.children[id := n])
    case WaitTake(n) =>
      if AtWait(s, n, Start) then With(s, n, TakenToWait(s.cells[n])) else s
    case WaitReap(n) =>
      if AtWait(s, n, Waiting) then With(s, n, s.cells[n].(wait := Reaped)) else s
    case WaitUnlist(n) =>
      if AtWait(s, n, Reaped)
      then With(s, n, s.cells[n].(wait := Unlisted)).(children := s.children - {s.cells[n].id})
      else s
    case WaitNotify(n) =>
      if AtWait(s, n, Unlisted)
      then With(s, n, s.cells[n].(wait := Done, notices := s.cells[n].notices + 1))
      else s
    case StopRemove(call, id) =>
      if call in s.stops then s
      else if id in s.children
      then s.(children := s.children - {id}, stops := s.stops[call := Holding(s.children[id])])
      else s.(stops := s.stops[call := Ended])
    case StopTake(call) =>
      if !(call in s.stops && s.stops[call].Holding? && s.stops[call].launch in s.cells) then s
      else
        var n := s.stops[call].launch;
        if s.cells[n].child
        then With(s, n, Take(s.cells[n]).(stopWon := true)).(stops := s.stops[call := Killing(n)])
        else s.(stops := s.stops[call := Ended])
    case StopKill(call, ok) =>
      if !(call in s.stops && s.stops[call].Killing? && s.stops[call].launch in s.cells) then s
      else
        var n := s.stops[call].launch;
        With(s, n, if ok then s.cells[n].(killed := true) else s.cells[n].(spared := true))
          .(stops := s.stops[call := Ended])
  }

  function RunFrom(s: State, events: seq<Event>): State {
    if events == [] then s else Step(RunFrom(s, events[..|events| - 1]), events[|events| - 1])
  }

  const IDLE := State(map[], map[], map[])

  function Run(events: seq<Event>): State {
    RunFrom(IDLE, events)
  }

  // ------------------------------------------------------------ the adapter object

  /** The adapter's shared state. Each method is the code one task runs under a lock, or
      one await of it; the wait task and a stop call are these methods in sequence. */
  class Adapter {
    var cells: map<nat, Cell>
    var children: map<nat, nat>
    var stops: map<nat, StopCall>

    ghost function Value(): State
      reads this
    {
      State(cells, children, stops)
    }

    constructor ()
      ensures Value() == IDLE
    {
      cells, children, stops := map[], map[], map[];
    }

    /** Put the child in a new shared cell, file it under its id in place of any other, and
        spawn a wait task if exits are wanted. */
    method LaunchChild(n: nat, id: nat, exitSink: bool)
      requires n !in cells
      modifies this
      ensures Value() == Step(old(Value()), Launch(n, id, exitSink))
    {
      var c := Cell(id, true, NoTask, 0, false, false, 0, false, false);
      children := children[id := n];
      if exitSink {
        c := c.(wait := Start);
      }
      cells := cells[n := c];
    }

    /** The wait task takes the child out of the cell, or returns if a stop has it. */
    method TakeToWait(n: nat) returns (won: bool)
      requires AtWait(Value(), n, Start)
      modifies this
      ensures Value() == Step(old(Value()), WaitTake(n))
      ensures won <==> old(cells[n].child)
    {
      var c := cells[n];
      won := c.child;
      c := if won then Take(c).(wait := Waiting, waitWon := true) else c.(wait := Done);
      cells := cells[n := c];
    }

    /** The child has exited. */
    method Reap(n: nat)
      requires AtWait(Value(), n, Waiting)
      modifies this
      ensures Value() == Step(old(Value()), WaitReap(n))
    {
      cells := cells[n := cells[n].(wait := Reaped)];
    }

    /** The wait task removes the map entry of its id, whatever launch it points to. */
    method Unlist(n: nat)
      requires AtWait(Value(), n, Reaped)
      modifies this
      ensures Value() == Step(old(Value()), WaitUnlist(n))
    {
      children := children - {cells[n].id};
      cells := cells[n := cells[n].(wait := Unlisted)];
    }

    /** The wait task sends the exit notice and returns. */
    method Notify(n: nat)
      requires AtWait(Value(), n, Unlisted)
      modifies this
      ensures Value() == Step(old(Value()), WaitNotify(n))
    {
      var c := cells[n];
      cells := cells[n := c.(wait := Done, notices := c.notices + 1)];
    }

    /** A stop call removes the map entry, or returns if there is none. */
    method RemoveToStop(call: nat, id: nat) returns (found: bool)
      requires call !in stops
      modifies this
      ensures Value() == Step(old(Value()), StopRemove(call, id))
      ensures found <==> id in old(children)
    {
      found := id in children;
      if found {
        stops := stops[call := Holding(children[id])];
        children := children - {id};
      } else {
        stops := stops[call := Ended];
      }
    }

    /** A stop call takes the child out of the cell, or returns if the wait task has it. */
    method TakeToKill(call: nat) returns (won: bool)
      requires call in stops && stops[call].Holding? && stops[call].launch in cells
      modifies this
      ensures Value() == Step(old(Value()), StopTake(call))
      ensures won <==> old(cells[stops[call].launch].child)
    {
      var n := stops[call].launch;
      won := cells[n].child;
      if won {
        cells := cells[n := Take(cells[n]).(stopWon := true)];
      }
      stops := stops[call := if won then Killing(n) else Ended];
    }

    /** A stop call kills the child it took and returns the outcome. */
    method Kill(call: nat, ok: bool) returns (error: bool)
      requires call in stops && stops[call].Killing? && stops[call].launch in cells
      modifies this
      ensures Value() == Step(old(Value()), StopKill(call, ok))
      ensures error <==> !ok
    {
      var n := stops[call].launch;
      error := !ok;
      cells := cells[n := if error then cells[n].(spared := true) else cells[n].(killed := true)];
      stops := stops[call := Ended];
    }
  }

  // ------------------------------------------------------------ what every interleaving keeps

  /** The map of children points to launch `n`. */
  predicate Listed(s: State, n: nat) {
    n in s.cells && s.cells[n].id in s.children && s.children[s.cells[n].id] == n
  }

  /** Who took the child, and what followed from it. */
  ghost predicate Sound(c: Cell) {
    && c.takes == (if c.waitWon then 1 else 0) + (if c.stopWon then 1 else 0)
    && (c.child <==> c.takes == 0) && c.takes <= 1
    && (c.waitWon <==> c.wait in {Waiting, Reaped, Unlisted} || (c.wait == Done && c.notices == 1))
    && (c.notices == if c.wait == Done && c.waitWon then 1 else 0)
    && (c.wait == Done ==> c.waitWon || c.stopWon)
    && (c.killed || c.spared ==> c.stopWon) && !(c.killed && c.spared)
  }

  /** The map entry of a launch is gone once its wait task has removed it or a stop took the child. */
  ghost predicate EntryGone(s: State, n: nat)
    requires n in s.cells
  {
    s.cells[n].wait == Unlisted || s.cells[n].wait == Done || s.cells[n].stopWon ==> !Listed(s, n)
  }

  /** The stop call is past its removal of the entry and not finished. */
  predicate BusyOn(s: State, call: nat, n: nat) {
    call in s.stops && (s.stops[call] == Holding(n) || s.stops[call] == Killing(n))
  }

  ghost predicate StopSound(s: State, call: nat, n: nat)
    requires BusyOn(s, call, n)
  {
    && n in s.cells && !Listed(s, n)
    && (s.stops[call] == Holding(n) ==> !s.cells[n].stopWon)
    && (s.stops[call] == Killing(n) ==> s.cells[n].stopWon && !s.cells[n].killed && !s.cells[n].spared)
  }

  /** No other launch has the same instance id. */
  ghost predicate OwnId(s: State, n: nat)
    requires n in s.cells
  {
    forall m :: m in s.cells && s.cells[m].id == s.cells[n].id ==> m == n
  }

  ghost predicate Holds(s: State, call: nat, c: StopCall) {
    call in s.stops && s.stops[call] == c
  }

  /** A child taken by a stop is killed or spared, or a stop is about to kill it; a child in its
      cell without a map entry is held by a stop, unless its id was used again. */
  ghost predicate Accounted(s: State, n: nat)
    requires n in s.cells
  {
    var c := s.cells[n];
    && (c.stopWon && !c.killed && !c.spared ==> exists call :: Holds(s, call, Killing(n)))
    && (c.child && !Listed(s, n) && OwnId(s, n) ==> exists call :: Holds(s, call, Holding(n)))
  }

  ghost predicate CellOk(s: State, n: nat)
    requires n in s.cells
  {
    Sound(s.cells[n]) && EntryGone(s, n) && Accounted(s, n)
  }

  ghost predicate Invariant(s: State) {
    && (forall n :: n in s.cells ==> CellOk(s, n))
    && (forall id :: id in s.children ==> s.children[id] in s.cells && s.cells[s.children[id]].id == id)
    && (forall call, n :: BusyOn(s, call, n) ==> StopSound(s, call, n))
    && (forall call, call', n :: BusyOn(s, call, n) && BusyOn(s, call', n) ==> call == call')
  }

  /** The same stop calls, and no launch newly listed. */
  ghost predicate StopsKept(s: State, t: State) {
    && t.stops == s.stops
    && (forall n :: n in s.cells ==> n in t.cells && t.cells[n].id == s.cells[n].id && (Listed(t, n) ==> Listed(s, n)))
  }

  lemma OtherIsOk(s: State, t: State, n: nat)
    requires n in s.cells && CellOk(s, n) && StopsKept(s, t) && t.cells[n] == s.cells[n]
    requires OwnId(t, n) ==> (Listed(s, n) ==> Listed(t, n))
    ensures CellOk(t, n)
  {
    if OwnId(t, n) {
      assert OwnId(s, n) by {
        assert forall m :: m in s.cells ==> m in t.cells && t.cells[m].id == s.cells[m].id;
      }
    }
    if call :| Holds(s, call, Killing(n)) {
      assert Holds(t, call, Killing(n));
    }
    if call :| Holds(s, call, Holding(n)) {
      assert Holds(t, call, Holding(n));
    }
  }

  lemma StopsStaySound(s: State, t: State)
    requires Invariant(s) && StopsKept(s, t)
    requires forall n :: n in s.cells ==>
               t.cells[n].stopWon == s.cells[n].stopWon && t.cells[n].killed == s.cells[n].killed
               && t.cells[n].spared == s.cells[n].spared
    ensures forall call, n :: BusyOn(t, call, n) ==> StopSound(t, call, n)
    ensures forall call, call', n :: BusyOn(t, call, n) && BusyOn(t, call', n) ==> call == call'
  {
    forall call, n | BusyOn(t, call, n)
      ensures StopSound(t, call, n)
    {
      assert BusyOn(s, call, n);
    }
    assert forall call, n :: BusyOn(t, call, n) ==> BusyOn(s, call, n);
  }

  lemma LaunchKeeps(s: State, n: nat, id: nat, sink: bool)
    requires Invariant(s)
    ensures Invariant(Step(s, Launch(n, id, sink)))
  {
    if n !in s.cells {
      var t := Step(s, Launch(n, id, sink));
      assert StopsKept(s, t);
      StopsStaySound(s, t);
      forall m | m in s.cells
        ensures CellOk(t, m)
      {
        assert OwnId(t, m) ==> s.cells[m].id != id by {
          assert t.cells[n].id == id;
        }
        OtherIsOk(s, t, m);
      }
      assert CellOk(t, n);
    }
  }

  /** A step of a wait task that leaves the map alone. */
  lemma WaitStepKeeps(s: State, n: nat, c: Cell)
    requires Invariant(s) && n in s.cells && Sound(c) && c.id == s.cells[n].id
    requires c.stopWon == s.cells[n].stopWon && c.killed == s.cells[n].killed && c.spared == s.cells[n].spared
    requires (c.child ==> s.cells[n].child) && (c.wait in {Unlisted, Done} ==> !Listed(s, n))
    ensures Invariant(With(s, n, c))
  {
    var t := With(s, n, c);
    assert forall m :: Listed(t, m) <==> Listed(s, m);
    StopsStaySound(s, t);
    forall m | m in t.cells
      ensures CellOk(t, m)
    {
      assert CellOk(s, m);
      if m != n {
        OtherIsOk(s, t, m);
      } else {
        OwnStep(s, t, n);
      }
    }
  }

  lemma OwnStep(s: State, t: State, n: nat)
    requires n in s.cells && n in t.cells && CellOk(s, n) && StopsKept(s, t) && Sound(t.cells[n]) && EntryGone(t, n)
    requires var c, d := s.cells[n], t.cells[n];
             c.stopWon == d.stopWon && c.killed == d.killed && c.spared == d.spared && (d.child ==> c.child)
    requires t.cells[n].child ==> (Listed(s, n) ==> Listed(t, n))
    ensures CellOk(t, n)
  {
    assert OwnId(t, n) ==> OwnId(s, n) by {
      assert forall m :: m in s.cells ==> m in t.cells && t.cells[m].id == s.cells[m].id;
    }
    if call :| Holds(s, call, Killing(n)) {
      assert Holds(t, call, Killing(n));
    }
    if call :| Holds(s, call, Holding(n)) {
      assert Holds(t, call, Holding(n));
    }
  }

  lemma UnlistKeeps(s: State, n: nat)
    requires Invariant(s)
    ensures Invariant(Step(s, WaitUnlist(n)))
  {
    if AtWait(s, n, Reaped) {
      var t := Step(s, WaitUnlist(n));
      assert CellOk(s, n);
      assert forall m :: Listed(t, m) <==> Listed(s, m) && s.cells[m].id != s.cells[n].id;
      StopsStaySound(s, t);
      forall m | m in t.cells
        ensures CellOk(t, m)
      {
        assert CellOk(s, m);
        if m != n {
          assert OwnId(t, m) ==> t.cells[m].id != t.cells[n].id;
          OtherIsOk(s, t, m);
        } else {
          OwnStep(s, t, n);
        }
      }
    }
  }

  // ------------------------------------------------------------ stop calls

  /** A step of one stop call on one launch: other calls and other launches are as before. */
  ghost predicate StopStep(s: State, t: State, call: nat, n: nat) {
    && n in s.cells && t.cells.Keys == s.cells.Keys && call in t.stops
    && (forall m :: m in s.cells ==> t.cells[m].id == s.cells[m].id && (m != n ==> t.cells[m] == s.cells[m]))
    && (forall m :: m in s.cells && m != n ==> (Listed(t, m) <==> Listed(s, m)))
    && t.stops.Keys == s.stops.Keys + {call}
    && (forall other :: other in s.stops && other != call ==> t.stops[other] == s.stops[other])
    && (call in s.stops ==> BusyOn(s, call, n))
    && (t.stops[call] == Ended || BusyOn(t, call, n))
  }

  lemma StopOtherIsOk(s: State, t: State, call: nat, n: nat, m: nat)
    requires StopStep(s, t, call, n) && m in s.cells && m != n && CellOk(s, m)
    ensures CellOk(t, m)
  {
    assert OwnId(t, m) ==> OwnId(s, m);
    if other :| Holds(s, other, Killing(m)) {
      assert Holds(t, other, Killing(m));
    }
    if other :| Holds(s, other, Holding(m)) {
      assert Holds(t, other, Holding(m));
    }
  }

  lemma StopStepKeeps(s: State, t: State, call: nat, n: nat)
    requires Invariant(s) && StopStep(s, t, call, n) && CellOk(t, n) && !Listed(t, n)
    requires BusyOn(t, call, n) ==> StopSound(t, call, n)
    requires call !in s.stops ==> Listed(s, n)
    requires forall id :: id in t.children ==> id in s.children && t.children[id] == s.children[id]
    ensures Invariant(t)
  {
    forall m | m in t.cells
      ensures CellOk(t, m)
    {
      if m != n {
        StopOtherIsOk(s, t, call, n, m);
      }
    }
    OnlyCallOn(s, t, call, n);
    OtherCallsAreSound(s, t, call, n);
  }

  lemma OtherCallsAreSound(s: State, t: State, call: nat, n: nat)
    requires Invariant(s) && StopStep(s, t, call, n)
    requires forall other :: other != call ==> !BusyOn(t, other, n)
    requires BusyOn(t, call, n) ==> StopSound(t, call, n)
    ensures forall other, m :: BusyOn(t, other, m) ==> StopSound(t, other, m)
  {
    forall other, m | BusyOn(t, other, m)
      ensures StopSound(t, other, m)
    {
      if other != call {
        assert BusyOn(s, other, m) && m != n;
        assert StopSound(s, other, m);
      }
    }
  }

  /** No other call is busy on the launch, before or after. */
  lemma OnlyCallOn(s: State, t: State, call: nat, n: nat)
    requires Invariant(s) && StopStep(s, t, call, n)
    requires call !in s.stops ==> Listed(s, n)
    ensures forall other :: other != call ==> !BusyOn(t, other, n)
    ensures forall c, c', m :: BusyOn(t, c, m) && BusyOn(t, c', m) ==> c == c'
  {
    forall other | other != call
      ensures !BusyOn(t, other, n)
    {
      assert BusyOn(t, other, n) ==> BusyOn(s, other, n);
      assert BusyOn(s, other, n) ==> StopSound(s, other, n);
    }
    forall c, c', m | BusyOn(t, c, m) && BusyOn(t, c', m)
      ensures c == c'
    {
      assert c != call ==> BusyOn(s, c, m);
      assert c' != call ==> BusyOn(s, c', m);
    }
  }

  lemma StopRemoveKeeps(s: State, call: nat, id: nat)
    requires Invariant(s)
    ensures Invariant(Step(s, StopRemove(call, id)))
  {
    if call !in s.stops {
      var t := Step(s, StopRemove(call, id));
      if id in s.children {
        var n := s.children[id];
        assert CellOk(s, n) && Listed(s, n);
        assert Holds(t, call, Holding(n));
        assert OwnId(t, n) <==> OwnId(s, n);
        assert CellOk(t, n);
        StopStepKeeps(s, t, call, n);
      } else {
        EndedCallKeeps(s, call);
      }
    }
  }

  lemma EndedCallKeeps(s: State, call: nat)
    requires Invariant(s) && call !in s.stops
    ensures Invariant(s.(stops := s.stops[call := Ended]))
  {
    var t := s.(stops := s.stops[call := Ended]);
    assert forall other, c: StopCall :: Holds(s, other, c) ==> Holds(t, other, c);
    assert forall m :: Listed(t, m) <==> Listed(s, m);
    forall m | m in t.cells
      ensures CellOk(t, m)
    {
      assert CellOk(s, m);
      assert OwnId(t, m) ==> OwnId(s, m);
    }
    forall other, m | BusyOn(t, other, m)
      ensures StopSound(t, other, m)
    {
      assert BusyOn(s, other, m);
    }
    assert forall other, m :: BusyOn(t, other, m) ==> BusyOn(s, other, m);
  }

  lemma StopTakeKeeps(s: State, call: nat)
    requires Invariant(s)
    ensures Invariant(Step(s, StopTake(call)))
  {
    if call in s.stops && s.stops[call].Holding? {
      var n, t := s.stops[call].launch, Step(s, StopTake(call));
      assert BusyOn(s, call, n);
      assert StopSound(s, call, n) && CellOk(s, n);
      assert s.cells[n].child ==> Holds(t, call, Killing(n));
      assert CellOk(t, n);
      StopStepKeeps(s, t, call, n);
    }
  }

  lemma StopKillKeeps(s: State, call: nat, ok: bool)
    requires Invariant(s)
    ensures Invariant(Step(s, StopKill(call, ok)))
  {
    if call in s.stops && s.stops[call].Killing? {
      var n, t := s.stops[call].launch, Step(s, StopKill(call, ok));
      assert BusyOn(s, call, n);
      assert StopSound(s, call, n) && CellOk(s, n);
      assert CellOk(t, n);
      StopStepKeeps(s, t, call, n);
    }
  }

  lemma StepKeepsInvariant(s: State, e: Event)
    requires Invariant(s)
    ensures Invariant(Step(s, e))
  {
    match e
    case Launch(n, id, sink) => LaunchKeeps(s, n, id, sink);
    case WaitTake(n) =>
      if AtWait(s, n, Start) {
        assert CellOk(s, n);
        WaitStepKeeps(s, n, TakenToWait(s.cells[n]));
      }
    case WaitReap(n) =>
      if AtWait(s, n, Waiting) {
        assert CellOk(s, n);
        WaitStepKeeps(s, n, s.cells[n].(wait := Reaped));
      }
    case WaitUnlist(n) => UnlistKeeps(s, n);
    case WaitNotify(n) =>
      if AtWait(s, n, Unlisted) {
        assert CellOk(s, n);
        WaitStepKeeps(s, n, s.cells[n].(wait := Done, notices := s.cells[n].notices + 1));
      }
    case StopRemove(call, id) => StopRemoveKeeps(s, call, id);
    case StopTake(call) => StopTakeKeeps(s, call);
    case StopKill(call, ok) => StopKillKeeps(s, call, ok);
  }

  lemma {:induction false} EveryInterleavingKeepsInvariant(events: seq<Event>)
    ensures Invariant(Run(events))
    decreases |events|
  {
    if events != [] {
      EveryInterleavingKeepsInvariant(events[..|events| - 1]);
      StepKeepsInvariant(Run(events[..|events| - 1]), events[|events| - 1]);
    }
  }

  // ------------------------------------------------------------ main results

  /** Single ownership: in every interleaving a child is taken at most once, at most
      one exit notice is sent, and only when the wait task won; a kill needs a stop
      that won; the map entry is gone once the wait task has returned or a stop won. */
  lemma ChildHasOneOwner(events: seq<Event>, n: nat)
    requires n in Run(events).cells
    ensures var c := Run(events).cells[n];
            && c.takes <= 1 && c.notices <= 1
            && (c.notices == 1 ==> c.waitWon && !c.stopWon)
            && (c.killed || c.spared ==> c.stopWon && !c.waitWon)
            && (c.wait == Done || c.stopWon ==> !Listed(Run(events), n))
  {
    EveryInterleavingKeepsInvariant(events);
    assert CellOk(Run(events), n);
  }

  /** A launch whose map entry is gone, whoever removed it, is never listed again. */
  lemma {:induction false} UnlistedStays(s: State, events: seq<Event>, n: nat)
    requires n in s.cells && !Listed(s, n)
    ensures n in RunFrom(s, events).cells && !Listed(RunFrom(s, events), n)
    ensures RunFrom(s, events).cells[n].id == s.cells[n].id
    decreases |events|
  {
    if events != [] {
      UnlistedStays(s, events[..|events| - 1], n);
      UnlistedStep(RunFrom(s, events[..|events| - 1]), events[|events| - 1], n);
    }
  }

  lemma UnlistedStep(s: State, e: Event, n: nat)
    requires n in s.cells && !Listed(s, n)
    ensures n in Step(s, e).cells && Step(s, e).cells[n].id == s.cells[n].id && !Listed(Step(s, e), n)
  {
  }

  /** Nothing is under way: every wait task and every stop call has returned. */
  ghost predicate Quiescent(s: State) {
    && (forall n :: n in s.cells ==> s.cells[n].wait in {NoTask, Done})
    && (forall call :: call in s.stops ==> s.stops[call] == Ended)
  }

  /** Taken once, off the map, and either noticed or ended by a stop. */
  ghost predicate EndedOnce(s: State, n: nat)
    requires n in s.cells
  {
    var c := s.cells[n];
    && !Listed(s, n) && c.takes == 1
    && (c.notices == 1 <==> c.waitWon) && (c.killed || c.spared <==> c.stopWon) && (c.waitWon <==> !c.stopWon)
  }

  /** When everything has returned, a launch that had a wait task was taken exactly once and
      ended in exactly one way, noticed or stopped; one without a wait task that is off the
      map was stopped, if its id was not used again. */
  lemma EndsInExactlyOneWay(events: seq<Event>, n: nat)
    requires Quiescent(Run(events)) && n in Run(events).cells
    ensures var s := Run(events);
            && (s.cells[n].wait == Done ==> EndedOnce(s, n))
            && (s.cells[n].wait == NoTask && !Listed(s, n) && OwnId(s, n) ==> EndedOnce(s, n))
  {
    EveryInterleavingKeepsInvariant(events);
    assert CellOk(Run(events), n);
  }

  // ------------------------------------------------------------ exit notices

  lemma {:induction false} RunInTwo(s: State, first: seq<Event>, rest: seq<Event>)
    ensures RunFrom(s, first + rest) == RunFrom(RunFrom(s, first), rest)
    decreases |rest|
  {
    if rest == [] {
      assert first + rest == first;
    } else {
      var m := |rest| - 1;
      assert (first + rest)[..|first + rest| - 1] == first + rest[..m];
      RunInTwo(s, first, rest[..m]);
    }
  }

  lemma {:induction false} RunKeepsInvariant(s: State, events: seq<Event>)
    requires Invariant(s)
    ensures Invariant(RunFrom(s, events))
    decreases |events|
  {
    if events != [] {
      RunKeepsInvariant(s, events[..|events| - 1]);
      StepKeepsInvariant(RunFrom(s, events[..|events| - 1]), events[|events| - 1]);
    }
  }

  /** Whether a launch has a wait task never changes. */
  lemma {:induction false} WaitTaskStays(s: State, events: seq<Event>, n: nat)
    requires n in s.cells
    ensures n in RunFrom(s, events).cells
    ensures RunFrom(s, events).cells[n].wait == NoTask <==> s.cells[n].wait == NoTask
    decreases |events|
  {
    if events != [] {
      WaitTaskStays(s, events[..|events| - 1], n);
      WaitTaskStep(RunFrom(s, events[..|events| - 1]), events[|events| - 1], n);
    }
  }

  lemma WaitTaskStep(s: State, e: Event, n: nat)
    requires n in s.cells
    ensures n in Step(s, e).cells && (Step(s, e).cells[n].wait == NoTask <==> s.cells[n].wait == NoTask)
  {
  }

  /** A launch that wants its exit noticed is listed with its child and has a wait task ever
      after; so when everything has returned, it was taken exactly once and noticed or stopped,
      and exactly one notice was sent if no stop took it. */
  lemma WantedNoticeIsSent(s: State, n: nat, id: nat, events: seq<Event>)
    requires Invariant(s) && n !in s.cells
    ensures var t := Step(s, Launch(n, id, true));
            n in t.cells && t.cells[n].id == id && t.cells[n].child && Listed(t, n)
    ensures var t := RunFrom(Step(s, Launch(n, id, true)), events);
            && n in t.cells && t.cells[n].wait != NoTask
            && (Quiescent(t) ==> EndedOnce(t, n) && (t.cells[n].notices == 1 <==> !t.cells[n].stopWon))
  {
    var launched := Step(s, Launch(n, id, true));
    StepKeepsInvariant(s, Launch(n, id, true));
    WaitTaskStays(launched, events, n);
    RunKeepsInvariant(launched, events);
    assert CellOk(RunFrom(launched, events), n);
  }

  /** One that does not want it gets no notice, ever. */
  lemma UnwantedNoticeIsNotSent(s: State, n: nat, id: nat, events: seq<Event>)
    requires Invariant(s) && n !in s.cells
    ensures var t := RunFrom(Step(s, Launch(n, id, false)), events);
            n in t.cells && t.cells[n].wait == NoTask && t.cells[n].notices == 0
  {
    var launched := Step(s, Launch(n, id, false));
    StepKeepsInvariant(s, Launch(n, id, false));
    WaitTaskStays(launched, events, n);
    RunKeepsInvariant(launched, events);
    assert CellOk(RunFrom(launched, events), n);
  }

  /** A stop that finds a listed child in its cell takes it, and kills it if the kill succeeds. */
  lemma StopEndsListedChild(s: State, call: nat, n: nat, ok: bool)
    requires Listed(s, n) && s.cells[n].child && call !in s.stops
    ensures var t := Step(Step(Step(s, StopRemove(call, s.cells[n].id)), StopTake(call)), StopKill(call, ok));
            && t.stops[call] == Ended && !Listed(t, n) && !t.cells[n].child && t.cells[n].stopWon
            && (t.cells[n].killed <==> ok || s.cells[n].killed) && (t.cells[n].spared <==> !ok || s.cells[n].spared)
  {
  }

  /** A wait task that runs undisturbed sends one notice and removes the entry of its id. */
  lemma WaitTaskEndsListedChild(s: State, n: nat)
    requires n in s.cells && s.cells[n].wait == Start && s.cells[n].child
    ensures var t := Step(Step(Step(Step(s, WaitTake(n)), WaitReap(n)), WaitUnlist(n)), WaitNotify(n));
            && t.cells[n].wait == Done && t.cells[n].notices == s.cells[n].notices + 1
            && s.cells[n].id !in t.children && !t.cells[n].child
  {
  }

  // ------------------------------------------------------------ orphans

  /** A child without a wait task that is off the map and not held by a stop. */
  ghost predicate Orphaned(s: State, n: nat) {
    && n in s.cells && s.cells[n].child && s.cells[n].wait == NoTask && !Listed(s, n)
    && forall call :: !BusyOn(s, call, n)
  }

  /** No stop will ever find an orphan. */
  lemma {:induction false} OrphansAreNeverStopped(s: State, events: seq<Event>, n: nat)
    requires Invariant(s) && Orphaned(s, n)
    ensures Invariant(RunFrom(s, events)) && Orphaned(RunFrom(s, events), n)
    decreases |events|
  {
    if events != [] {
      var m := |events| - 1;
      OrphansAreNeverStopped(s, events[..m], n);
      StepKeepsInvariant(RunFrom(s, events[..m]), events[m]);
      OrphanStep(RunFrom(s, events[..m]), events[m], n);
    }
  }

  lemma OrphanStep(s: State, e: Event, n: nat)
    requires Invariant(s) && Orphaned(s, n)
    ensures Orphaned(Step(s, e), n)
  {
    var t := Step(s, e);
    UnlistedStep(s, e, n);
    assert forall id :: id in s.children ==> s.children[id] != n;
    forall call
      ensures !BusyOn(t, call, n)
    {
      assert !BusyOn(s, call, n);
    }
    OrphanKeepsChild(s, e, n);
  }

  lemma OrphanKeepsChild(s: State, e: Event, n: nat)
    requires n in s.cells && s.cells[n].wait == NoTask && forall call :: !BusyOn(s, call, n)
    ensures n in Step(s, e).cells && Step(s, e).cells[n] == s.cells[n]
  {
    assert forall call :: call in s.stops ==> s.stops[call] != Holding(n) && s.stops[call] != Killing(n) by {
      forall call | call in s.stops
        ensures s.stops[call] != Holding(n) && s.stops[call] != Killing(n)
      {
        assert !BusyOn(s, call, n);
      }
    }
  }

  /** The event takes the map entry of another launch under the same id: a new launch, or the
      wait task of one that has exited. */
  predicate TakesEntry(s: State, e: Event, id: nat) {
    match e
    case Launch(m, id', _) => m !in s.cells && id' == id
    case WaitUnlist(m) => AtWait(s, m, Reaped) && s.cells[m].id == id
    case _ => false
  }

  /** A child becomes an orphan exactly when it is listed, in its cell and without a wait task,
      and its map entry is taken by another launch under its id. */
  lemma OrphanedExactlyWhen(s: State, e: Event, n: nat)
    requires Invariant(s) && n in s.cells && !Orphaned(s, n)
    ensures Orphaned(Step(s, e), n)
       <==> Listed(s, n) && s.cells[n].child && s.cells[n].wait == NoTask && TakesEntry(s, e, s.cells[n].id)
  {
    assert forall call :: BusyOn(s, call, n) ==> StopSound(s, call, n);
    if !Listed(s, n) {
      BusyUntilTaken(s, e, n);
    } else if s.cells[n].wait == NoTask {
      ListedStep(s, e, n);
    } else {
      NoNewChild(s, e, n);
    }
  }

  /** The event is a stop call that removes the map entry of `id`. */
  predicate StopsEntry(s: State, e: Event, id: nat) {
    e.StopRemove? && e.call !in s.stops && e.id == id
  }

  /** What can happen to a listed child without a wait task. */
  lemma ListedStep(s: State, e: Event, n: nat)
    requires Invariant(s) && Listed(s, n) && s.cells[n].wait == NoTask && forall call :: !BusyOn(s, call, n)
    ensures n in Step(s, e).cells && Step(s, e).cells[n] == s.cells[n]
    ensures Listed(Step(s, e), n) <==> !TakesEntry(s, e, s.cells[n].id) && !StopsEntry(s, e, s.cells[n].id)
    ensures (exists call :: BusyOn(Step(s, e), call, n)) <==> StopsEntry(s, e, s.cells[n].id)
  {
    var t := Step(s, e);
    OrphanKeepsChild(s, e, n);
    assert forall id :: id in s.children && s.children[id] == n ==> id == s.cells[n].id;
    if StopsEntry(s, e, s.cells[n].id) {
      assert BusyOn(t, e.call, n);
    } else {
      assert forall call :: BusyOn(t, call, n) ==> BusyOn(s, call, n);
    }
  }

  /** A child off the map that a stop holds is held until it is taken. */
  lemma BusyUntilTaken(s: State, e: Event, n: nat)
    requires Invariant(s) && n in s.cells && !Listed(s, n) && !Orphaned(s, n)
    ensures !Orphaned(Step(s, e), n)
  {
    if s.cells[n].child && s.cells[n].wait == NoTask {
      var call :| BusyOn(s, call, n);
      assert StopSound(s, call, n) && CellOk(s, n);
      assert BusyOn(Step(s, e), call, n);
    } else {
      NoNewChild(s, e, n);
    }
  }

  lemma NoNewChild(s: State, e: Event, n: nat)
    requires n in s.cells && !(s.cells[n].child && s.cells[n].wait == NoTask)
    ensures n in Step(s, e).cells && !(Step(s, e).cells[n].child && Step(s, e).cells[n].wait == NoTask)
  {
  }

  /** In every run only a launch whose id was used again is orphaned. */
  lemma OrphanNeedsReuse(events: seq<Event>, n: nat)
    requires Orphaned(Run(events), n)
    ensures !OwnId(Run(events), n)
  {
    EveryInterleavingKeepsInvariant(events);
    var s := Run(events);
    assert CellOk(s, n);
    assert forall call :: Holds(s, call, Holding(n)) ==> BusyOn(s, call, n);
  }

  /** Launching again under the same id, without exit notices, orphans the first child. */
  lemma ReuseOrphans(id: nat)
    ensures Orphaned(Run([Launch(0, id, false), Launch(1, id, false)]), 0)
  {
    var a, b := Launch(0, id, false), Launch(1, id, false);
    RunAppend(IDLE, [], a);
    RunAppend(IDLE, [a], b);
    assert [] + [a] == [a] && [a] + [b] == [a, b];
  }

  lemma RunAppend(s: State, events: seq<Event>, e: Event)
    ensures RunFrom(s, events + [e]) == Step(RunFrom(s, events), e)
  {
    assert (events + [e])[..|events|] == events;
  }

  /** Once the wait task has the child no stop call can kill it, in any continuation:
      such a stop removes the map entry and returns while the process runs on. */
  lemma {:induction false} WaitedChildIsNeverKilled(s: State, events: seq<Event>, n: nat)
    requires Invariant(s) && n in s.cells && s.cells[n].waitWon
    ensures var t := RunFrom(s, events);
            && Invariant(t) && n in t.cells && t.cells[n].waitWon && !t.cells[n].killed && !t.cells[n].spared
            && forall call :: call in t.stops ==> t.stops[call] != Killing(n)
    decreases |events|
  {
    if events != [] {
      var m := |events| - 1;
      WaitedChildIsNeverKilled(s, events[..m], n);
      StepKeepsInvariant(RunFrom(s, events[..m]), events[m]);
      WonStays(RunFrom(s, events[..m]), events[m], n);
    }
    var t := RunFrom(s, events);
    assert CellOk(t, n) && !t.cells[n].stopWon;
    forall call | call in t.stops
      ensures t.stops[call] != Killing(n)
    {
      assert t.stops[call] == Killing(n) ==> BusyOn(t, call, n) && StopSound(t, call, n);
    }
  }

  lemma WonStays(s: State, e: Event, n: nat)
    requires n in s.cells && s.cells[n].waitWon
    ensures n in Step(s, e).cells && Step(s, e).cells[n].waitWon
  {
  }
}
