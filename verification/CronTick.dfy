/**
 The schedule loop: once per tick, each schedule fires at most once, when the
 first cron instant after its last fire (or after it was armed) has passed.

 The cron library is a function from a time to the next instant after it; times
 are integers.
 */
module CronTick {
  import opened Options

  datatype Schedule = Schedule(
    armedAt: int, lastFiredAt: Option<int>, nextFireAt: Option<int>, lastError: bool, fireCount: nat)

  /** What one tick meets: its start, the clock when it stores an observation,
      whether the expression parses, and whether resolving and dispatching succeed. */
  datatype Tick = Tick(now: int, clock: int, parses: bool, dispatches: bool)

  /** `next` is the successor function of the set of instants. */
  ghost predicate NextOf(instants: iset<int>, next: int -> Option<int>) {
    forall t ::
      match next(t)
      case None => forall u :: u in instants ==> u <= t
      case Some(v) => v in instants && v > t && forall u :: u in instants && u > t ==> v <= u
  }

  function After(s: Schedule): int {
    if s.lastFiredAt.Some? then s.lastFiredAt.value else s.armedAt
  }

  /** The tick finds an instant due. */
  predicate Due(s: Schedule, next: int -> Option<int>, now: int) {
    next(After(s)).Some? && next(After(s)).value <= now
  }

  /** The observation after one tick. */
  function TickSchedule(o: Option<Schedule>, next: int -> Option<int>, t: Tick): Schedule {
    match o
    case None =>
      if !t.parses then Schedule(t.clock, None, None, true, 0)
      else Schedule(t.clock, None, next(t.now), false, 0)
    case Some(s) =>
      if !t.parses then s.(lastError := true, nextFireAt := None)
      else if !Due(s, next, t.now) then s.(nextFireAt := next(After(s)))
      else if !t.dispatches then s.(nextFireAt := next(After(s)), lastError := true)
      else s.(lastFiredAt := Some(t.now), lastError := false, fireCount := s.fireCount + 1, nextFireAt := next(t.now))
  }

  function Stored(byName: map<string, Schedule>, name: string): Option<Schedule> {
    if name in byName then Some(byName[name]) else None
  }

  /** A schedule's share of a pass: its name, its expression, and what the tick meets. */
  datatype NamedTick = NamedTick(name: string, next: int -> Option<int>, tick: Tick)

  /** The observations after the first `k` of `ticks`. */
  function TickedAll(byName: map<string, Schedule>, ticks: seq<NamedTick>, k: nat): map<string, Schedule>
    requires k <= |ticks|
  {
    if k == 0 then byName
    else
      var before, t := TickedAll(byName, ticks, k - 1), ticks[k - 1];
      before[t.name := TickSchedule(Stored(before, t.name), t.next, t.tick)]
  }

  class ScheduleRegistry {
    var byName: map<string, Schedule>

    constructor ()
      ensures byName == map[]
    {
      byName := map[];
    }

    function Lookup(name: string): Option<Schedule>
      reads this
    {
      Stored(byName, name)
    }

    /** One pass over the stored schedules, each with its expression and what it meets. */
    method TickPass(schedules: seq<NamedTick>)
      modifies this
      ensures byName == TickedAll(old(byName), schedules, |schedules|)
    {
      for i := 0 to |schedules|
        invariant byName == TickedAll(old(byName), schedules, i)
      {
        var fired := TickOne(schedules[i].name, schedules[i].next, schedules[i].tick);
      }
    }

    /** Arm the schedule at `clock` if it is new. */
    method Arm(name: string, clock: int)
      modifies this
      ensures byName == if name in old(byName) then old(byName)
                        else old(byName)[name := Schedule(clock, None, None, false, 0)]
    {
      if name !in byName {
        byName := byName[name := Schedule(clock, None, None, false, 0)];
      }
    }

    /** One schedule's share of a tick; `fired` tells whether a task was dispatched. */
    method TickOne(name: string, next: int -> Option<int>, t: Tick) returns (fired: bool)
      modifies this
      ensures byName == old(byName)[name := TickSchedule(old(Lookup(name)), next, t)]
      ensures fired <==> Fires(next, old(Lookup(name)), t)
    {
      fired := false;
      if !t.parses {
        Arm(name, t.clock);
        byName := byName[name := byName[name].(lastError := true, nextFireAt := None)];
        return;
      }
      if name !in byName {
        Arm(name, t.clock);
        byName := byName[name := byName[name].(nextFireAt := next(t.now))];
        return;
      }
      var after := After(byName[name]);
      var due := next(after);
      byName := byName[name := byName[name].(nextFireAt := due)];
      if due.None? || due.value > t.now {
        return;
      }
      if !t.dispatches {
        byName := byName[name := byName[name].(lastError := true)];
        return;
      }
      var s := byName[name];
      byName := byName[name := s.(lastFiredAt := Some(t.now), lastError := false,
                                  fireCount := s.fireCount + 1, nextFireAt := next(t.now))];
      fired := true;
    }
  }

  // ------------------------------------------------------------ runs

  /** The observation after `ticks`, none before the first. */
  function RunSchedule(next: int -> Option<int>, ticks: seq<Tick>): Option<Schedule> {
    if ticks == [] then None
    else Some(TickSchedule(RunSchedule(next, ticks[..|ticks| - 1]), next, ticks[|ticks| - 1]))
  }

  predicate Fires(next: int -> Option<int>, o: Option<Schedule>, t: Tick) {
    o.Some? && t.parses && t.dispatches && Due(o.value, next, t.now)
  }

  /** The times of the successful fires, in order. */
  function FireTimes(next: int -> Option<int>, ticks: seq<Tick>): seq<int> {
    if ticks == [] then []
    else
      var m := |ticks| - 1;
      FireTimes(next, ticks[..m])
      + (if Fires(next, RunSchedule(next, ticks[..m]), ticks[m]) then [ticks[m].now] else [])
  }

  /** The clock never runs backwards: within a tick the stored time is no earlier
      than the tick's start, and the next tick starts no earlier than that. */
  ghost predicate Monotone(ticks: seq<Tick>) {
    && (forall i :: 0 <= i < |ticks| ==> ticks[i].now <= ticks[i].clock)
    && (forall i, j :: 0 <= i < j < |ticks| ==> ticks[i].clock <= ticks[j].now)
  }

  /** The last of `fires`, or the arming time. */
  function LastFire(armedAt: int, fires: seq<int>): int {
    if fires == [] then armedAt else fires[|fires| - 1]
  }

  /** The cron instant the `k`-th fire serves: the first one after the previous fire, or after arming. */
  function Served(next: int -> Option<int>, armedAt: int, fires: seq<int>, k: nat): Option<int>
    requires k < |fires|
  {
    next(LastFire(armedAt, fires[..k]))
  }

  /** Each fire is at or after the instant it serves. */
  ghost predicate FiresInOrder(next: int -> Option<int>, armedAt: int, fires: seq<int>) {
    fires != [] ==>
      var m := |fires| - 1;
      && FiresInOrder(next, armedAt, fires[..m])
      && Served(next, armedAt, fires, m).Some?
      && Served(next, armedAt, fires, m).value <= fires[m]
  }

  /** What a run records: arming time, counter and last fire agree with the fires. */
  ghost predicate Records(next: int -> Option<int>, ticks: seq<Tick>, s: Schedule, fires: seq<int>)
    requires ticks != []
  {
    && s.armedAt == ticks[0].clock && s.fireCount == |fires|
    && After(s) == LastFire(s.armedAt, fires) && (s.lastFiredAt.None? <==> fires == [])
    && FiresInOrder(next, s.armedAt, fires)
    && (fires != [] ==> fires[|fires| - 1] <= ticks[|ticks| - 1].now)
  }

  lemma RecordsGrow(next: int -> Option<int>, ticks: seq<Tick>, s: Schedule, fires: seq<int>)
    requires Monotone(ticks) && |ticks| > 1 && Records(next, ticks[..|ticks| - 1], s, fires)
    ensures var t := ticks[|ticks| - 1];
            Records(next, ticks, TickSchedule(Some(s), next, t),
                    fires + (if Fires(next, Some(s), t) then [t.now] else []))
  {
    var m := |ticks| - 1;
    assert ticks[m - 1].now <= ticks[m].now;
    if Fires(next, Some(s), ticks[m]) {
      var more := fires + [ticks[m].now];
      assert more[..|more| - 1] == fires;
    } else {
      assert fires + [] == fires;
    }
  }

  lemma {:induction false} RunFacts(next: int -> Option<int>, ticks: seq<Tick>)
    requires Monotone(ticks) && ticks != []
    ensures Records(next, ticks, RunSchedule(next, ticks).value, FireTimes(next, ticks))
  {
    var m := |ticks| - 1;
    if m > 0 {
      RunFacts(next, ticks[..m]);
      RecordsGrow(next, ticks, RunSchedule(next, ticks[..m]).value, FireTimes(next, ticks[..m]));
    } else {
      assert ticks[..m] == [];
      assert RunSchedule(next, ticks[..m]) == None;
    }
  }

  /** The instants served by successful fires are cron instants in (armedAt, now],
      strictly increasing: no instant is served by two fires, and the counter counts them. */
  lemma {:induction false} NoInstantFiresTwice(
      instants: iset<int>, next: int -> Option<int>, ticks: seq<Tick>, i: nat, j: nat)
    requires NextOf(instants, next) && Monotone(ticks) && ticks != []
    requires i <= j < |FireTimes(next, ticks)|
    ensures var s, fires := RunSchedule(next, ticks).value, FireTimes(next, ticks);
            var u, v := Served(next, s.armedAt, fires, i), Served(next, s.armedAt, fires, j);
            && u.Some? && v.Some? && u.value in instants && v.value in instants
            && s.armedAt < u.value <= fires[i] && v.value <= fires[j] <= ticks[|ticks| - 1].now
            && (i < j ==> fires[i] < v.value)
            && s.fireCount == |fires|
  {
    RunFacts(next, ticks);
    var s, fires := RunSchedule(next, ticks).value, FireTimes(next, ticks);
    FireServes(instants, next, s.armedAt, fires, i);
    FireServes(instants, next, s.armedAt, fires, j);
    FiresAscend(instants, next, s.armedAt, fires, j, |fires| - 1);
    if i < j {
      FiresAscend(instants, next, s.armedAt, fires, i, j - 1);
      assert fires[..j][j - 1] == fires[j - 1];
    }
  }

  /** Every fire serves a cron instant after the previous fire and not after itself. */
  lemma {:induction false} FireServes(
      instants: iset<int>, next: int -> Option<int>, armedAt: int, fires: seq<int>, k: nat)
    requires NextOf(instants, next) && FiresInOrder(next, armedAt, fires) && k < |fires|
    ensures var u := Served(next, armedAt, fires, k);
            && u.Some? && u.value in instants
            && LastFire(armedAt, fires[..k]) < u.value <= fires[k] && armedAt < u.value
    decreases |fires|
  {
    var m := |fires| - 1;
    if k < m {
      assert fires[..m][..k] == fires[..k];
      FireServes(instants, next, armedAt, fires[..m], k);
    } else if m > 0 {
      FireServes(instants, next, armedAt, fires[..m], m - 1);
    }
  }

  lemma {:induction false} FiresAscend(
      instants: iset<int>, next: int -> Option<int>, armedAt: int, fires: seq<int>, i: nat, j: nat)
    requires NextOf(instants, next) && FiresInOrder(next, armedAt, fires) && i <= j < |fires|
    ensures fires[i] <= fires[j]
    decreases j
  {
    if i < j {
      FiresAscend(instants, next, armedAt, fires, i, j - 1);
      FireServes(instants, next, armedAt, fires, j);
      assert fires[..j][j - 1] == fires[j - 1];
    }
  }

  /** The instant lies between two consecutive fires, or between arming and the first. */
  ghost predicate ServedBy(armedAt: int, fires: seq<int>, u: int, k: nat) {
    k < |fires| && LastFire(armedAt, fires[..k]) < u <= fires[k]
  }

  /** Completeness: after a tick that parsed and whose dispatch, if due, succeeded,
      every cron instant since arming up to that tick is served by a fire; several
      missed instants share one. */
  lemma NoInstantIsLeftUnserved(
      instants: iset<int>, next: int -> Option<int>, ticks: seq<Tick>, u: int)
    requires NextOf(instants, next) && Monotone(ticks) && |ticks| >= 2
    requires var t := ticks[|ticks| - 1];
             && t.parses
             && (t.dispatches || !Due(RunSchedule(next, ticks[..|ticks| - 1]).value, next, t.now))
    requires u in instants && RunSchedule(next, ticks).value.armedAt < u <= ticks[|ticks| - 1].now
    ensures exists k: nat :: ServedBy(RunSchedule(next, ticks).value.armedAt, FireTimes(next, ticks), u, k)
  {
    var m := |ticks| - 1;
    var before := RunSchedule(next, ticks[..m]).value;
    RunFacts(next, ticks);
    NotDueMeansServed(instants, next, before, ticks[m], u);
    AfterLastFire(next, ticks);
    LocateInstant(RunSchedule(next, ticks).value.armedAt, FireTimes(next, ticks), u);
  }

  lemma AfterLastFire(next: int -> Option<int>, ticks: seq<Tick>)
    requires ticks != [] && Records(next, ticks, RunSchedule(next, ticks).value, FireTimes(next, ticks))
    ensures var s := RunSchedule(next, ticks).value;
            After(s) == LastFire(s.armedAt, FireTimes(next, ticks))
  {
  }

  lemma NotDueMeansServed(
      instants: iset<int>, next: int -> Option<int>, s: Schedule, t: Tick, u: int)
    requires NextOf(instants, next) && u in instants && u <= t.now
    requires t.parses && (t.dispatches || !Due(s, next, t.now))
    ensures u <= After(TickSchedule(Some(s), next, t))
  {
    assert u > After(s) ==> next(After(s)).Some? && Due(s, next, t.now);
  }

  lemma {:induction false} LocateInstant(armedAt: int, fires: seq<int>, u: int)
    requires armedAt < u <= LastFire(armedAt, fires)
    ensures exists i: nat :: ServedBy(armedAt, fires, u, i)
  {
    var m := |fires| - 1;
    if u <= LastFire(armedAt, fires[..m]) {
      LocateInstant(armedAt, fires[..m], u);
      var i: nat :| ServedBy(armedAt, fires[..m], u, i);
      assert fires[..m][..i] == fires[..i];
      assert ServedBy(armedAt, fires, u, i);
    } else {
      assert ServedBy(armedAt, fires, u, m);
    }
  }

  /** The observation after more ticks. */
  function TicksFrom(s: Schedule, next: int -> Option<int>, ticks: seq<Tick>): Schedule {
    if ticks == [] then s
    else TickSchedule(Some(TicksFrom(s, next, ticks[..|ticks| - 1])), next, ticks[|ticks| - 1])
  }

  /** Ticks that parse no expression or dispatch nothing. */
  predicate AllFail(ticks: seq<Tick>) {
    forall i :: 0 <= i < |ticks| ==> !ticks[i].parses || !ticks[i].dispatches
  }

  /** Failing ticks, however many, do not move a schedule. */
  lemma {:induction false} FailingTicksKeepAfter(next: int -> Option<int>, s: Schedule, ticks: seq<Tick>)
    requires AllFail(ticks)
    ensures var s' := TicksFrom(s, next, ticks);
            s'.armedAt == s.armedAt && s'.lastFiredAt == s.lastFiredAt && s'.fireCount == s.fireCount
    decreases |ticks|
  {
    if ticks != [] {
      FailingTicksKeepAfter(next, s, ticks[..|ticks| - 1]);
    }
  }

  /** Failed dispatches lose nothing: a schedule that is due stays due through any number of
      failing ticks, and the first tick that dispatches fires once for everything since the
      last successful fire. */
  lemma FailedFireStaysDue(
      next: int -> Option<int>, s: Schedule, now: int, ticks: seq<Tick>, t: Tick)
    requires Due(s, next, now) && AllFail(ticks) && now <= t.now
    ensures Due(TicksFrom(s, next, ticks), next, t.now)
    ensures t.parses && t.dispatches ==>
              var s' := TicksFrom(s, next, ticks + [t]);
              s'.lastFiredAt == Some(t.now) && s'.fireCount == s.fireCount + 1
  {
    FailingTicksKeepAfter(next, s, ticks);
    assert (ticks + [t])[..|ticks|] == ticks;
  }

  /** After every parsed tick but the first, the instant shown as next is the one that
      will fire next. */
  lemma ShownInstantIsNext(next: int -> Option<int>, ticks: seq<Tick>)
    requires |ticks| >= 2 && ticks[|ticks| - 1].parses
    ensures var s := RunSchedule(next, ticks).value;
            s.nextFireAt == next(After(s))
  {
    assert ticks[..|ticks| - 1] != [];
  }

  /** The tick that arms a schedule shows an instant that will never fire exactly when
      one lies after the tick's start and not after the arming time. */
  lemma FirstShownInstantExactlyWhen(instants: iset<int>, next: int -> Option<int>, t: Tick)
    requires NextOf(instants, next) && t.parses && t.now <= t.clock
    ensures var s := TickSchedule(None, next, t);
            s.nextFireAt == next(After(s)) <==> !exists u :: u in instants && t.now < u <= t.clock
  {
    var a, b := next(t.now), next(t.clock);
    if u :| u in instants && t.now < u <= t.clock {
      assert a.Some? && a.value <= u;
      assert b.Some? ==> b.value > t.clock;
    } else {
      assert a.Some? ==> a.value in instants && a.value > t.clock;
      assert b.Some? ==> b.value in instants && b.value > t.clock;
    }
  }

  // ------------------------------------------------------------ the registry

  /** The ticks of one schedule, in order. */
  function TicksOf(ticks: seq<NamedTick>, k: nat, name: string): seq<Tick>
    requires k <= |ticks|
  {
    if k == 0 then []
    else TicksOf(ticks, k - 1, name) + (if ticks[k - 1].name == name then [ticks[k - 1].tick] else [])
  }

  /** The registry follows the run of each schedule by itself: it holds an observation exactly
      of the schedules ticked so far, and that is the one their own ticks give. */
  lemma {:induction false} RegistryFollowsRuns(ticks: seq<NamedTick>, k: nat, name: string, next: int -> Option<int>)
    requires k <= |ticks| && forall i :: 0 <= i < k && ticks[i].name == name ==> ticks[i].next == next
    ensures Stored(TickedAll(map[], ticks, k), name) == RunSchedule(next, TicksOf(ticks, k, name))
  {
    if k > 0 {
      RegistryFollowsRuns(ticks, k - 1, name, next);
      var mine, t := TicksOf(ticks, k - 1, name), ticks[k - 1];
      if t.name == name {
        assert (mine + [t.tick])[..|mine|] == mine;
      } else {
        assert mine + [] == mine;
      }
    }
  }

  // ------------------------------------------------------------ the error shown

  /** The tick finds an expression that does not parse, or an instant due that it cannot dispatch. */
  predicate FailsOn(next: int -> Option<int>, o: Option<Schedule>, t: Tick) {
    !t.parses || (o.Some? && Due(o.value, next, t.now) && !t.dispatches)
  }

  predicate FailsAt(next: int -> Option<int>, ticks: seq<Tick>, i: nat) {
    i < |ticks| && FailsOn(next, RunSchedule(next, ticks[..i]), ticks[i])
  }

  predicate FiresAt(next: int -> Option<int>, ticks: seq<Tick>, i: nat) {
    i < |ticks| && Fires(next, RunSchedule(next, ticks[..i]), ticks[i])
  }

  ghost predicate ErrorOpen(next: int -> Option<int>, ticks: seq<Tick>, i: nat) {
    FailsAt(next, ticks, i) && forall j :: i < j < |ticks| ==> !FiresAt(next, ticks, j)
  }

  /** Some tick failed and none has fired since. */
  ghost predicate AnyErrorOpen(next: int -> Option<int>, ticks: seq<Tick>) {
    exists i: nat :: ErrorOpen(next, ticks, i)
  }

  /** An error is shown exactly when some tick failed and none has fired since; a parse error
      also takes the next instant off show. */
  lemma {:induction false} ErrorShownExactlyWhen(next: int -> Option<int>, ticks: seq<Tick>)
    requires ticks != []
    ensures RunSchedule(next, ticks).value.lastError <==> AnyErrorOpen(next, ticks)
    ensures !ticks[|ticks| - 1].parses ==> RunSchedule(next, ticks).value.nextFireAt == None
    decreases |ticks|
  {
    var m := |ticks| - 1;
    var before := RunSchedule(next, ticks[..m]);
    if m > 0 {
      ErrorShownExactlyWhen(next, ticks[..m]);
      SameUpTo(next, ticks, m);
    }
    if FailsOn(next, before, ticks[m]) {
      assert ErrorOpen(next, ticks, m);
    } else if Fires(next, before, ticks[m]) {
      assert FiresAt(next, ticks, m);
    } else {
      KeepsOpen(next, ticks);
    }
  }

  lemma SameUpTo(next: int -> Option<int>, ticks: seq<Tick>, m: nat)
    requires m <= |ticks|
    ensures forall i: nat :: i < m ==> (FailsAt(next, ticks[..m], i) <==> FailsAt(next, ticks, i))
    ensures forall i: nat :: i < m ==> (FiresAt(next, ticks[..m], i) <==> FiresAt(next, ticks, i))
  {
    forall i: nat | i < m
      ensures ticks[..m][..i] == ticks[..i]
    {
    }
  }

  /** A tick that neither fails nor fires leaves open what was. */
  lemma KeepsOpen(next: int -> Option<int>, ticks: seq<Tick>)
    requires var m := |ticks| - 1; ticks != [] && !FailsAt(next, ticks, m) && !FiresAt(next, ticks, m)
    ensures AnyErrorOpen(next, ticks) <==> AnyErrorOpen(next, ticks[..|ticks| - 1])
  {
    var m := |ticks| - 1;
    SameUpTo(next, ticks, m);
    if i: nat :| ErrorOpen(next, ticks, i) {
      assert ErrorOpen(next, ticks[..m], i);
    }
    if i: nat :| ErrorOpen(next, ticks[..m], i) {
      assert ErrorOpen(next, ticks, i);
    }
  }

  /** A schedule is armed at the clock of its first tick, and its last fire is the start of the
      latest tick that fired. */
  lemma ArmedAtFirstTick(next: int -> Option<int>, ticks: seq<Tick>)
    requires Monotone(ticks) && ticks != []
    ensures var s, fires := RunSchedule(next, ticks).value, FireTimes(next, ticks);
            && s.armedAt == ticks[0].clock
            && s.lastFiredAt == (if fires == [] then None else Some(fires[|fires| - 1]))
  {
    RunFacts(next, ticks);
  }
}
