/**
 The bounded log ring of each workload and the client that follows it by
 polling, feeding the reported total back as its next starting point.
 */
module LogFollower {
  import opened Options
  import opened Workloads

  type Entry = string

  const CAPACITY := 500

  function PushRing(ring: seq<Entry>, e: Entry): seq<Entry> {
    (if |ring| >= CAPACITY then ring[1..] else ring) + [e]
  }

  function RingOf(rings: map<WorkloadKey, seq<Entry>>, key: WorkloadKey): seq<Entry> {
    if key in rings then rings[key] else []
  }

  /** What a poll from `since` returns: the entries after it, and the ring's length. */
  function Poll(ring: seq<Entry>, since: nat): (seq<Entry>, nat) {
    (ring[(if since < |ring| then since else |ring|)..], |ring|)
  }

  class LogBuffer {
    var rings: map<WorkloadKey, seq<Entry>>

    constructor ()
      ensures rings == map[]
    {
      rings := map[];
    }

    method Push(key: WorkloadKey, e: Entry)
      modifies this
      ensures rings == old(rings)[key := PushRing(RingOf(old(rings), key), e)]
    {
      var ring := if key in rings then rings[key] else [];
      if |ring| >= CAPACITY {
        ring := ring[1..];
      }
      ring := ring + [e];
      rings := rings[key := ring];
    }

    method Snapshot(key: WorkloadKey, since: nat) returns (entries: seq<Entry>, total: nat)
      ensures (entries, total) == Poll(RingOf(rings, key), since)
    {
      if key !in rings {
        return [], 0;
      }
      var ring := rings[key];
      total := |ring|;
      var start := if since < total then since else total;
      entries := ring[start..];
    }
  }

  // ------------------------------------------------------------ the ring is the end of the history

  function Last(history: seq<Entry>): seq<Entry> {
    if |history| <= CAPACITY then history else history[|history| - CAPACITY..]
  }

  /** Pushing keeps the ring equal to the last 500 entries ever pushed. */
  lemma PushKeepsLast(history: seq<Entry>, e: Entry)
    ensures PushRing(Last(history), e) == Last(history + [e])
  {
  }

  /** The rings after a sequence of pushes. */
  function Pushed(pushes: seq<(WorkloadKey, Entry)>): map<WorkloadKey, seq<Entry>> {
    if pushes == [] then map[]
    else
      var before := Pushed(pushes[..|pushes| - 1]);
      var (key, e) := pushes[|pushes| - 1];
      before[key := PushRing(RingOf(before, key), e)]
  }

  /** The entries pushed for one workload, in order. */
  function HistoryOf(pushes: seq<(WorkloadKey, Entry)>, key: WorkloadKey): seq<Entry> {
    if pushes == [] then []
    else
      var (k, e) := pushes[|pushes| - 1];
      HistoryOf(pushes[..|pushes| - 1], key) + (if k == key then [e] else [])
  }

  /** Each ring is the last min(500, n) of the n entries pushed for its workload, whatever the others do. */
  lemma {:induction false} RingIsLastOfHistory(pushes: seq<(WorkloadKey, Entry)>, key: WorkloadKey)
    ensures RingOf(Pushed(pushes), key) == Last(HistoryOf(pushes, key))
  {
    if pushes != [] {
      var m := |pushes| - 1;
      RingIsLastOfHistory(pushes[..m], key);
      PushKeepsLast(HistoryOf(pushes[..m], key), pushes[m].1);
    }
  }

  // ------------------------------------------------------------ following one workload

  /** The follower: its next starting point, everything it printed, the number of
      successful polls, how many lines existed at the last of them, and whether it runs. */
  datatype Follower = Follower(since: nat, printed: seq<Entry>, polled: nat, seen: nat, alive: bool)

  datatype Event = Write(entry: Entry) | PollOk | PollFailed

  datatype World = World(history: seq<Entry>, follower: Follower)

  /** The first read may be trimmed to its last `tail` lines. */
  function Trimmed(tail: Option<nat>, entries: seq<Entry>): seq<Entry> {
    if tail.Some? && tail.value < |entries| then entries[|entries| - tail.value..] else entries
  }

  function Shown(tail: Option<nat>, f: Follower, entries: seq<Entry>): seq<Entry> {
    if f.polled == 0 then Trimmed(tail, entries) else entries
  }

  /** One event. A failed poll is skipped, except the first read, which ends the client. */
  function Step(tail: Option<nat>, w: World, e: Event): World {
    match e
    case Write(x) => w.(history := w.history + [x])
    case PollFailed =>
      if w.follower.polled == 0 then w.(follower := w.follower.(alive := false)) else w
    case PollOk =>
      var f := w.follower;
      if !f.alive then w else
      var (entries, total) := Poll(Last(w.history), f.since);
      w.(follower := Follower(total, f.printed + Shown(tail, f, entries), f.polled + 1, |w.history|, true))
  }

  function Run(tail: Option<nat>, events: seq<Event>): World {
    if events == [] then World([], Follower(0, [], 0, 0, true))
    else Step(tail, Run(tail, events[..|events| - 1]), events[|events| - 1])
  }

  /** The client's polling loop against a log buffer, one poll at a time. */
  class LogClient {
    var since: nat
    var printed: seq<Entry>
    var polled: nat
    var alive: bool

    constructor ()
      ensures since == 0 && printed == [] && polled == 0 && alive
    {
      since, printed, polled, alive := 0, [], 0, true;
    }

    /** A request that failed: the first ends the client, later ones are skipped. */
    method PollFails()
      requires alive
      modifies this`alive
      ensures alive == (polled > 0)
    {
      if polled == 0 {
        alive := false;
      }
    }

    method PollOnce(buffer: LogBuffer, key: WorkloadKey, tail: Option<nat>)
      requires alive
      modifies this
      ensures alive
      ensures var (entries, total) := Poll(RingOf(buffer.rings, key), old(since));
              && since == total && polled == old(polled) + 1
              && printed == old(printed) + (if old(polled) == 0 then Trimmed(tail, entries) else entries)
    {
      var entries, total := buffer.Snapshot(key, since);
      if polled == 0 && tail.Some? && tail.value < |entries| {
        entries := entries[|entries| - tail.value..];
      }
      Emit(entries);
      since := total;
      polled := polled + 1;
    }

    method Emit(entries: seq<Entry>)
      modifies this`printed
      ensures printed == old(printed) + entries
    {
      for i := 0 to |entries|
        invariant printed == old(printed) + entries[..i]
      {
        printed := printed + [entries[i]];
      }
      assert entries[..|entries|] == entries;
    }
  }

  /** The follower stands at the ring length of its last poll. */
  ghost predicate Placed(w: World) {
    var f := w.follower;
    && f.seen <= |w.history|
    && f.since == (if f.seen < CAPACITY then f.seen else CAPACITY)
    && (f.polled == 0 ==> f.seen == 0 && f.printed == [])
  }

  lemma {:induction false} AlwaysPlaced(tail: Option<nat>, events: seq<Event>)
    ensures Placed(Run(tail, events))
  {
    if events != [] {
      AlwaysPlaced(tail, events[..|events| - 1]);
    }
  }

  /** A poll returns exactly the lines pushed since the previous poll if and only if
      at most 500 lines were ever pushed, or none since. */
  lemma PollIsLosslessExactlyWhen(tail: Option<nat>, events: seq<Event>)
    ensures var w := Run(tail, events);
            Placed(w) &&
            (Poll(Last(w.history), w.follower.since).0 == w.history[w.follower.seen..]
             <==> |w.history| <= CAPACITY || |w.history| == w.follower.seen)
  {
    AlwaysPlaced(tail, events);
    var w := Run(tail, events);
    if |w.history| > CAPACITY && |w.history| > w.follower.seen {
      assert |Poll(Last(w.history), w.follower.since).0| < |w.history[w.follower.seen..]|;
    }
  }

  /** Once the starting point has reached 500, every later poll is empty. */
  lemma {:induction false} StuckAtCapacity(tail: Option<nat>, events: seq<Event>, more: seq<Event>)
    requires Run(tail, events).follower.since >= CAPACITY
    ensures var f, f' := Run(tail, events).follower, Run(tail, events + more).follower;
            f'.since == CAPACITY && f'.printed == f.printed
  {
    AlwaysPlaced(tail, events);
    if more == [] {
      assert events + more == events;
    } else {
      var m := |more| - 1;
      StuckAtCapacity(tail, events, more[..m]);
      AlwaysPlaced(tail, events + more[..m]);
      StuckStep(tail, Run(tail, events + more[..m]), more[m]);
      RunAppend(tail, events + more[..m], more[m]);
      assert events + more == events + more[..m] + [more[m]];
    }
  }

  lemma RunAppend(tail: Option<nat>, events: seq<Event>, e: Event)
    ensures Run(tail, events + [e]) == Step(tail, Run(tail, events), e)
  {
    assert (events + [e])[..|events|] == events;
  }

  lemma StuckStep(tail: Option<nat>, w: World, e: Event)
    requires Placed(w) && w.follower.since == CAPACITY
    ensures var f := Step(tail, w, e).follower; f.since == CAPACITY && f.printed == w.follower.printed
  {
  }

  /** As many lines printed as the starting point says; all of them while few were pushed. */
  ghost predicate Faithful(w: World)
    requires Placed(w)
  {
    && |w.follower.printed| == w.follower.since
    && (w.follower.seen <= CAPACITY ==> w.follower.printed == w.history[..w.follower.seen])
  }

  lemma FaithfulStep(w: World, e: Event)
    requires Placed(w) && Faithful(w) && Placed(Step(None, w, e))
    ensures Faithful(Step(None, w, e))
  {
    if e.PollOk? && |w.history| <= CAPACITY {
      assert w.history == w.history[..w.follower.seen] + w.history[w.follower.seen..];
    }
  }

  lemma {:induction false} AlwaysFaithful(events: seq<Event>)
    ensures Placed(Run(None, events)) && Faithful(Run(None, events))
  {
    AlwaysPlaced(None, events);
    if events != [] {
      var m := |events| - 1;
      AlwaysFaithful(events[..m]);
      FaithfulStep(Run(None, events[..m]), events[m]);
    }
  }

  /** Without `tail`, a follower that has just polled has printed the whole history,
      each line once and in order, if and only if at most 500 lines were ever pushed;
      it never prints more than 500 lines in all. */
  lemma FollowerPrintsAllExactlyWhen(events: seq<Event>)
    ensures var w := Run(None, events);
            && |w.follower.printed| <= 500
            && (w.follower.seen == |w.history| ==> (w.follower.printed == w.history <==> |w.history| <= 500))
  {
    AlwaysFaithful(events);
    var w := Run(None, events);
    assert w.follower.seen == |w.history| ==> w.history[..w.follower.seen] == w.history;
  }

  /** The first read shows the last lines in the ring: all that are there, at most 500, or the
      last `tail` of them if that is fewer; the next poll starts behind them. */
  lemma FirstReadShowsTail(tail: Option<nat>, w: World)
    requires Placed(w) && w.follower.polled == 0 && w.follower.alive
    ensures var h, f := w.history, Step(tail, w, PollOk).follower;
            var kept := if |h| <= 500 then |h| else 500;
            var shown := if tail.Some? && tail.value < kept then tail.value else kept;
            f.printed == h[|h| - shown..] && f.since == kept && f.polled == 1 && f.alive
  {
    assert Last(w.history)[0..] == Last(w.history);
  }

  /** A later poll shows what stands in the ring behind the starting point. */
  lemma LaterPollShowsRest(tail: Option<nat>, w: World)
    requires Placed(w) && w.follower.polled > 0 && w.follower.alive
    ensures var ring, f := Last(w.history), Step(tail, w, PollOk).follower;
            && |ring| == (if |w.history| <= 500 then |w.history| else 500)
            && f.printed == w.follower.printed + ring[w.follower.since..] && f.since == |ring|
  {
  }

  /** A failed read shows nothing; only if it is the first, the client ends and never prints. */
  lemma {:induction false} FailedFirstReadEnds(tail: Option<nat>, w: World, events: seq<Event>)
    requires w.follower.polled == 0 && w.follower.printed == [] && |events| > 0 && events[0] == PollFailed
    ensures RunFrom(tail, w, events).follower.printed == [] && !RunFrom(tail, w, events).follower.alive
    decreases |events|
  {
    var m := |events| - 1;
    if m > 0 {
      FailedFirstReadEnds(tail, w, events[..m]);
    } else {
      assert events[..0] == [];
    }
  }

  function RunFrom(tail: Option<nat>, w: World, events: seq<Event>): World {
    if events == [] then w else Step(tail, RunFrom(tail, w, events[..|events| - 1]), events[|events| - 1])
  }

  /** A failed poll after the first read changes nothing. */
  lemma FailedPollIsSkipped(tail: Option<nat>, w: World)
    requires w.follower.polled > 0
    ensures Step(tail, w, PollFailed) == w
  {
  }

  /** With `tail`, the follower prints the last `tail` lines of its first read and then
      everything, while at most 500 lines were ever pushed. */
  lemma {:induction false} TailFollowerPrintsASuffix(tail: nat, events: seq<Event>)
    requires |Run(Some(tail), events).history| <= CAPACITY
    ensures var w := Run(Some(tail), events);
            Placed(w) && IsSuffix(w)
  {
    AlwaysPlaced(Some(tail), events);
    if events != [] {
      var m := |events| - 1;
      AlwaysPlaced(Some(tail), events[..m]);
      TailFollowerPrintsASuffix(tail, events[..m]);
      SuffixStep(tail, Run(Some(tail), events[..m]), events[m]);
    }
  }

  /** The printed lines are an unbroken stretch of the history up to the last poll. */
  ghost predicate IsSuffix(w: World)
    requires Placed(w)
  {
    var f := w.follower;
    |f.printed| <= f.seen && f.printed == w.history[f.seen - |f.printed|..f.seen]
  }

  lemma SuffixStep(tail: nat, w: World, e: Event)
    requires Placed(w) && IsSuffix(w) && Placed(Step(Some(tail), w, e))
    requires |Step(Some(tail), w, e).history| <= CAPACITY
    ensures IsSuffix(Step(Some(tail), w, e))
  {
    var f, h := w.follower, w.history;
    if e.PollOk? && f.alive {
      PollPrints(Some(tail), w);
      if f.polled == 0 {
        assert h[0..] == h;
        TrimmedIsSuffix(tail, h);
      } else {
        JoinsUp(h, f.seen - |f.printed|, f.seen);
      }
    }
  }

  lemma PollPrints(tail: Option<nat>, w: World)
    requires Placed(w) && |w.history| <= CAPACITY && w.follower.alive
    ensures var f, f' := w.follower, Step(tail, w, PollOk).follower;
            && f'.seen == |w.history|
            && f'.printed == f.printed + Shown(tail, f, w.history[f.seen..])
  {
    PollWhileSmall(w);
  }

  lemma PollWhileSmall(w: World)
    requires Placed(w) && |w.history| <= CAPACITY
    ensures Poll(Last(w.history), w.follower.since) == (w.history[w.follower.seen..], |w.history|)
  {
  }

  lemma TrimmedIsSuffix(tail: nat, s: seq<Entry>)
    ensures var t := Trimmed(Some(tail), s); |t| <= |s| && t == s[|s| - |t|..|s|]
  {
  }

  lemma JoinsUp(h: seq<Entry>, a: nat, b: nat)
    requires a <= b <= |h|
    ensures h[a..b] + h[b..] == h[a..|h|]
  {
  }
}
