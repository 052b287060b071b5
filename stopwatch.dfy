/** com.highbar.util.DefaultStopWatch: a start/stop accumulator. The clock
    (`System.nanoTime`) is the `now` parameter of each operation. */
module StopWatch {
  import opened Wrappers

  /** One call on a stopwatch, with the clock reading it saw. */
  datatype Event = Start(at: int) | Stop(at: int)

  /** The three fields of a stopwatch. */
  datatype WatchState = WatchState(lastStarted: int, elapsedTime: int, isStarted: bool)

  /** A new stopwatch: fields at their Java defaults. */
  const Fresh := WatchState(0, 0, false)

  /** The effect of one call on the fields: a redundant start or stop does nothing. */
  function Apply(s: WatchState, e: Event): WatchState
  {
    match e
    case Start(t) => if s.isStarted then s else WatchState(t, s.elapsedTime, true)
    case Stop(t) => if s.isStarted then WatchState(s.lastStarted, s.elapsedTime + t - s.lastStarted, false) else s
  }

  /** The fields after a history of calls on a new stopwatch. */
  function Run(es: seq<Event>): WatchState
  {
    if |es| == 0 then Fresh else Apply(Run(es[..|es| - 1]), es[|es| - 1])
  }

  /** Reference view of a history: the start time of the cycle still open, if any. */
  function Pending(es: seq<Event>): Option<int>
  {
    if |es| == 0 then None
    else
      match es[|es| - 1]
      case Start(t) => if Pending(es[..|es| - 1]).Some? then Pending(es[..|es| - 1]) else Some(t)
      case Stop(_) => None
  }

  /** Reference view of a history: the completed (start, stop) cycles, in order.
      A start while a cycle is open and a stop while none is open are ignored. */
  function Cycles(es: seq<Event>): seq<(int, int)>
  {
    if |es| == 0 then []
    else
      var init := es[..|es| - 1];
      match es[|es| - 1]
      case Start(_) => Cycles(init)
      case Stop(t) => if Pending(init).Some? then Cycles(init) + [(Pending(init).value, t)] else Cycles(init)
  }

  function SumDurations(cs: seq<(int, int)>): int
  {
    if |cs| == 0 then 0 else SumDurations(cs[..|cs| - 1]) + (cs[|cs| - 1].1 - cs[|cs| - 1].0)
  }

  /** The elapsed time reported at clock reading `now`. */
  function ElapsedAt(s: WatchState, now: int): int
  {
    if s.isStarted then s.elapsedTime + now - s.lastStarted else s.elapsedTime
  }

  /** After any history of calls, the accumulated time is the sum of the
      durations of the completed cycles, and the watch is running exactly
      when a cycle is open, since the time that cycle started. */
  lemma {:induction false} RunIsSumOfCycles(es: seq<Event>)
    ensures Run(es).elapsedTime == SumDurations(Cycles(es))
    ensures Run(es).isStarted <==> Pending(es).Some?
    ensures Pending(es).Some? ==> Run(es).lastStarted == Pending(es).value
  {
    if |es| > 0 {
      var init := es[..|es| - 1];
      RunIsSumOfCycles(init);
      var cs := Cycles(init);
      if es[|es| - 1].Stop? && Pending(init).Some? {
        assert (cs + [(Pending(init).value, es[|es| - 1].at)])[..|cs|] == cs;
      }
    }
  }

  /** The clock readings of a history never go backwards. */
  predicate Chronological(es: seq<Event>)
  {
    forall i, j :: 0 <= i < j < |es| ==> es[i].at <= es[j].at
  }

  /** Reading a running or stopped watch later never gives a smaller value,
      and neither does a call made between the two readings. */
  lemma ElapsedStepMonotonic(s: WatchState, e: Event, t1: int, t2: int)
    requires s.isStarted ==> s.lastStarted <= t1
    requires t1 <= e.at <= t2
    ensures ElapsedAt(s, t1) <= ElapsedAt(Apply(s, e), t2)
  {
  }

  /** A running watch was started no later than the last call of its history. */
  lemma {:induction false} StartedNoLaterThanLastCall(es: seq<Event>)
    requires Chronological(es) && |es| > 0
    ensures Run(es).isStarted ==> Run(es).lastStarted <= es[|es| - 1].at
  {
    var init := es[..|es| - 1];
    if |init| > 0 {
      StartedNoLaterThanLastCall(init);
    }
  }

  /** With a non-decreasing clock the reported elapsed time never decreases:
      a reading taken after the first k calls is at most a reading taken after
      the whole history. */
  lemma {:induction false} ElapsedNeverDecreases(es: seq<Event>, k: nat, t: int, now: int)
    requires Chronological(es) && k <= |es|
    requires k > 0 ==> es[k - 1].at <= t
    requires k < |es| ==> t <= es[k].at
    requires k == |es| ==> t <= now
    requires |es| > 0 ==> es[|es| - 1].at <= now
    ensures ElapsedAt(Run(es[..k]), t) <= ElapsedAt(Run(es), now)
    decreases |es| - k
  {
    assert es[..|es|] == es;
    if k < |es| {
      var s := Run(es[..k]);
      assert es[..k + 1][..k] == es[..k];
      if k > 0 {
        StartedNoLaterThanLastCall(es[..k]);
      }
      var t2 := if k + 1 < |es| then es[k + 1].at else now;
      ElapsedStepMonotonic(s, es[k], t, t2);
      ElapsedNeverDecreases(es, k + 1, t2, now);
    }
  }

  /** The mutable stopwatch. `history` records the calls made on it, to state
      what its fields mean. */
  class DefaultStopWatch {
    var lastStarted: int
    var elapsedTime: int
    var isStarted: bool
    ghost var history: seq<Event>

    ghost predicate Valid()
      reads this
    {
      WatchState(lastStarted, elapsedTime, isStarted) == Run(history)
    }

    /** A new stopwatch is stopped and has accumulated nothing. */
    constructor ()
      ensures Valid() && history == []
      ensures !isStarted && elapsedTime == 0
    {
      lastStarted := 0;
      elapsedTime := 0;
      isStarted := false;
      history := [];
    }

    /** `start`: record `now` and mark the watch running, unless it already runs. */
    method Start(now: int)
      requires Valid()
      modifies this
      ensures Valid() && history == old(history) + [Event.Start(now)]
      ensures old(isStarted) ==> lastStarted == old(lastStarted) && isStarted
      ensures !old(isStarted) ==> lastStarted == now && isStarted
      ensures elapsedTime == old(elapsedTime)
    {
      if !isStarted {
        lastStarted := now;
        isStarted := true;
      }
      history := history + [Event.Start(now)];
      assert history[..|history| - 1] == old(history);
    }

    /** `stop`: add `now - lastStarted` to the accumulated time and mark the
        watch stopped, unless it is not running. */
    method Stop(now: int)
      requires Valid()
      modifies this
      ensures Valid() && history == old(history) + [Event.Stop(now)]
      ensures !isStarted && lastStarted == old(lastStarted)
      ensures elapsedTime == if old(isStarted) then old(elapsedTime) + now - old(lastStarted) else old(elapsedTime)
      ensures elapsedTime == SumDurations(Cycles(history))
    {
      if isStarted {
        isStarted := false;
        elapsedTime := elapsedTime + now - lastStarted;
      }
      history := history + [Event.Stop(now)];
      assert history[..|history| - 1] == old(history);
      RunIsSumOfCycles(history);
    }

    /** `getElapsedTime`: the durations of the completed cycles plus, while a
        cycle is open, the time since it started. Nothing changes. */
    function GetElapsedTime(now: int): (t: int)
      requires Valid()
      reads this
      ensures t == SumDurations(Cycles(history)) + (if Pending(history).Some? then now - Pending(history).value else 0)
      ensures t == ElapsedAt(Run(history), now)
    {
      RunIsSumOfCycles(history);
      if isStarted then elapsedTime + now - lastStarted else elapsedTime
    }
  }
}
