/** The motion detector in integer milliseconds of logical time. Polls come every
    `PollInterval`; a changed sample sets the stop deadline to its own time plus
    `DebounceDelay`. The stop timer is armed during a poll, so at the instant it is
    due the poll timer (whose schedule does not drift) has already run: a poll that
    sees a change at the deadline re-arms the timer before it can fire. A stop
    timer due strictly between two polls fires before the later one. Polling is
    uninterrupted here; `TimedPoll` ties one poll to the methods of `MouseMonitor`. */
module MotionTiming {
  import opened Wrappers
  import opened Motion

  const PollInterval: int := 100
  const DebounceDelay: int := 200

  /** Time of the last poll, the Still/Moving state, the pending stop deadline,
      the time of the last changed sample and the callbacks fired so far. */
  datatype Clock = Clock(now: int, isMoving: bool, deadline: Option<int>, lastChange: int, events: seq<Event>)

  /** A deadline is pending exactly while moving, and lies ahead, one debounce
      after the last change and a whole number of poll intervals after the last
      poll; callbacks alternate and match the state. */
  predicate ClockValid(c: Clock)
  {
    (c.deadline.Some? <==> c.isMoving) &&
    (c.deadline.Some? ==>
       c.deadline.value == c.lastChange + DebounceDelay && c.now < c.deadline.value &&
       (c.deadline.value - c.now) % PollInterval == 0) &&
    c.lastChange <= c.now &&
    Alternating(c.events) &&
    (c.isMoving <==> |c.events| % 2 == 1)
  }

  /** Nobody has moved the mouse yet. */
  function Start(t: int): Clock
  {
    Clock(t, false, None, t, [])
  }

  /** The stop timer, when its deadline falls strictly before time `t`, fires
      before anything scheduled at `t`. */
  function Expire(c: Clock, t: int): Clock
  {
    if c.deadline.Some? && c.deadline.value < t then
      c.(isMoving := false, deadline := None, events := c.events + [MouseStop])
    else
      c
  }

  /** The next poll: a stop timer due before it fires first; then the poll sees a
      change or not; a stop timer due at the poll's own time fires after it. */
  function Poll(c: Clock, changed: bool): Clock
  {
    var t := c.now + PollInterval;
    var e := Expire(c, t);
    if changed then
      Clock(t, true, Some(t + DebounceDelay), t, e.events + if e.isMoving then [] else [MouseMove])
    else if e.deadline.Some? && e.deadline.value == t then
      Clock(t, false, None, e.lastChange, e.events + [MouseStop])
    else
      e.(now := t)
  }

  /** A stop timer due strictly between two polls fires before the next poll, so
      a change seen by that poll starts a new motion with a fresh move. */
  lemma LateStopComesFirst(c: Clock)
    requires c.isMoving && c.deadline.Some? && c.now < c.deadline.value < c.now + PollInterval
    ensures Poll(c, true).events == c.events + [MouseStop, MouseMove]
    ensures Poll(c, false).events == c.events + [MouseStop]
    ensures Poll(c, true).isMoving && !Poll(c, false).isMoving
  {
    assert c.events + [MouseStop] + [MouseMove] == c.events + [MouseStop, MouseMove];
  }

  /** On a valid clock no stop timer falls due between polls, since the deadline
      is a positive whole number of intervals ahead. */
  lemma NoExpiryBetweenPolls(c: Clock)
    requires ClockValid(c)
    ensures Expire(c, c.now + PollInterval) == c
  {
    if c.deadline.Some? {
      var gap := c.deadline.value - c.now;
      assert gap > 0 && gap % PollInterval == 0;
      assert gap >= PollInterval;
    }
  }

  /** A poll keeps the invariant. It fires a move only on a change seen while
      still, and a stop only on a quiet poll a full debounce after the last change. */
  lemma PollValid(c: Clock, changed: bool)
    requires ClockValid(c)
    ensures var d := Poll(c, changed);
            ClockValid(d) && d.now == c.now + PollInterval &&
            (d.events == c.events + [MouseMove] <==> changed && !c.isMoving) &&
            (d.events == c.events + [MouseStop] <==>
               !changed && c.isMoving && d.now >= c.lastChange + DebounceDelay) &&
            (d.events == c.events || d.events == c.events + [MouseMove] || d.events == c.events + [MouseStop])
  {
    NoExpiryBetweenPolls(c);
    var d := Poll(c, changed);
    var es := c.events;
    assert (es + [MouseMove])[|es|] == MouseMove && (es + [MouseStop])[|es|] == MouseStop;
    assert es + [MouseMove] != es + [MouseStop];
    if changed {
      AlternatingExtendAll(es, if c.isMoving then [] else [MouseMove]);
      assert (d.deadline.value - d.now) % PollInterval == 0;
    } else if c.deadline.Some? && c.deadline.value == d.now {
      AlternatingExtendAll(es, [MouseStop]);
    } else {
      assert c.isMoving ==> d.now < c.lastChange + DebounceDelay;
    }
  }

  /** Appending a single due event, or nothing, keeps a trace alternating. */
  lemma AlternatingExtendAll(es: seq<Event>, more: seq<Event>)
    requires Alternating(es)
    requires more == [] || more == [if |es| % 2 == 0 then MouseMove else MouseStop]
    ensures Alternating(es + more)
  {
    if more != [] {
      AlternatingExtend(es, more[0]);
    } else {
      assert es + more == es;
    }
  }

  /** The polls of `samples`, in order (`true` where the position changed). */
  function Run(c: Clock, samples: seq<bool>): Clock
    decreases |samples|
  {
    if samples == [] then c else Run(Poll(c, samples[0]), samples[1..])
  }

  /** Every run of polls keeps the clock's invariant and takes one interval per poll. */
  lemma {:induction false} RunValid(c: Clock, samples: seq<bool>)
    requires ClockValid(c)
    ensures ClockValid(Run(c, samples))
    ensures Run(c, samples).now == c.now + |samples| * PollInterval
    decreases |samples|
  {
    if samples != [] {
      PollValid(c, samples[0]);
      RunValid(Poll(c, samples[0]), samples[1..]);
    }
  }

  predicate AllChanged(samples: seq<bool>)
  {
    forall k :: 0 <= k < |samples| ==> samples[k]
  }

  /** Motion seen on every poll fires at most one move (none if already moving)
      and no stop: each poll pushes the deadline ahead of the next one. */
  lemma {:induction false} ContinuousMotionNeverStops(c: Clock, samples: seq<bool>)
    requires ClockValid(c) && samples != [] && AllChanged(samples)
    ensures Run(c, samples).events == c.events + (if c.isMoving then [] else [MouseMove])
    ensures Run(c, samples).isMoving
    ensures Run(c, samples).deadline == Some(Run(c, samples).now + DebounceDelay)
    decreases |samples|
  {
    NoExpiryBetweenPolls(c);
    var d := Poll(c, true);
    if |samples| > 1 {
      PollValid(c, true);
      ContinuousMotionNeverStops(d, samples[1..]);
      assert Run(d, samples[1..]).events == d.events;
    }
  }

  /** `k` polls that see no change. */
  function Silence(k: nat): (s: seq<bool>)
    ensures |s| == k
    ensures forall j :: 0 <= j < k ==> !s[j]
  {
    if k == 0 then [] else Silence(k - 1) + [false]
  }

  /** With no stop timer pending, quiet polls fire nothing and change no state. */
  lemma {:induction false} QuietWithoutDeadline(c: Clock, k: nat)
    requires c.deadline.None?
    ensures Run(c, Silence(k)).events == c.events
    ensures Run(c, Silence(k)).isMoving == c.isMoving
    ensures Run(c, Silence(k)).deadline.None?
    decreases k
  {
    if k > 0 {
      var s := Silence(k);
      assert s == [false] + Silence(k - 1) by {
        SilenceCons(k);
      }
      QuietWithoutDeadline(Poll(c, false), k - 1);
    }
  }

  lemma {:induction false} SilenceCons(k: nat)
    requires k > 0
    ensures Silence(k) == [false] + Silence(k - 1)
  {
    if k > 1 {
      SilenceCons(k - 1);
    }
  }

  /** A single change from stillness followed by `k` quiet polls fires one move,
      then exactly one stop once two quiet polls (the debounce) have passed, and
      nothing more. */
  lemma SingleChangeThenSilence(c: Clock, k: nat)
    requires ClockValid(c) && !c.isMoving
    ensures Run(c, [true] + Silence(k)).events ==
      c.events + [MouseMove] + (if k >= 2 then [MouseStop] else [])
  {
    var d := Poll(c, true);
    RunCons(c, true, Silence(k));
    if k == 1 {
      SilenceCons(1);
      RunCons(d, false, []);
    } else if k >= 2 {
      var e := Poll(d, false);
      var f := Poll(e, false);
      SilenceCons(k);
      RunCons(d, false, Silence(k - 1));
      SilenceCons(k - 1);
      RunCons(e, false, Silence(k - 2));
      assert f.events == c.events + [MouseMove] + [MouseStop];
      QuietWithoutDeadline(f, k - 2);
    }
  }

  /** Running `[b] + rest` is one poll with `b`, then `rest`. */
  lemma RunCons(c: Clock, b: bool, rest: seq<bool>)
    ensures Run(c, [b] + rest) == Run(Poll(c, b), rest)
  {
    assert ([b] + rest)[0] == b && ([b] + rest)[1..] == rest;
  }

  /** From the start, ten polls that all see motion (one second) fire exactly one
      move and no stop. */
  lemma OneSecondOfMotion(t: int)
    ensures Run(Start(t), [true, true, true, true, true, true, true, true, true, true]).events == [MouseMove]
  {
    ContinuousMotionNeverStops(Start(t), [true, true, true, true, true, true, true, true, true, true]);
  }

  /** The clock and a live monitor describe the same Still/Moving machine. */
  ghost predicate Agrees(m: MouseMonitor, c: Clock)
    reads m
  {
    m.isMoving == c.isMoving && m.debounceArmed == c.deadline.Some? && m.events == c.events
  }

  /** One poll of a live monitor at the clock's next poll time: `CheckMouse` with
      the sampled position, then `DebounceFire` when the stop timer is due at that
      time and the poll saw no change. The monitor ends in the state `Poll` gives. */
  method TimedPoll(m: MouseMonitor, pos: Point, c: Clock) returns (next: Clock)
    requires m.Valid() && m.polling && ClockValid(c) && Agrees(m, c)
    modifies m
    ensures m.Valid() && Agrees(m, next) && m.polling && m.lastLocation == pos
    ensures next == Poll(c, pos != old(m.lastLocation))
  {
    var changed := pos != m.lastLocation;
    NoExpiryBetweenPolls(c);
    next := Poll(c, changed);
    m.CheckMouse(pos);
    if !changed && c.deadline.Some? && c.deadline.value == c.now + PollInterval {
      m.DebounceFire();
    }
  }
}
