/** Motion detection by polling the mouse position: an edge-triggered Still/Moving
    machine. A changed sample fires `onMouseMove` on the Still-to-Moving edge and
    re-arms a one-shot debounce timer; when that timer expires the machine returns
    to Still and fires `onMouseStop`. Timers are presence flags; a poll is a call of
    `CheckMouse` with the sampled position, an expiry a call of `DebounceFire`. */
module Motion {

  /** A mouse position in screen coordinates. */
  datatype Point = Point(x: real, y: real)

  /** The two callbacks the monitor fires. */
  datatype Event = MouseMove | MouseStop

  /** Events alternate strictly, starting with a move. */
  predicate Alternating(es: seq<Event>)
  {
    forall k :: 0 <= k < |es| ==> es[k] == (if k % 2 == 0 then MouseMove else MouseStop)
  }

  /** The number of occurrences of `e` in `es`. */
  function Count(es: seq<Event>, e: Event): (n: nat)
    ensures n <= |es|
  {
    if es == [] then 0 else Count(es[..|es| - 1], e) + (if es[|es| - 1] == e then 1 else 0)
  }

  /** An alternating trace has as many moves as stops, plus one while moving. */
  lemma {:induction false} AlternatingBalance(es: seq<Event>)
    requires Alternating(es)
    ensures Count(es, MouseMove) == Count(es, MouseStop) + |es| % 2
  {
    if es != [] {
      AlternatingBalance(es[..|es| - 1]);
    }
  }

  /** Alternation, said locally: the trace starts with a move and never repeats
      an event twice in a row. */
  lemma {:induction false} AlternatingIffNoRepeat(es: seq<Event>)
    ensures Alternating(es) <==>
      (es != [] ==> es[0] == MouseMove) &&
      (forall k :: 0 <= k < |es| - 1 ==> es[k] != es[k + 1])
  {
    if |es| > 1 {
      var n := |es|;
      var init := es[..n - 1];
      AlternatingIffNoRepeat(init);
      assert forall k :: 0 <= k < |init| ==> init[k] == es[k];
      if Alternating(es) {
        forall k | 0 <= k < n - 1
          ensures es[k] != es[k + 1]
        {
          assert (k + 1) % 2 != k % 2;
        }
      }
      if es[0] == MouseMove && forall k :: 0 <= k < n - 1 ==> es[k] != es[k + 1] {
        assert Alternating(init);
        assert es[n - 2] != es[n - 1];
        assert (n - 1) % 2 != (n - 2) % 2;
      }
    }
  }

  /** Appending `e` keeps a trace alternating exactly when `e` is the event due. */
  lemma AlternatingExtend(es: seq<Event>, e: Event)
    requires Alternating(es)
    ensures Alternating(es + [e]) <==> e == (if |es| % 2 == 0 then MouseMove else MouseStop)
  {
    assert (es + [e])[|es|] == e;
  }

  class MouseMonitor {
    var lastLocation: Point
    var isMoving: bool
    /** The repeating poll timer is installed. */
    var polling: bool
    /** The one-shot stop timer is pending. */
    var debounceArmed: bool
    /** Every callback fired so far, in order. */
    ghost var events: seq<Event>

    /** A pending stop timer belongs to a motion seen while polling; the callbacks
        alternate, and the machine is Moving exactly after an unanswered move. */
    ghost predicate Valid()
      reads this
    {
      (debounceArmed ==> isMoving && polling) &&
      Alternating(events) &&
      (isMoving <==> |events| % 2 == 1)
    }

    constructor ()
      ensures Valid()
      ensures lastLocation == Point(0.0, 0.0) && !isMoving && !polling && !debounceArmed && events == []
    {
      lastLocation := Point(0.0, 0.0);
      isMoving := false;
      polling := false;
      debounceArmed := false;
      events := [];
    }

    /** Records where the mouse is now and installs the poll timer. */
    method StartMonitoring(pos: Point)
      requires Valid() && !polling
      modifies this`lastLocation, this`polling
      ensures Valid()
      ensures lastLocation == pos && polling
    {
      lastLocation := pos;
      polling := true;
    }

    /** Cancels the poll timer and any pending stop timer; the motion state stays. */
    method StopMonitoring()
      requires Valid()
      modifies this`polling, this`debounceArmed
      ensures Valid()
      ensures !polling && !debounceArmed
    {
      polling := false;
      debounceArmed := false;
    }

    /** One poll with the sampled position `pos`. */
    method CheckMouse(pos: Point)
      requires Valid() && polling
      modifies this`lastLocation, this`isMoving, this`debounceArmed, this`events
      ensures Valid()
      ensures pos == old(lastLocation) ==> unchanged(this)
      ensures pos != old(lastLocation) ==>
        lastLocation == pos && isMoving && debounceArmed &&
        events == old(events) + (if old(isMoving) then [] else [MouseMove])
    {
      if pos != lastLocation {
        lastLocation := pos;
        if !isMoving {
          isMoving := true;
          AlternatingExtend(events, MouseMove);
          events := events + [MouseMove];
        }
        // Cancel the pending stop timer, if any, and arm a fresh one.
        debounceArmed := true;
      }
    }

    /** Expiry of the stop timer. */
    method DebounceFire()
      requires Valid() && debounceArmed
      modifies this`isMoving, this`debounceArmed, this`events
      ensures Valid()
      ensures !isMoving && !debounceArmed && events == old(events) + [MouseStop]
    {
      debounceArmed := false;
      isMoving := false;
      AlternatingExtend(events, MouseStop);
      events := events + [MouseStop];
    }
  }

  /** Moves fired minus stops fired is one while moving and zero while still. */
  lemma MonitorBalance(m: MouseMonitor)
    requires m.Valid()
    ensures Count(m.events, MouseMove) - Count(m.events, MouseStop) == if m.isMoving then 1 else 0
  {
    AlternatingBalance(m.events);
  }
}
