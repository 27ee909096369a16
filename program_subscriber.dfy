/** The older subscriber kept in `Program.cs` (class `TriggerSubscriber<T>` there).
 *
 *  Its dispatch loop is the library's except that the callback is invoked without a
 *  `try`: an exception thrown by the callback leaves the loop before the cursor advances
 *  and ends the dispatch thread, so no later wake-up is processed.
 */
module ProgramSubscriber {
  import opened Layout
  import opened SharedChannel
  import opened Dispatch
  import LibSubscriber

  /** One pass of the loop body, reading from the segment as it is now. */
  function Pass(st: SubState, ring: Ring, w: Wake): (r: SubState)
    requires st.status == Running
    ensures |st.delivered| <= |r.delivered| <= |st.delivered| + 1
    ensures |r.delivered| == |st.delivered| + 1
            <==> w.Signalled? && st.cursor < |ring.slots|
    ensures |r.delivered| == |st.delivered| + 1 ==> r.delivered[|st.delivered|] == ring.slots[st.cursor]
    ensures r.status == Faulted(OutOfRange) <==> w.Signalled? && st.cursor >= |ring.slots|
    ensures r.status == Stopped <==> w.Cancelled? || (st.cursor < |ring.slots| && !w.callbackRaises && w.cancelRequested)
    ensures r.status == Faulted(CallbackRaised)
            <==> w.Signalled? && w.callbackRaises && st.cursor < |ring.slots|
    ensures r.status == Faulted(CallbackRaised) ==> r.cursor == st.cursor
    ensures r.status == Running && 0 < |ring.slots| < U32 ==> r.cursor == (st.cursor + 1) % |ring.slots|
  {
    match w
    case Cancelled => st.(status := Stopped)
    case Signalled(callbackRaises, cancelRequested) =>
      if st.cursor >= |ring.slots| then st.(status := Faulted(OutOfRange))
      else if callbackRaises then
        SubState(st.cursor, st.delivered + [ring.slots[st.cursor]], Faulted(CallbackRaised))
      else SubState(AddU32(st.cursor, 1) % |ring.slots|,
                    st.delivered + [ring.slots[st.cursor]],
                    if cancelRequested then Stopped else Running)
  }

  /** The loop run over the wake-ups `ws` while nothing is published. */
  function Run(st: SubState, ring: Ring, ws: seq<Wake>): (r: SubState)
    ensures st.status != Running ==> r == st
    ensures |st.delivered| <= |r.delivered| <= |st.delivered| + |ws|
    ensures 0 < |ring.slots| < U32 && st.cursor < |ring.slots| ==> r.cursor < |ring.slots|
    ensures st.status == Running && st.cursor < |ring.slots| < U32 ==> r.status != Faulted(OutOfRange)
    decreases |ws|
  {
    if ws == [] || st.status != Running then st
    else Run(Pass(st, ring, ws[0]), ring, ws[1..])
  }

  /** The loop only ever appends to what it has delivered: records handed to the callback
   *  are never taken back or reordered. */
  lemma {:induction false} RunExtendsDelivered(st: SubState, ring: Ring, ws: seq<Wake>)
    ensures var r := Run(st, ring, ws);
            r.delivered[..|st.delivered|] == st.delivered
    decreases |ws|
  {
    if ws != [] && st.status == Running {
      var s1 := Pass(st, ring, ws[0]);
      RunExtendsDelivered(s1, ring, ws[1..]);
      assert s1.delivered[..|st.delivered|] == st.delivered;
      var r := Run(st, ring, ws);
      assert r.delivered[..|st.delivered|] == r.delivered[..|s1.delivered|][..|st.delivered|];
    }
  }

  /** A callback that throws ends the loop: the record was handed over, the cursor did not
   *  advance, and whatever wake-ups follow are never processed. */
  lemma CallbackErrorEndsLoop(st: SubState, ring: Ring, cancelRequested: bool, rest: seq<Wake>)
    requires st.status == Running && st.cursor < |ring.slots|
    ensures Run(st, ring, [Signalled(true, cancelRequested)] + rest)
         == SubState(st.cursor, st.delivered + [ring.slots[st.cursor]], Faulted(CallbackRaised))
  {
    var ws := [Signalled(true, cancelRequested)] + rest;
    assert ws[0] == Signalled(true, cancelRequested) && ws[1..] == rest;
  }

  /** As long as no callback throws, this loop behaves exactly like the library's. */
  lemma {:induction false} AgreesWithLibraryWhenQuiet(st: SubState, ring: Ring, ws: seq<Wake>)
    requires AllQuiet(ws)
    ensures Run(st, ring, ws) == LibSubscriber.Run(st, ring, ws)
    decreases |ws|
  {
    if ws != [] && st.status == Running {
      assert Pass(st, ring, ws[0]) == LibSubscriber.Pass(st, ring, ws[0]);
      AgreesWithLibraryWhenQuiet(Pass(st, ring, ws[0]), ring, ws[1..]);
    }
  }

  /** With callbacks that return, the loop delivers one record per event wake-up up to the
   *  wake-up that ends it, from consecutive slots starting at its cursor. */
  lemma RunDeliversInSlotOrder(st: SubState, ring: Ring, ws: seq<Wake>)
    requires 0 < |ring.slots| < U32 && st.cursor < |ring.slots| && st.status == Running
    requires AllQuiet(ws)
    ensures var r := Run(st, ring, ws);
            var n := SignalCount(ws[..Consumed(ws)]);
            r.delivered == st.delivered + SlotRun(ring.slots, st.cursor, n)
            && r.cursor == (st.cursor + n) % |ring.slots|
            && r.status == (if SomeEnds(ws) then Stopped else Running)
  {
    AgreesWithLibraryWhenQuiet(st, ring, ws);
    LibSubscriber.RunDeliversInSlotOrder(st, ring, ws);
  }

  class TriggerSubscriber {
    const chan: Channel
    /** The dispatch loop's `currIndex`. */
    var cursor: nat
    /** The records handed to the callback, oldest first. */
    var delivered: seq<seq<byte>>
    var status: Status

    ghost function State(): SubState
      reads this
    {
      SubState(cursor, delivered, status)
    }

    /** `TriggerSubscriber<T>.Create` on an existing channel, up to the dispatch thread's
     *  first statement, which reads the header into the cursor. Nothing is written. */
    constructor Create(chan: Channel)
      requires chan.Valid()
      ensures this.chan == chan && State() == Start(chan.View())
    {
      this.chan := chan;
      new;
      cursor := chan.ReadHeader();
      delivered := [];
      status := Running;
    }

    /** One pass of the dispatch loop's body for the wake-up `w`. */
    method Step(w: Wake)
      requires chan.Valid() && status == Running
      modifies this
      ensures State() == Pass(old(State()), chan.View(), w)
    {
      match w
      case Cancelled =>
        status := Stopped;
      case Signalled(callbackRaises, cancelRequested) =>
        var address := HeaderSize + cursor * chan.tSize;
        assert address == SlotAddress(chan.tSize, cursor);
        var ok, obj := chan.ReadRecord(address);
        SlotFitsIff(chan.tSize, chan.queueSize, cursor);
        if !ok {
          status := Faulted(OutOfRange);
          return;
        }
        assert obj == chan.View().slots[cursor];
        delivered := delivered + [obj];
        if callbackRaises {
          // Nothing catches the exception: it leaves the loop and ends the thread.
          status := Faulted(CallbackRaised);
          return;
        }
        cursor := AddU32(cursor, 1) % chan.queueSize;
        if cancelRequested {
          status := Stopped;
        }
    }

    /** The dispatch loop, taking the wake-ups `ws` in order while nothing is published. */
    method Dispatch(ws: seq<Wake>)
      requires chan.Valid() && status == Running
      modifies this
      ensures State() == Run(old(State()), chan.View(), ws)
    {
      var i := 0;
      while i < |ws| && status == Running
        invariant 0 <= i <= |ws|
        invariant Run(State(), chan.View(), ws[i..]) == Run(old(State()), chan.View(), ws)
      {
        assert ws[i..][1..] == ws[i + 1..];
        Step(ws[i]);
        i := i + 1;
      }
    }
  }
}
