/** The library subscriber (`TriggerSubscriber<T>` in the `Trigger` library).
 *
 *  `Create` opens the segment and the wake event and starts a dispatch thread. The thread
 *  reads the header once as its starting cursor, then loops: on an event wake-up it reads
 *  the slot at its cursor, hands the record to the callback inside a `try` that discards
 *  any exception, and advances the cursor modulo `QueueSize`; a cancellation wake-up
 *  delivers nothing. After every wake-up the loop ends if cancellation was requested.
 */
module LibSubscriber {
  import opened Layout
  import opened SharedChannel
  import opened ModArith
  import opened Dispatch

  /** One pass of the loop body, reading from the segment as it is now. A read at a cursor
   *  past the last slot reaches beyond the segment and throws out of the thread. Whether
   *  the callback throws does not matter: the exception is caught and discarded. */
  function Pass(st: SubState, ring: Ring, w: Wake): (r: SubState)
    requires st.status == Running
    ensures |st.delivered| <= |r.delivered| <= |st.delivered| + 1
    ensures |r.delivered| == |st.delivered| + 1
            <==> w.Signalled? && st.cursor < |ring.slots|
    ensures |r.delivered| == |st.delivered| + 1 ==> r.delivered[|st.delivered|] == ring.slots[st.cursor]
    ensures r.status == Faulted(OutOfRange) <==> w.Signalled? && st.cursor >= |ring.slots|
    ensures r.status == Stopped <==> w.Cancelled? || (st.cursor < |ring.slots| && w.cancelRequested)
    ensures r.status != Faulted(CallbackRaised)
    ensures r.status == Running && 0 < |ring.slots| < U32 ==> r.cursor == (st.cursor + 1) % |ring.slots|
  {
    match w
    case Cancelled => st.(status := Stopped)
    case Signalled(_, cancelRequested) =>
      if st.cursor >= |ring.slots| then st.(status := Faulted(OutOfRange))
      else SubState(AddU32(st.cursor, 1) % |ring.slots|,
                    st.delivered + [ring.slots[st.cursor]],
                    if cancelRequested then Stopped else Running)
  }

  /** The loop run over the wake-ups `ws` while nothing is published: it stops taking
   *  wake-ups as soon as it is no longer running. */
  function Run(st: SubState, ring: Ring, ws: seq<Wake>): (r: SubState)
    ensures st.status != Running ==> r == st
    ensures |st.delivered| <= |r.delivered| <= |st.delivered| + |ws|
    ensures 0 < |ring.slots| < U32 && st.cursor < |ring.slots| ==> r.cursor < |ring.slots|
    ensures st.status == Running && st.cursor < |ring.slots| < U32 ==> r.status != Faulted(OutOfRange)
    ensures st.status != Faulted(CallbackRaised) ==> r.status != Faulted(CallbackRaised)
    decreases |ws|
  {
    if ws == [] || st.status != Running then st
    else Run(Pass(st, ring, ws[0]), ring, ws[1..])
  }

  /** The loop only ever appends to what it has delivered: records handed to the callback
   *  are never taken back or reordered. */
  lemma {:induction false} RunExtendsDelivered(st: SubState, ring: Ring, ws: seq<Wake>)
    ensures var r := Run(st, ring, ws);
            r.delivered[..|st.delivered|] == st.delivered
    decreases |ws|
  {
    if ws != [] && st.status == Running {
      var s1 := Pass(st, ring, ws[0]);
      RunExtendsDelivered(s1, ring, ws[1..]);
      assert s1.delivered[..|st.delivered|] == st.delivered;
      var r := Run(st, ring, ws);
      assert r.delivered[..|st.delivered|] == r.delivered[..|s1.delivered|][..|st.delivered|];
    }
  }

  /** A delivery from slot `c` followed by a slot run from the next slot is a slot run
   *  from `c`, one record longer. */
  lemma SlotOrderStep(slots: seq<seq<byte>>, d: seq<seq<byte>>, c: nat, n: nat, r: SubState)
    requires c < |slots|
    requires r.delivered == (d + [slots[c]]) + SlotRun(slots, (c + 1) % |slots|, n)
    requires r.cursor == ((c + 1) % |slots| + n) % |slots|
    ensures r.delivered == d + SlotRun(slots, c, n + 1)
    ensures r.cursor == (c + (n + 1)) % |slots|
  {
    assert SlotRun(slots, c, n + 1) == [slots[c]] + SlotRun(slots, (c + 1) % |slots|, n);
    ModAddLeft(c + 1, n, |slots|);
  }

  /** From a cursor that names a slot, the loop never faults; it delivers one record per
   *  event wake-up up to the wake-up that ends it, from consecutive slots starting at its
   *  cursor and wrapping at `Q`; it stops exactly when some wake-up ends it. */
  lemma {:induction false} RunDeliversInSlotOrder(st: SubState, ring: Ring, ws: seq<Wake>)
    requires 0 < |ring.slots| < U32 && st.cursor < |ring.slots| && st.status == Running
    ensures var r := Run(st, ring, ws);
            var n := SignalCount(ws[..Consumed(ws)]);
            r.delivered == st.delivered + SlotRun(ring.slots, st.cursor, n)
            && r.cursor == (st.cursor + n) % |ring.slots|
            && r.status == (if SomeEnds(ws) then Stopped else Running)
    decreases |ws|
  {
    var q := |ring.slots|;
    var c := st.cursor;
    if ws == [] {
      ModSmall(c, q);
    } else {
      var s1 := Pass(st, ring, ws[0]);
      assert Run(st, ring, ws) == Run(s1, ring, ws[1..]);
      if EndsLoop(ws[0]) {
        EndingHead(ws);
        assert Run(s1, ring, ws[1..]) == s1;
        if ws[0].Signalled? {
          assert s1 == SubState((c + 1) % q, st.delivered + [ring.slots[c]], Stopped);
          assert SlotRun(ring.slots, c, 1) == [ring.slots[c]];
        } else {
          assert s1 == st.(status := Stopped);
          ModSmall(c, q);
        }
      } else {
        NotEndingHead(ws);
        var n' := SignalCount(ws[1..][..Consumed(ws[1..])]);
        assert s1 == SubState((c + 1) % q, st.delivered + [ring.slots[c]], Running);
        RunDeliversInSlotOrder(s1, ring, ws[1..]);
        SlotOrderStep(ring.slots, st.delivered, c, n', Run(s1, ring, ws[1..]));
      }
    }
  }


  /** A throwing callback changes nothing: the cursor still advances and later event
   *  wake-ups still deliver, exactly as if every callback had returned normally. */
  lemma {:induction false} CallbackErrorsSwallowed(st: SubState, ring: Ring, ws: seq<Wake>)
    ensures Run(st, ring, ws) == Run(st, ring, Quiet(ws))
    decreases |ws|
  {
    if ws != [] && st.status == Running {
      assert Quiet(ws)[1..] == Quiet(ws[1..]);
      CallbackErrorsSwallowed(Pass(st, ring, ws[0]), ring, ws[1..]);
    }
  }

  /** A header that does not name a slot makes the first event wake-up read past the
   *  segment: the loop ends with the read's exception and delivers nothing. */
  lemma FirstReadOutOfRange(ring: Ring, ws: seq<Wake>)
    requires ring.header >= |ring.slots| && ws != [] && ws[0].Signalled?
    ensures Run(Start(ring), ring, ws) == SubState(ring.header, [], Faulted(OutOfRange))
  {
    assert Run(Start(ring), ring, ws) == Run(Pass(Start(ring), ring, ws[0]), ring, ws[1..]);
  }

  class TriggerSubscriber {
    const chan: Channel
    /** The dispatch loop's `currIndex`. */
    var cursor: nat
    /** The records handed to the callback, oldest first. */
    var delivered: seq<seq<byte>>
    var status: Status

    ghost function State(): SubState
      reads this
    {
      SubState(cursor, delivered, status)
    }

    /** `TriggerSubscriber<T>.Create` on an existing channel, up to the dispatch thread's
     *  first statement, which reads the header into the cursor. Nothing is written. */
    constructor Create(chan: Channel)
      requires chan.Valid()
      ensures this.chan == chan && State() == Start(chan.View())
    {
      this.chan := chan;
      new;
      cursor := chan.ReadHeader();
      delivered := [];
      status := Running;
    }

    /** One pass of the dispatch loop's body for the wake-up `w`. */
    method Step(w: Wake)
      requires chan.Valid() && status == Running
      modifies this
      ensures State() == Pass(old(State()), chan.View(), w)
    {
      match w
      case Cancelled =>
        status := Stopped;
      case Signalled(_, cancelRequested) =>
        var address := HeaderSize + cursor * chan.tSize;
        assert address == SlotAddress(chan.tSize, cursor);
        var ok, obj := chan.ReadRecord(address);
        SlotFitsIff(chan.tSize, chan.queueSize, cursor);
        if !ok {
          status := Faulted(OutOfRange);
          return;
        }
        assert obj == chan.View().slots[cursor];
        // The callback runs inside try/catch; whatever it throws is discarded.
        delivered := delivered + [obj];
        cursor := AddU32(cursor, 1) % chan.queueSize;
        if cancelRequested {
          status := Stopped;
        }
    }

    /** The dispatch loop, taking the wake-ups `ws` in order while nothing is published. */
    method Dispatch(ws: seq<Wake>)
      requires chan.Valid() && status == Running
      modifies this
      ensures State() == Run(old(State()), chan.View(), ws)
    {
      var i := 0;
      while i < |ws| && status == Running
        invariant 0 <= i <= |ws|
        invariant Run(State(), chan.View(), ws[i..]) == Run(old(State()), chan.View(), ws)
      {
        assert ws[i..][1..] == ws[i + 1..];
        Step(ws[i]);
        i := i + 1;
      }
    }
  }
}
