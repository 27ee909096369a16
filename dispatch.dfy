/** Vocabulary shared by both subscriber dispatch loops.
 *
 *  The loop blocks in `WaitHandle.WaitAny` on the channel's wake event and the
 *  cancellation token's handle. The model takes the sequence of wake-ups as input: each
 *  wake-up says which handle woke the loop and what the loop then observes (whether the
 *  callback throws on this delivery, and whether cancellation has been requested by the
 *  time the loop tests `IsCancellationRequested`).
 */
module Dispatch {
  import opened Layout
  import opened SharedChannel
  import opened ModArith

  datatype Wake =
    | Signalled(callbackRaises: bool, cancelRequested: bool)  // `WaitAny` returned 0
    | Cancelled                                                // `WaitAny` returned 1

  datatype Status = Running | Stopped | Faulted(fault: Fault)

  /** The wake-up a publish causes: the event, a callback that returns, no cancellation. */
  const Event: Wake := Signalled(false, false)

  /** The loop's local cursor, the records handed to the callback so far (oldest first)
   *  and whether the loop is still running. */
  datatype SubState = SubState(cursor: nat, delivered: seq<seq<byte>>, status: Status)

  /** State of a dispatch loop that has just read its starting cursor from the header. */
  function Start(ring: Ring): (s: SubState)
    ensures s.cursor == ring.header && s.delivered == [] && s.status == Running
  {
    SubState(ring.header, [], Running)
  }

  /** Whether the loop's `while (!IsCancellationRequested)` test ends the loop after `w`. */
  predicate EndsLoop(w: Wake)
  {
    w.Cancelled? || w.cancelRequested
  }

  /** Number of wake-ups a loop that never faults takes from `ws`: up to and including the
   *  first that ends it. */
  function Consumed(ws: seq<Wake>): (n: nat)
    ensures n <= |ws|
  {
    if ws == [] then 0 else if EndsLoop(ws[0]) then 1 else 1 + Consumed(ws[1..])
  }

  /** Number of event wake-ups in `ws`. */
  function SignalCount(ws: seq<Wake>): (n: nat)
    ensures n <= |ws|
  {
    if ws == [] then 0 else (if ws[0].Signalled? then 1 else 0) + SignalCount(ws[1..])
  }

  /** Whether some wake-up in `ws` ends the loop. */
  predicate SomeEnds(ws: seq<Wake>)
  {
    exists i :: 0 <= i < |ws| && EndsLoop(ws[i])
  }

  /** A first wake-up that ends the loop is the only one consumed. */
  lemma EndingHead(ws: seq<Wake>)
    requires ws != [] && EndsLoop(ws[0])
    ensures SomeEnds(ws)
    ensures SignalCount(ws[..Consumed(ws)]) == if ws[0].Signalled? then 1 else 0
  {
    assert ws[..Consumed(ws)] == [ws[0]];
    assert [ws[0]][1..] == [];
  }

  /** A first wake-up that does not end the loop is an event wake-up; the rest of the run
   *  is the run of the remaining wake-ups. */
  lemma NotEndingHead(ws: seq<Wake>)
    requires ws != [] && !EndsLoop(ws[0])
    ensures ws[0].Signalled?
    ensures SomeEnds(ws) == SomeEnds(ws[1..])
    ensures SignalCount(ws[..Consumed(ws)]) == 1 + SignalCount(ws[1..][..Consumed(ws[1..])])
  {
    var taken := ws[..Consumed(ws)];
    assert taken[0] == ws[0] && taken[1..] == ws[1..][..Consumed(ws[1..])];
    if SomeEnds(ws) {
      var i :| 0 <= i < |ws| && EndsLoop(ws[i]);
      assert ws[1..][i - 1] == ws[i];
    }
    if SomeEnds(ws[1..]) {
      var i :| 0 <= i < |ws[1..]| && EndsLoop(ws[1..][i]);
      assert ws[i + 1] == ws[1..][i];
    }
  }

  /** The same wake-ups with every callback behaving. */
  function Quiet(ws: seq<Wake>): (r: seq<Wake>)
    ensures |r| == |ws|
  {
    if ws == [] then []
    else [if ws[0].Signalled? then Signalled(false, ws[0].cancelRequested) else Cancelled]
         + Quiet(ws[1..])
  }

  /** Whether no callback in `ws` throws. */
  predicate AllQuiet(ws: seq<Wake>)
  {
    forall i :: 0 <= i < |ws| ==> !(ws[i].Signalled? && ws[i].callbackRaises)
  }

  /** The records of `n` consecutive slots starting at `c`, wrapping at the end. */
  function SlotRun(slots: seq<seq<byte>>, c: nat, n: nat): (r: seq<seq<byte>>)
    requires c < |slots|
    ensures |r| == n
    decreases n
  {
    if n == 0 then [] else [slots[c]] + SlotRun(slots, (c + 1) % |slots|, n - 1)
  }

  /** The `i`-th record of a slot run comes from slot `(c + i) mod Q`. */
  lemma {:induction false} SlotRunAt(slots: seq<seq<byte>>, c: nat, n: nat, i: nat)
    requires c < |slots| && i < n
    ensures SlotRun(slots, c, n)[i] == slots[(c + i) % |slots|]
    decreases n
  {
    var q := |slots|;
    if i == 0 {
      ModSmall(c, q);
    } else {
      SlotRunAt(slots, (c + 1) % q, n - 1, i - 1);
      ModAddLeft(c + 1, i - 1, q);
    }
  }

  /** One element of a backlog after a write: the slot it comes from, `c + 2 + i` steps
   *  around, is the written slot `c` exactly for the last element. */
  lemma {:induction false} BacklogElement(slots: seq<seq<byte>>, c: nat, v: seq<byte>, i: nat)
    requires 2 <= |slots| && c < |slots| && i < |slots| - 1
    ensures var q := |slots|;
            SlotRun(slots[c := v], ((c + 1) % q + 1) % q, q - 1)[i]
            == if i == q - 2 then v else SlotRun(slots, (c + 1) % q, q - 1)[i + 1]
  {
    var q := |slots|;
    var sc := (c + 1) % q;
    var k := (c + 2 + i) % q;
    SlotRunAt(slots[c := v], (sc + 1) % q, q - 1, i);
    ModAddLeft(sc + 1, i, q);
    ModAddLeft(c + 1, 1 + i, q);
    assert ((sc + 1) % q + i) % q == k;
    var got := SlotRun(slots[c := v], (sc + 1) % q, q - 1)[i];
    assert got == slots[c := v][k];
    if i < q - 2 {
      ModDistinct(c, 2 + i, q);
      ModSmall(c, q);
      assert k != c;
      SlotRunAt(slots, sc, q - 1, i + 1);
      ModAddLeft(c + 1, i + 1, q);
      assert (sc + (i + 1)) % q == k;
      assert got == SlotRun(slots, sc, q - 1)[i + 1];
    } else {
      ModUnique(c + q, q, 1, c);
      assert k == c;
      assert got == v;
    }
  }

  /** The `Q - 1` slots a reader one slot ahead of a writer has still to read, in read
   *  order. After the writer stores `v` at its slot `c` and both advance by one, they are
   *  the old ones minus the first, followed by `v`. */
  lemma {:induction false} BacklogAfterWrite(slots: seq<seq<byte>>, c: nat, v: seq<byte>)
    requires 2 <= |slots| && c < |slots|
    ensures var q := |slots|;
            var sc := (c + 1) % q;
            SlotRun(slots[c := v], (sc + 1) % q, q - 1) == SlotRun(slots, sc, q - 1)[1..] + [v]
  {
    var q := |slots|;
    var sc := (c + 1) % q;
    var before, after := SlotRun(slots, sc, q - 1), SlotRun(slots[c := v], (sc + 1) % q, q - 1);
    var want := before[1..] + [v];
    assert |after| == |want| == q - 1;
    forall i | 0 <= i < q - 1
      ensures after[i] == want[i]
    {
      BacklogElement(slots, c, v, i);
      if i < q - 2 {
        assert want[i] == before[i + 1];
      }
    }
    assert after == want;
  }
}
