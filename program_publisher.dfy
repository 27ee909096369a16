/** The older publisher kept in `Program.cs` (class `TriggerPubisher<T>`, spelled as there).
 *
 *  Its write cursor starts at 0, and `Set` writes the record into the slot the cursor names,
 *  raises the wake event, and only then advances the cursor and writes it to the header.
 *  The header therefore always holds the index of the slot to be written NEXT.
 */
module ProgramPublisher {
  import opened Layout
  import opened SharedChannel
  import opened ModArith

  /** `Create`: the segment is zero-filled and the cursor keeps its initial value 0. */
  function Created(tSize: nat, queueSize: nat): (st: PubState)
    ensures WellFormed(st) <==> queueSize < U32
    ensures st.cursor == 0 && st.ring.header == 0 && |st.ring.slots| == queueSize
    ensures forall j :: 0 <= j < queueSize ==> st.ring.slots[j] == Zeroes(tSize)
  {
    PubState(0, ZeroRing(tSize, queueSize))
  }

  /** `Set`: the new state and how the call ended. The record is written at the cursor
   *  before it advances; with no slots that write already reaches past the segment and
   *  throws, so nothing changes. */
  function Publish(st: PubState, obj: seq<byte>): (r: (PubState, Outcome))
    ensures WellFormed(st) ==> WellFormed(r.0)
    ensures r.1.Threw? <==> st.cursor >= |st.ring.slots|
    ensures r.1.Threw? ==> r.0 == st && r.1.fault == OutOfRange
    ensures WellFormed(st) && |st.ring.slots| > 0 ==>
              r.0.cursor == (st.cursor + 1) % |st.ring.slots|
              && r.0.ring.header == r.0.cursor
              && |r.0.ring.slots| == |st.ring.slots|
              && r.0.ring.slots[st.cursor] == obj
              && forall j :: 0 <= j < |st.ring.slots| && j != st.cursor ==>
                   r.0.ring.slots[j] == st.ring.slots[j]
  {
    var q := |st.ring.slots|;
    if st.cursor >= q then (st, Threw(OutOfRange))
    else
      var next := AddU32(st.cursor, 1) % q;
      (PubState(next, Ring(next, st.ring.slots[st.cursor := obj])), Done)
  }

  /** The state after publishing `values` in order. */
  function PublishAll(st: PubState, values: seq<seq<byte>>): (r: PubState)
    ensures WellFormed(st) ==> WellFormed(r)
    ensures |r.ring.slots| == |st.ring.slots|
    decreases |values|
  {
    if values == [] then st
    else Publish(PublishAll(st, values[..|values| - 1]), values[|values| - 1]).0
  }

  /** What a successful `Set` at cursor `c`, advancing to `next`, does to the channel, in
   *  program order: record, then signal, then header. */
  function SetEffects(tSize: nat, c: nat, next: nat, obj: seq<byte>): (es: seq<Effect>)
    ensures |es| == 3 && es[1] == SignalRaised
    ensures es[0].RecordWritten? && es[2].HeaderWritten?
  {
    [RecordWritten(SlotAddress(tSize, c), obj), SignalRaised, HeaderWritten(next)]
  }

  /** After `K` publishes the cursor and the header are both `K mod Q`, the next slot to be
   *  written, and the `K`-th record sits in slot `(K - 1) mod Q`. */
  lemma {:induction false} HeaderAfterPublishes(tSize: nat, queueSize: nat, values: seq<seq<byte>>)
    requires 0 < queueSize < U32
    ensures var st := PublishAll(Created(tSize, queueSize), values);
            var k := |values|;
            WellFormed(st) && |st.ring.slots| == queueSize
            && st.cursor == k % queueSize
            && st.ring.header == k % queueSize
            && (k > 0 ==> st.ring.slots[(k - 1) % queueSize] == values[k - 1])
    decreases |values|
  {
    var k := |values|;
    if k == 0 {
      ModSmall(0, queueSize);
    } else {
      var init := values[..k - 1];
      HeaderAfterPublishes(tSize, queueSize, init);
      var prev := PublishAll(Created(tSize, queueSize), init);
      assert PublishAll(Created(tSize, queueSize), values) == Publish(prev, values[k - 1]).0;
      CursorStep(prev, values[k - 1], k - 1);
    }
  }

  /** A `Set` from cursor `n mod Q` writes slot `n mod Q` and leaves cursor and header at
   *  `(n + 1) mod Q`. */
  lemma CursorStep(prev: PubState, v: seq<byte>, n: nat)
    requires WellFormed(prev) && 0 < |prev.ring.slots| && prev.cursor == n % |prev.ring.slots|
    ensures var q := |prev.ring.slots|;
            var r := Publish(prev, v).0;
            WellFormed(r) && |r.ring.slots| == q
            && r.cursor == (n + 1) % q && r.ring.header == (n + 1) % q
            && r.ring.slots[n % q] == v
  {
    ModSucc(n, |prev.ring.slots|);
  }

  /** Slots are overwritten oldest first: after `K` publishes, each of the last `Q` records
   *  is still in slot `i mod Q`, and the slots no publish has reached yet are still zero. */
  lemma {:induction false} RetainsLatest(tSize: nat, queueSize: nat, values: seq<seq<byte>>)
    requires 0 < queueSize < U32
    ensures var st := PublishAll(Created(tSize, queueSize), values);
            var k := |values|;
            |st.ring.slots| == queueSize
            && (forall i :: 0 <= i < k && k - queueSize <= i ==>
                  st.ring.slots[i % queueSize] == values[i])
            && (forall j :: k <= j < queueSize ==> st.ring.slots[j] == Zeroes(tSize))
    decreases |values|
  {
    var k := |values|;
    if k > 0 {
      var init := values[..k - 1];
      RetainsLatest(tSize, queueSize, init);
      HeaderAfterPublishes(tSize, queueSize, init);
      var prev := PublishAll(Created(tSize, queueSize), init);
      var st := PublishAll(Created(tSize, queueSize), values);
      assert st == Publish(prev, values[k - 1]).0;
      assert st.ring.slots == prev.ring.slots[(k - 1) % queueSize := values[k - 1]];
      assert forall i :: 0 <= i < k - 1 ==> init[i] == values[i];
      WindowAfterWrite(prev.ring.slots, tSize, values);
    }
  }


  /** What the slots of a fresh segment have held, oldest first: `Q` zero records (the
   *  zero-fill) followed by every published record. */
  function ZeroPrefixed(tSize: nat, queueSize: nat, values: seq<seq<byte>>): (h: seq<seq<byte>>)
    ensures |h| == queueSize + |values|
    ensures forall j :: 0 <= j < queueSize ==> h[j] == Zeroes(tSize)
    ensures forall i :: 0 <= i < |values| ==> h[queueSize + i] == values[i]
  {
    seq(queueSize, _ => Zeroes(tSize)) + values
  }

  /** After `K` publishes, the `Q` slots read in order from the cursor `K mod Q` hold the
   *  last `Q` entries of that history: slot `j mod Q` holds entry `j` for `K <= j < K + Q`,
   *  so a slot not yet written reads as zero and any other holds the record written `Q`
   *  publishes before the one about to overwrite it. */
  lemma {:induction false} SlotsHoldHistory(tSize: nat, queueSize: nat, values: seq<seq<byte>>, j: nat)
    requires 0 < queueSize < U32 && |values| <= j < |values| + queueSize
    ensures var st := PublishAll(Created(tSize, queueSize), values);
            |st.ring.slots| == queueSize
            && st.ring.slots[j % queueSize] == ZeroPrefixed(tSize, queueSize, values)[j]
  {
    RetainsLatest(tSize, queueSize, values);
    var st := PublishAll(Created(tSize, queueSize), values);
    WindowIsHistory(st.ring.slots, tSize, values, j);
  }

  /** Slots that hold the last `Q` records at `i mod Q` and zero records where nothing has
   *  been written yet hold, at `j mod Q`, entry `j` of the history for `K <= j < K + Q`. */
  lemma WindowIsHistory(slots: seq<seq<byte>>, tSize: nat, values: seq<seq<byte>>, j: nat)
    requires |slots| > 0 && |values| <= j < |values| + |slots|
    requires forall i :: 0 <= i < |values| && |values| - |slots| <= i ==> slots[i % |slots|] == values[i]
    requires forall j :: |values| <= j < |slots| ==> slots[j] == Zeroes(tSize)
    ensures slots[j % |slots|] == ZeroPrefixed(tSize, |slots|, values)[j]
  {
    var q := |slots|;
    if j >= q {
      var n := j - q;
      ModAddTurn(n, q);
      assert slots[j % q] == values[n];
    } else {
      ModSmall(j, q);
    }
  }


  /** Applying a `Set`'s effects to a segment image stores `obj` in slot `c` and `next` in
   *  the header, and nothing else changes in the ring. */
  lemma SetEffectsRing(m: seq<byte>, tSize: nat, queueSize: nat, c: nat, next: nat, obj: seq<byte>)
    requires |m| == SegmentLength(tSize, queueSize) && c < queueSize < U32 && next < U32
    requires |obj| == tSize
    ensures RingOf(ApplyAll(m, SetEffects(tSize, c, next, obj)), tSize, queueSize)
         == Ring(next, RingOf(m, tSize, queueSize).slots[c := obj])
  {
    var es := SetEffects(tSize, c, next, obj);
    ApplyThree(m, es[0], es[1], es[2]);
    SlotWriteRing(m, tSize, queueSize, c, obj);
    var m1 := Apply(m, es[0]);
    HeaderWriteRing(m1, tSize, queueSize, next);
  }

  /** The segment written by a successful `Set` at cursor `c` decodes to the state
   *  `Publish` gives: its three effects, applied in order, are the record write and the
   *  header write, and the ring they leave is the published one. */
  lemma SetRefinesPublish(m: seq<byte>, tSize: nat, queueSize: nat, c: nat, obj: seq<byte>)
    requires |m| == SegmentLength(tSize, queueSize) && c < queueSize < U32 && |obj| == tSize
    ensures var next := AddU32(c, 1) % queueSize;
            var es := SetEffects(tSize, c, next, obj);
            ApplyAll(m, es)
              == Apply(Apply(m, RecordWritten(SlotAddress(tSize, c), obj)), HeaderWritten(next))
            && Publish(PubState(c, RingOf(m, tSize, queueSize)), obj)
               == (PubState(next, RingOf(ApplyAll(m, es), tSize, queueSize)), Done)
  {
    var next := AddU32(c, 1) % queueSize;
    var es := SetEffects(tSize, c, next, obj);
    ApplyThree(m, es[0], es[1], es[2]);
    SetEffectsRing(m, tSize, queueSize, c, next, obj);
  }

  /** A `Set` changes only the bytes of the slot at its cursor and the header bytes. */
  lemma SetTouchesOnlyHeaderAndSlot(m: seq<byte>, tSize: nat, queueSize: nat, c: nat, next: nat, obj: seq<byte>)
    requires |m| == SegmentLength(tSize, queueSize) && c < queueSize < U32 && next < U32
    requires |obj| == tSize
    ensures var m' := ApplyAll(m, SetEffects(tSize, c, next, obj));
            SameOutside(m, m', SlotAddress(tSize, c), SlotAddress(tSize, c) + tSize)
  {
    SlotFits(tSize, queueSize, c);
    var es := SetEffects(tSize, c, next, obj);
    ApplyThree(m, es[0], es[1], es[2]);
    var a := SlotAddress(tSize, c);
    var m1 := Apply(m, es[0]);
    assert m1 == m[..a] + obj + m[a + tSize..];
    var m' := WithHeader(m1, next);
    assert ApplyAll(m, es) == m';
    forall k | HeaderSize <= k < |m| && !(a <= k < a + tSize)
      ensures m'[k] == m[k]
    {
      assert m'[k] == m1[k];
    }
  }

  /** Because the slot is written first, by the time the wake event is raised the slot
   *  already holds the new record, while the header still holds its previous value. */
  lemma SlotCompleteBeforeSignal(m: seq<byte>, tSize: nat, queueSize: nat, c: nat, next: nat, obj: seq<byte>)
    requires |m| == SegmentLength(tSize, queueSize) && c < queueSize < U32 && |obj| == tSize
    ensures var es := SetEffects(tSize, c, next, obj);
            var atSignal := Apply(m, es[0]);
            es[1] == SignalRaised
            && RingOf(atSignal, tSize, queueSize).slots[c] == obj
            && RingOf(atSignal, tSize, queueSize).header == RingOf(m, tSize, queueSize).header
  {
    SlotWriteRing(m, tSize, queueSize, c, obj);
  }

  /** The class as declared in `Program.cs`, including its spelling. */
  class TriggerPubisher {
    const chan: Channel
    var currIndex: nat

    ghost function State(): PubState
      reads this, chan, chan.mem
      requires chan.Valid()
    {
      PubState(currIndex, chan.View())
    }

    ghost predicate Valid()
      reads this, chan, chan.mem
    {
      chan.Valid() && WellFormed(State())
    }

    /** `TriggerPubisher<T>.Create(name, queueSize)` for a record of `tSize` bytes. */
    constructor Create(tSize: nat, queueSize: nat, existing: seq<byte>, eventSet: bool)
      requires tSize > 0 && queueSize < U32
      requires |existing| == SegmentLength(tSize, queueSize)
      ensures Valid() && fresh(chan) && fresh(chan.mem)
      ensures chan.tSize == tSize && chan.queueSize == queueSize
      ensures chan.mem.Length == tSize * queueSize + 4
      ensures forall k :: 0 <= k < chan.mem.Length ==> chan.mem[k] == 0
      ensures State() == Created(tSize, queueSize)
      ensures !chan.signalled && chan.log == []
    {
      currIndex := 0;
      chan := new Channel.CreateOrOpen(tSize, queueSize, existing, eventSet);
      new;
      chan.ZeroFill();
      chan.Reset();
    }

    /** `Set(obj)`. */
    method Set(obj: seq<byte>) returns (outcome: Outcome)
      requires Valid() && |obj| == chan.tSize
      modifies this, chan, chan.mem
      ensures Valid()
      ensures (State(), outcome) == Publish(old(State()), obj)
      ensures outcome.Done? ==>
                chan.signalled
                && chan.log == old(chan.log) + SetEffects(chan.tSize, old(currIndex), currIndex, obj)
                && chan.mem[..] == ApplyAll(old(chan.mem[..]), SetEffects(chan.tSize, old(currIndex), currIndex, obj))
                && SameOutside(old(chan.mem[..]), chan.mem[..], SlotAddress(chan.tSize, old(currIndex)),
                               SlotAddress(chan.tSize, old(currIndex)) + chan.tSize)
      ensures outcome.Threw? ==>
                chan.mem[..] == old(chan.mem[..]) && chan.log == old(chan.log)
                && chan.signalled == old(chan.signalled)
    {
      ghost var m := chan.mem[..];
      ghost var c := currIndex;
      var address := SlotAddress(chan.tSize, currIndex);
      SlotFitsIff(chan.tSize, chan.queueSize, currIndex);
      var ok := chan.WriteRecord(address, obj);
      if !ok {
        return Threw(OutOfRange);
      }
      chan.Raise();
      currIndex := AddU32(currIndex, 1) % chan.queueSize;
      chan.WriteHeader(currIndex);
      outcome := Done;
      SetRefinesPublish(m, chan.tSize, chan.queueSize, c, obj);
      assert chan.mem[..] == ApplyAll(m, SetEffects(chan.tSize, c, currIndex, obj));
      SetTouchesOnlyHeaderAndSlot(m, chan.tSize, chan.queueSize, c, currIndex, obj);
    }
  }
}
