/** The library publisher (`TriggerPublisher<T>` in the `Trigger` library).
 *
 *  Its write cursor is primed to `QueueSize - 1`, and `Set` first advances the cursor, then
 *  writes the cursor to the header, then the record to the slot, then raises the wake
 *  event. The header therefore always holds the index of the slot written LAST.
 */
module LibPublisher {
  import opened Layout
  import opened SharedChannel
  import opened ModArith

  /** `Create`: the segment is zero-filled and the cursor is `queueSize - 1` in `uint`
   *  arithmetic, so that the first `Set` lands in slot 0. */
  function Created(tSize: nat, queueSize: nat): (st: PubState)
    ensures queueSize < U32 ==> WellFormed(st)
    ensures 0 < queueSize < U32 ==> st.cursor == queueSize - 1
    ensures queueSize == 0 ==> st.cursor == U32 - 1
    ensures st.ring.header == 0 && |st.ring.slots| == queueSize
    ensures forall j :: 0 <= j < queueSize ==> st.ring.slots[j] == Zeroes(tSize)
  {
    PubState(SubU32(queueSize, 1), ZeroRing(tSize, queueSize))
  }

  /** `Set`: the new state and how the call ended. With no slots the cursor advance divides
   *  by zero before anything is written. */
  function Publish(st: PubState, obj: seq<byte>): (r: (PubState, Outcome))
    ensures WellFormed(st) ==> WellFormed(r.0)
    ensures r.1.Threw? <==> |st.ring.slots| == 0
    ensures r.1.Threw? ==> r.0 == st && r.1.fault == DivideByZero
    ensures WellFormed(st) && |st.ring.slots| > 0 ==>
              r.0.cursor == (st.cursor + 1) % |st.ring.slots|
              && r.0.ring.header == r.0.cursor
              && |r.0.ring.slots| == |st.ring.slots|
              && r.0.ring.slots[r.0.cursor] == obj
              && forall j :: 0 <= j < |st.ring.slots| && j != r.0.cursor ==>
                   r.0.ring.slots[j] == st.ring.slots[j]
  {
    var q := |st.ring.slots|;
    if q == 0 then (st, Threw(DivideByZero))
    else
      var c := AddU32(st.cursor, 1) % q;
      (PubState(c, Ring(c, st.ring.slots[c := obj])), Done)
  }

  /** The state after publishing `values` in order. */
  function PublishAll(st: PubState, values: seq<seq<byte>>): (r: PubState)
    ensures WellFormed(st) ==> WellFormed(r)
    ensures |r.ring.slots| == |st.ring.slots|
    decreases |values|
  {
    if values == [] then st
    else Publish(PublishAll(st, values[..|values| - 1]), values[|values| - 1]).0
  }

  /** What a successful `Set` targeting slot `c` does to the channel, in program order:
   *  header, then record, then signal. */
  function SetEffects(tSize: nat, c: nat, obj: seq<byte>): (es: seq<Effect>)
    ensures |es| == 3 && es[2] == SignalRaised
    ensures es[0].HeaderWritten? && es[1].RecordWritten?
  {
    [HeaderWritten(c), RecordWritten(SlotAddress(tSize, c), obj), SignalRaised]
  }

  /** The first `Set` after `Create` writes slot 0 and announces 0 in the header. */
  lemma FirstSetTargetsSlotZero(tSize: nat, queueSize: nat, obj: seq<byte>)
    requires 0 < queueSize < U32
    ensures var r := Publish(Created(tSize, queueSize), obj);
            r.1 == Done && r.0.cursor == 0 && r.0.ring.header == 0 && r.0.ring.slots[0] == obj
  {
    var st := Created(tSize, queueSize);
    assert st.cursor + 1 == queueSize;
    ModUnique(queueSize, queueSize, 1, 0);
    assert Publish(st, obj).0.cursor == 0;
  }

  /** After `K` publishes the cursor is `(K - 1) mod Q` (Euclidean, so `Q - 1` for `K = 0`);
   *  the header reads 0 before the first publish and `(K - 1) mod Q` after it, and the
   *  `K`-th record sits in slot `(K - 1) mod Q`. */
  lemma {:induction false} HeaderAfterPublishes(tSize: nat, queueSize: nat, values: seq<seq<byte>>)
    requires 0 < queueSize < U32
    ensures var st := PublishAll(Created(tSize, queueSize), values);
            var k := |values|;
            WellFormed(st) && |st.ring.slots| == queueSize
            && st.cursor == (k - 1) % queueSize
            && st.ring.header == (if k == 0 then 0 else (k - 1) % queueSize)
            && (k > 0 ==> st.ring.slots[(k - 1) % queueSize] == values[k - 1])
    decreases |values|
  {
    var k := |values|;
    if k == 0 {
      ModUnique(-1, queueSize, -1, queueSize - 1);
    } else {
      var init := values[..k - 1];
      HeaderAfterPublishes(tSize, queueSize, init);
      var prev := PublishAll(Created(tSize, queueSize), init);
      assert PublishAll(Created(tSize, queueSize), values) == Publish(prev, values[k - 1]).0;
      ModSucc(k - 2, queueSize);
    }
  }

  /** Slots are overwritten oldest first: after `K` publishes, each of the last `Q` records
   *  is still in slot `i mod Q`, and the slots no publish has reached yet are still zero. */
  lemma {:induction false} RetainsLatest(tSize: nat, queueSize: nat, values: seq<seq<byte>>)
    requires 0 < queueSize < U32
    ensures var st := PublishAll(Created(tSize, queueSize), values);
            var k := |values|;
            |st.ring.slots| == queueSize
            && (forall i :: 0 <= i < k && k - queueSize <= i ==>
                  st.ring.slots[i % queueSize] == values[i])
            && (forall j :: k <= j < queueSize ==> st.ring.slots[j] == Zeroes(tSize))
    decreases |values|
  {
    var k := |values|;
    if k > 0 {
      var init := values[..k - 1];
      RetainsLatest(tSize, queueSize, init);
      HeaderAfterPublishes(tSize, queueSize, init);
      HeaderAfterPublishes(tSize, queueSize, values);
      var prev := PublishAll(Created(tSize, queueSize), init);
      var st := PublishAll(Created(tSize, queueSize), values);
      assert st == Publish(prev, values[k - 1]).0;
      assert st.ring.slots == prev.ring.slots[(k - 1) % queueSize := values[k - 1]];
      assert forall i :: 0 <= i < k - 1 ==> init[i] == values[i];
      WindowAfterWrite(prev.ring.slots, tSize, values);
    }
  }


  /** Applying a `Set`'s effects to a segment image stores `c` in the header and `obj` in
   *  slot `c`, and nothing else changes in the ring. */
  lemma SetEffectsRing(m: seq<byte>, tSize: nat, queueSize: nat, c: nat, obj: seq<byte>)
    requires |m| == SegmentLength(tSize, queueSize) && c < queueSize < U32 && |obj| == tSize
    ensures RingOf(ApplyAll(m, SetEffects(tSize, c, obj)), tSize, queueSize)
         == Ring(c, RingOf(m, tSize, queueSize).slots[c := obj])
  {
    var es := SetEffects(tSize, c, obj);
    var m1 := Apply(m, es[0]);
    HeaderWriteRing(m, tSize, queueSize, c);
    SlotWriteRing(m1, tSize, queueSize, c, obj);
    ApplyThree(m, es[0], es[1], es[2]);
  }

  /** The segment written by a successful `Set` from cursor `c` decodes to the state
   *  `Publish` gives: its effects, applied in order, are the header write and the record
   *  write, and the ring they leave is the published one. */
  lemma SetRefinesPublish(m: seq<byte>, tSize: nat, queueSize: nat, c: nat, obj: seq<byte>)
    requires |m| == SegmentLength(tSize, queueSize) && c < U32 && 0 < queueSize < U32
    requires |obj| == tSize
    ensures var next := AddU32(c, 1) % queueSize;
            var es := SetEffects(tSize, next, obj);
            ApplyAll(m, es)
              == Apply(Apply(m, HeaderWritten(next)), RecordWritten(SlotAddress(tSize, next), obj))
            && Publish(PubState(c, RingOf(m, tSize, queueSize)), obj)
               == (PubState(next, RingOf(ApplyAll(m, es), tSize, queueSize)), Done)
  {
    var next := AddU32(c, 1) % queueSize;
    var es := SetEffects(tSize, next, obj);
    ApplyThree(m, es[0], es[1], es[2]);
    SetEffectsRing(m, tSize, queueSize, next, obj);
  }

  /** A `Set` changes only the header bytes and the bytes of the target slot. */
  lemma SetTouchesOnlyHeaderAndSlot(m: seq<byte>, tSize: nat, queueSize: nat, c: nat, obj: seq<byte>)
    requires |m| == SegmentLength(tSize, queueSize) && c < queueSize < U32 && |obj| == tSize
    ensures var m' := ApplyAll(m, SetEffects(tSize, c, obj));
            SameOutside(m, m', SlotAddress(tSize, c), SlotAddress(tSize, c) + tSize)
  {
    SlotFits(tSize, queueSize, c);
    var es := SetEffects(tSize, c, obj);
    var m1 := Apply(m, es[0]);
    ApplyThree(m, es[0], es[1], es[2]);
  }

  /** Because the header is written before the slot, there is a moment inside `Set` when
   *  the header already names slot `c` while slot `c` still holds its previous record. */
  lemma HeaderAnnouncesStaleSlot(m: seq<byte>, tSize: nat, queueSize: nat, c: nat, obj: seq<byte>)
    requires |m| == SegmentLength(tSize, queueSize) && c < queueSize < U32 && |obj| == tSize
    ensures var mid := Apply(m, SetEffects(tSize, c, obj)[0]);
            RingOf(mid, tSize, queueSize).header == c
            && RingOf(mid, tSize, queueSize).slots[c] == RingOf(m, tSize, queueSize).slots[c]
  {
    HeaderWriteRing(m, tSize, queueSize, c);
  }

  class TriggerPublisher {
    const chan: Channel
    var currIndex: nat

    ghost function State(): PubState
      reads this, chan, chan.mem
      requires chan.Valid()
    {
      PubState(currIndex, chan.View())
    }

    ghost predicate Valid()
      reads this, chan, chan.mem
    {
      chan.Valid() && WellFormed(State())
    }

    /** `TriggerPublisher<T>.Create(name, queueSize)` for a record of `tSize` bytes. */
    constructor Create(tSize: nat, queueSize: nat, existing: seq<byte>, eventSet: bool)
      requires tSize > 0 && queueSize < U32
      requires |existing| == SegmentLength(tSize, queueSize)
      ensures Valid() && fresh(chan) && fresh(chan.mem)
      ensures chan.tSize == tSize && chan.queueSize == queueSize
      ensures chan.mem.Length == tSize * queueSize + HeaderSize
      ensures forall k :: 0 <= k < chan.mem.Length ==> chan.mem[k] == 0
      ensures State() == Created(tSize, queueSize)
      ensures !chan.signalled && chan.log == []
    {
      currIndex := SubU32(queueSize, 1);
      chan := new Channel.CreateOrOpen(tSize, queueSize, existing, eventSet);
      new;
      chan.ZeroFill();
      chan.Reset();
    }

    /** `Set(obj)`. */
    method Set(obj: seq<byte>) returns (outcome: Outcome)
      requires Valid() && |obj| == chan.tSize
      modifies this, chan, chan.mem
      ensures Valid()
      ensures (State(), outcome) == Publish(old(State()), obj)
      ensures outcome.Done? ==>
                chan.signalled
                && chan.log == old(chan.log) + SetEffects(chan.tSize, currIndex, obj)
                && chan.mem[..] == ApplyAll(old(chan.mem[..]), SetEffects(chan.tSize, currIndex, obj))
                && SameOutside(old(chan.mem[..]), chan.mem[..], SlotAddress(chan.tSize, currIndex),
                               SlotAddress(chan.tSize, currIndex) + chan.tSize)
      ensures outcome.Threw? ==>
                chan.mem[..] == old(chan.mem[..]) && chan.log == old(chan.log)
                && chan.signalled == old(chan.signalled)
    {
      if chan.queueSize == 0 {
        return Threw(DivideByZero);
      }
      ghost var m := chan.mem[..];
      ghost var c := currIndex;
      currIndex := AddU32(currIndex, 1) % chan.queueSize;
      chan.WriteHeader(currIndex);
      var address := SlotAddress(chan.tSize, currIndex);
      SlotFits(chan.tSize, chan.queueSize, currIndex);
      var ok := chan.WriteRecord(address, obj);
      assert ok;
      chan.Raise();
      outcome := Done;
      SetRefinesPublish(m, chan.tSize, chan.queueSize, c, obj);
      assert chan.mem[..] == ApplyAll(m, SetEffects(chan.tSize, currIndex, obj));
      SetTouchesOnlyHeaderAndSlot(m, chan.tSize, chan.queueSize, currIndex, obj);
    }
  }
}
