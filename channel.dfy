/** A channel: the named shared segment, seen through its view accessor, together with the
 *  named auto-reset wake event. Publisher and subscriber objects that open the same name
 *  share one `Channel` object, which is how the model expresses that they see the same
 *  memory. Every write the publisher performs is also recorded, in order, in a ghost log,
 *  so that the order of a `Set`'s effects can be stated and reasoned about.
 */
module SharedChannel {
  import opened Layout
  import opened ModArith

  /** Exceptions the modelled code can raise. */
  datatype Fault =
    | DivideByZero    // `% QueueSize` with a queue size of 0
    | OutOfRange      // an accessor read or write that reaches past the segment
    | CallbackRaised  // the user callback threw

  /** How a publisher call ended. */
  datatype Outcome = Done | Threw(fault: Fault)

  /** A publisher's write cursor together with what the segment holds. */
  datatype PubState = PubState(cursor: nat, ring: Ring)

  /** The cursor is a `uint` and, once there is at least one slot, names a slot. */
  predicate WellFormed(st: PubState)
  {
    st.cursor < U32 && |st.ring.slots| < U32
    && (|st.ring.slots| > 0 ==> st.cursor < |st.ring.slots|)
  }

  /** Slots holding each of the last `Q` of the first `K - 1` records at `i mod Q`, and zero
   *  records in the slots not reached yet, hold each of the last `Q` of `K` records once
   *  record `K` is written to slot `(K - 1) mod Q`: the write replaces the oldest record. */
  lemma WindowAfterWrite(slots: seq<seq<byte>>, tSize: nat, values: seq<seq<byte>>)
    requires |slots| > 0 && |values| > 0
    requires forall i :: 0 <= i < |values| - 1 && |values| - 1 - |slots| <= i ==>
               slots[i % |slots|] == values[i]
    requires forall j :: |values| - 1 <= j < |slots| ==> slots[j] == Zeroes(tSize)
    ensures var k, q := |values|, |slots|;
            var after := slots[(k - 1) % q := values[k - 1]];
            (forall i :: 0 <= i < k && k - q <= i ==> after[i % q] == values[i])
            && (forall j :: k <= j < q ==> after[j] == Zeroes(tSize))
  {
    var k, q := |values|, |slots|;
    var c := (k - 1) % q;
    var after := slots[c := values[k - 1]];
    forall i | 0 <= i < k && k - q <= i
      ensures after[i % q] == values[i]
    {
      if i < k - 1 {
        ModDistinct(i, k - 1 - i, q);
      }
    }
    forall j | k <= j < q
      ensures after[j] == Zeroes(tSize)
    {
      ModSmall(k - 1, q);
    }
  }

  /** One externally visible effect of a publisher on the channel. */
  datatype Effect =
    | HeaderWritten(value: nat)
    | RecordWritten(address: nat, rec: seq<byte>)
    | SignalRaised

  /** The segment image after effect `e`; an effect that does not fit changes nothing. */
  function Apply(m: seq<byte>, e: Effect): (m': seq<byte>)
    ensures |m'| == |m|
  {
    match e
    case HeaderWritten(v) => if |m| >= HeaderSize && v < U32 then WithHeader(m, v) else m
    case RecordWritten(a, rec) => if a + |rec| <= |m| then WithBytes(m, a, rec) else m
    case SignalRaised => m
  }

  /** The segment image after the effects `es`, applied first to last. */
  function ApplyAll(m: seq<byte>, es: seq<Effect>): (m': seq<byte>)
    ensures |m'| == |m|
    decreases |es|
  {
    if es == [] then m else ApplyAll(Apply(m, es[0]), es[1..])
  }

  /** Three effects applied in order. */
  lemma ApplyThree(m: seq<byte>, e0: Effect, e1: Effect, e2: Effect)
    ensures ApplyAll(m, [e0, e1, e2]) == Apply(Apply(Apply(m, e0), e1), e2)
  {
    var m1, m2 := Apply(m, e0), Apply(Apply(m, e0), e1);
    assert [e0, e1, e2][1..] == [e1, e2];
    assert [e1, e2][1..] == [e2];
    assert [e2][1..] == [];
    calc {
      ApplyAll(m, [e0, e1, e2]);
      ApplyAll(m1, [e1, e2]);
      ApplyAll(m2, [e2]);
      ApplyAll(Apply(m2, e2), []);
    }
  }

  class Channel {
    const tSize: nat
    const queueSize: nat
    /** The bytes of the mapped segment. */
    const mem: array<byte>
    /** Whether the auto-reset wake event is currently set. */
    var signalled: bool
    /** The publisher effects performed so far, oldest first. */
    ghost var log: seq<Effect>

    ghost predicate Valid()
      reads this
    {
      tSize > 0 && queueSize < U32 && mem.Length == SegmentLength(tSize, queueSize)
    }

    /** The header and slots as currently stored. */
    ghost function View(): (r: Ring)
      reads this, mem
      requires Valid()
    {
      RingOf(mem[..], tSize, queueSize)
    }

    /** `MemoryMappedFile.CreateOrOpen`, `CreateViewAccessor` and the `EventWaitHandle`
     *  constructor. A named mapping that already exists keeps its bytes (`existing`), and
     *  an existing named event keeps its state (`eventSet`). */
    constructor CreateOrOpen(tSize: nat, queueSize: nat, existing: seq<byte>, eventSet: bool)
      requires tSize > 0 && queueSize < U32
      requires |existing| == SegmentLength(tSize, queueSize)
      ensures Valid() && fresh(mem)
      ensures this.tSize == tSize && this.queueSize == queueSize
      ensures mem[..] == existing && signalled == eventSet && log == []
    {
      this.tSize := tSize;
      this.queueSize := queueSize;
      mem := new byte[|existing|](i requires 0 <= i < |existing| => existing[i]);
      signalled := eventSet;
      log := [];
    }

    /** The zero-fill loop both publishers run in `Create`: `accessor.Write(i, (byte)0)`
     *  for every byte of the segment. */
    method ZeroFill()
      requires Valid()
      modifies mem
      ensures forall k :: 0 <= k < mem.Length ==> mem[k] == 0
      ensures View() == ZeroRing(tSize, queueSize)
    {
      var i := 0;
      while i < mem.Length
        invariant 0 <= i <= mem.Length
        invariant forall k :: 0 <= k < i ==> mem[k] == 0
      {
        mem[i] := 0;
        i := i + 1;
      }
      ZeroSegmentRing(mem[..], tSize, queueSize);
    }

    /** `accessor.Write(0, value)`: stores a `uint` in the header. */
    method WriteHeader(v: nat)
      requires Valid() && v < U32
      modifies this, mem
      ensures Valid() && signalled == old(signalled)
      ensures mem[..] == Apply(old(mem[..]), HeaderWritten(v))
      ensures log == old(log) + [HeaderWritten(v)]
    {
      var b := EncodeU32(v);
      mem[0], mem[1], mem[2], mem[3] := b[0], b[1], b[2], b[3];
      assert mem[..] == WithHeader(old(mem[..]), v);
      log := log + [HeaderWritten(v)];
    }

    /** `accessor.Write<T>(address, ref obj)`: copies a record's bytes to `address`; a
     *  write that does not fit throws and changes nothing. */
    method WriteRecord(address: nat, rec: seq<byte>) returns (ok: bool)
      requires Valid()
      modifies this, mem
      ensures Valid() && signalled == old(signalled)
      ensures ok <==> address + |rec| <= mem.Length
      ensures mem[..] == Apply(old(mem[..]), RecordWritten(address, rec))
      ensures log == if ok then old(log) + [RecordWritten(address, rec)] else old(log)
    {
      ok := address + |rec| <= mem.Length;
      if ok {
        forall k | address <= k < address + |rec| {
          mem[k] := rec[k - address];
        }
        assert mem[..] == WithBytes(old(mem[..]), address, rec);
        log := log + [RecordWritten(address, rec)];
      }
    }

    /** `accessor.ReadUInt32(0)`. */
    method ReadHeader() returns (v: nat)
      requires Valid()
      ensures v == View().header
    {
      v := DecodeU32(mem[..HeaderSize]);
    }

    /** `accessor.Read<T>(address, out obj)`: `ok` is false when the record would reach
     *  past the segment (the accessor throws). */
    method ReadRecord(address: nat) returns (ok: bool, rec: seq<byte>)
      requires Valid()
      ensures ok <==> address + tSize <= mem.Length
      ensures ok ==> rec == mem[address..address + tSize]
    {
      ok := address + tSize <= mem.Length;
      if ok {
        rec := mem[address..address + tSize];
      } else {
        rec := [];
      }
    }

    /** `EventWaitHandle.Set`. */
    method Raise()
      modifies this
      ensures signalled && log == old(log) + [SignalRaised]
    {
      signalled := true;
      log := log + [SignalRaised];
    }

    /** `EventWaitHandle.Reset`. */
    method Reset()
      modifies this
      ensures !signalled && log == old(log)
    {
      signalled := false;
    }
  }
}
