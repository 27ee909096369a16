/** Binary layout of a channel's shared segment.
 *
 *  The segment is `TSize * QueueSize + HeaderSize` bytes long. Bytes [0, 4) hold the
 *  header, an unsigned 32-bit little-endian cursor; slot `i` occupies the `TSize` bytes
 *  starting at `HeaderSize + TSize * i`. A record is the fixed-size byte image of the
 *  published struct, so it is modelled as a `seq<byte>` of length `TSize`.
 */
module Layout {
  import opened ModArith

  newtype byte = x: int | 0 <= x < 256

  /** Size of the header word that precedes the slots. */
  const HeaderSize: nat := 4

  /** Modulus of the C# `uint` type used for queue sizes and cursors. */
  const U32: nat := 0x1_0000_0000

  /** `uint` addition: wraps around modulo 2^32 (the source uses unchecked arithmetic). */
  function AddU32(a: nat, b: nat): (r: nat)
    ensures r < U32
    ensures a + b < U32 ==> r == a + b
  {
    (a + b) % U32
  }

  /** `uint` subtraction: wraps around modulo 2^32, so `0 - 1` is `U32 - 1`. */
  function SubU32(a: nat, b: nat): (r: nat)
    ensures r < U32
    ensures b <= a < U32 ==> r == a - b
    ensures a < b && b - a <= U32 ==> r == U32 - (b - a)
  {
    (a - b) % U32
  }

  /** Number of bytes requested for a segment of `queueSize` slots of `tSize` bytes. */
  /** Number of bytes requested for a segment of `queueSize` slots of `tSize` bytes: at
   *  least the header. */
  function SegmentLength(tSize: nat, queueSize: nat): (n: nat)
    ensures n >= HeaderSize
  {
    tSize * queueSize + HeaderSize
  }

  /** Byte offset of slot `index`: slots start after the header. */
  function SlotAddress(tSize: nat, index: nat): (a: nat)
    ensures a >= HeaderSize
  {
    HeaderSize + tSize * index
  }

  /** The segment ends exactly where the last slot ends: nothing follows the slots. */
  lemma SegmentEndsAtLastSlot(tSize: nat, queueSize: nat)
    requires queueSize > 0
    ensures SegmentLength(tSize, queueSize) == SlotAddress(tSize, queueSize - 1) + tSize
  {
    assert tSize * queueSize == tSize * (queueSize - 1) + tSize;
  }

  /** For records of at least one byte, a slot's address is a whole number of slots past
   *  the header, and that number is the slot's index. */
  lemma SlotIndexOfAddress(tSize: nat, index: nat)
    requires tSize > 0
    ensures var a := SlotAddress(tSize, index);
            (a - HeaderSize) % tSize == 0 && (a - HeaderSize) / tSize == index
  {
    ModUnique(tSize * index, tSize, index, 0);
  }

  lemma {:induction false} MulMonotone(t: nat, a: nat, b: nat)
    requires a <= b
    ensures t * a <= t * b
  {
    if a < b {
      MulMonotone(t, a, b - 1);
      assert t * b == t * (b - 1) + t;
    }
  }

  /** A slot with index below the queue size lies entirely inside the segment. */
  lemma SlotFits(tSize: nat, queueSize: nat, index: nat)
    requires index < queueSize
    ensures SlotAddress(tSize, index) + tSize <= SegmentLength(tSize, queueSize)
  {
    MulMonotone(tSize, index + 1, queueSize);
    assert tSize * (index + 1) == tSize * index + tSize;
  }

  /** For records of at least one byte, the slot at `index` fits exactly when `index` is
   *  below the queue size: every larger index reaches past the end of the segment. */
  lemma SlotFitsIff(tSize: nat, queueSize: nat, index: nat)
    requires tSize > 0
    ensures SlotAddress(tSize, index) + tSize <= SegmentLength(tSize, queueSize) <==> index < queueSize
  {
    if index < queueSize {
      SlotFits(tSize, queueSize, index);
    } else {
      MulMonotone(tSize, queueSize, index);
      assert SlotAddress(tSize, index) + tSize > SegmentLength(tSize, queueSize);
    }
  }

  /** Slots never overlap: slot `i` ends at or before the start of every later slot `j`. */
  lemma SlotsDisjoint(tSize: nat, i: nat, j: nat)
    requires i < j
    ensures SlotAddress(tSize, i) + tSize <= SlotAddress(tSize, j)
  {
    MulMonotone(tSize, i + 1, j);
    assert tSize * (i + 1) == tSize * i + tSize;
  }

  /** The header value as stored: little-endian, least significant byte first. */
  function EncodeU32(v: nat): (b: seq<byte>)
    requires v < U32
    ensures |b| == 4
    ensures DecodeU32(b) == v
  {
    var q1 := v / 256;
    var q2 := q1 / 256;
    var q3 := q2 / 256;
    assert v == v % 256 + 256 * q1;
    assert q1 == q1 % 256 + 256 * q2;
    assert q2 == q2 % 256 + 256 * q3;
    [(v % 256) as byte, (v / 256 % 256) as byte,
     (v / 256 / 256 % 256) as byte, (v / 256 / 256 / 256) as byte]
  }

  /** `ReadUInt32`: the value of four little-endian bytes. */
  function DecodeU32(b: seq<byte>): (v: nat)
    requires |b| == 4
    ensures v < U32
    ensures v % 256 == b[0] as nat && v / 0x100_0000 == b[3] as nat
  {
    b[0] as nat + 256 * (b[1] as nat + 256 * (b[2] as nat + 256 * b[3] as nat))
  }

  lemma EncodeDecode(b: seq<byte>)
    requires |b| == 4
    ensures EncodeU32(DecodeU32(b)) == b
  {
    var r2 := b[2] as nat + 256 * b[3] as nat;
    var r1 := b[1] as nat + 256 * r2;
    var v := b[0] as nat + 256 * r1;
    assert v % 256 == b[0] as nat && v / 256 == r1;
    assert r1 % 256 == b[1] as nat && r1 / 256 == r2;
    assert r2 % 256 == b[2] as nat && r2 / 256 == b[3] as nat;
  }

  /** `n` zero bytes. */
  function Zeroes(n: nat): (z: seq<byte>)
    ensures |z| == n
  {
    seq(n, _ => 0)
  }

  /** What the subscriber and the publisher see of the segment: the header value and the
   *  bytes of every slot. */
  datatype Ring = Ring(header: nat, slots: seq<seq<byte>>)

  /** The ring of a freshly zero-filled segment. */
  function ZeroRing(tSize: nat, queueSize: nat): Ring
  {
    Ring(0, seq(queueSize, _ => Zeroes(tSize)))
  }

  /** Every slot below the queue size lies inside the segment. */
  lemma AllSlotsFit(tSize: nat, queueSize: nat)
    ensures forall i :: 0 <= i < queueSize ==> SlotAddress(tSize, i) + tSize <= SegmentLength(tSize, queueSize)
  {
    forall i | 0 <= i < queueSize
      ensures SlotAddress(tSize, i) + tSize <= SegmentLength(tSize, queueSize)
    {
      SlotFits(tSize, queueSize, i);
    }
  }

  /** Bytes of slot `index` of the segment image `m`. */
  function SlotOf(m: seq<byte>, tSize: nat, index: nat): (s: seq<byte>)
    requires SlotAddress(tSize, index) + tSize <= |m|
    ensures |s| == tSize
  {
    m[SlotAddress(tSize, index)..SlotAddress(tSize, index) + tSize]
  }

  /** Decodes a segment image of the right length into its header and slots. */
  function RingOf(m: seq<byte>, tSize: nat, queueSize: nat): (r: Ring)
    requires |m| == SegmentLength(tSize, queueSize)
    ensures |r.slots| == queueSize && r.header < U32
    ensures forall i :: 0 <= i < queueSize ==> |r.slots[i]| == tSize
  {
    AllSlotsFit(tSize, queueSize);
    Ring(DecodeU32(m[..HeaderSize]),
         seq(queueSize, i requires 0 <= i < queueSize => SlotOf(m, tSize, i)))
  }

  /** A segment image of zero bytes reads as header 0 and all-zero slots. */
  lemma ZeroSegmentRing(m: seq<byte>, tSize: nat, queueSize: nat)
    requires |m| == SegmentLength(tSize, queueSize)
    requires forall k :: 0 <= k < |m| ==> m[k] == 0
    ensures RingOf(m, tSize, queueSize) == ZeroRing(tSize, queueSize)
  {
    var r := RingOf(m, tSize, queueSize);
    forall i | 0 <= i < queueSize
      ensures r.slots[i] == Zeroes(tSize)
    {
      SlotFits(tSize, queueSize, i);
    }
  }

  /** `accessor.Write(0, value)`: the image with the header bytes replaced. */
  function WithHeader(m: seq<byte>, v: nat): (m': seq<byte>)
    requires |m| >= HeaderSize && v < U32
    ensures |m'| == |m|
    ensures m'[..HeaderSize] == EncodeU32(v) && DecodeU32(m'[..HeaderSize]) == v
    ensures m'[HeaderSize..] == m[HeaderSize..]
  {
    EncodeU32(v) + m[HeaderSize..]
  }

  /** `accessor.Write<T>(address, ref obj)`: the image with `rec` copied in at `address`. */
  function WithBytes(m: seq<byte>, address: nat, rec: seq<byte>): (m': seq<byte>)
    requires address + |rec| <= |m|
    ensures |m'| == |m|
    ensures m'[address..address + |rec|] == rec
    ensures m'[..address] == m[..address] && m'[address + |rec|..] == m[address + |rec|..]
  {
    m[..address] + rec + m[address + |rec|..]
  }

  /** Every byte past the header outside `[lo, hi)` is the same in `m` and `m'`. */
  ghost predicate SameOutside(m: seq<byte>, m': seq<byte>, lo: nat, hi: nat)
  {
    |m'| == |m| && forall k :: HeaderSize <= k < |m| && !(lo <= k < hi) ==> m'[k] == m[k]
  }

  /** Writing the header changes the header value and no slot. */
  lemma HeaderWriteRing(m: seq<byte>, tSize: nat, queueSize: nat, v: nat)
    requires |m| == SegmentLength(tSize, queueSize) && v < U32
    ensures RingOf(WithHeader(m, v), tSize, queueSize)
         == Ring(v, RingOf(m, tSize, queueSize).slots)
  {
    var m' := WithHeader(m, v);
    var before, after := RingOf(m, tSize, queueSize), RingOf(m', tSize, queueSize);
    forall i | 0 <= i < queueSize
      ensures after.slots[i] == before.slots[i]
    {
      SlotFits(tSize, queueSize, i);
    }
  }

  /** Writing a record at slot `index`'s address changes exactly that slot: the header and
   *  every other slot keep their bytes. */
  lemma SlotWriteRing(m: seq<byte>, tSize: nat, queueSize: nat, index: nat, rec: seq<byte>)
    requires |m| == SegmentLength(tSize, queueSize)
    requires index < queueSize && |rec| == tSize
    ensures SlotAddress(tSize, index) + tSize <= |m|
    ensures RingOf(WithBytes(m, SlotAddress(tSize, index), rec), tSize, queueSize)
         == Ring(RingOf(m, tSize, queueSize).header,
                 RingOf(m, tSize, queueSize).slots[index := rec])
  {
    SlotFits(tSize, queueSize, index);
    var a := SlotAddress(tSize, index);
    var m' := WithBytes(m, a, rec);
    assert m'[..HeaderSize] == m[..HeaderSize];
    var before, after := RingOf(m, tSize, queueSize), RingOf(m', tSize, queueSize);
    forall i | 0 <= i < queueSize
      ensures after.slots[i] == before.slots[index := rec][i]
    {
      SlotFits(tSize, queueSize, i);
      var b := SlotAddress(tSize, i);
      if i < index {
        SlotsDisjoint(tSize, i, index);
        assert m'[b..b + tSize] == m[b..b + tSize];
      } else if i > index {
        SlotsDisjoint(tSize, index, i);
        assert m'[b..b + tSize] == m[b..b + tSize];
      } else {
        assert m'[b..b + tSize] == rec;
      }
    }
  }
}
