/** The publisher and subscriber of `Program.cs` working together.
 *
 *  Here the header names the slot the publisher writes NEXT, so a subscriber's starting
 *  cursor is the slot of the next record to come. A subscriber that takes its first wake-up
 *  from a `Set` made after it started therefore delivers exactly the records published
 *  from then on. But every `Set` that finds no waiting subscriber leaves the auto-reset
 *  event set, and the subscriber opens the event without resetting it; so a subscriber
 *  started after some publishes is woken at once, reads the slot about to be overwritten,
 *  and from then on trails the publisher by `Q - 1` records.
 */
module ProgramPairing {
  import opened Layout
  import opened SharedChannel
  import opened ModArith
  import opened Dispatch
  import opened ProgramPublisher
  import opened ProgramSubscriber

  /** Publishes `values` one by one; after each `Set` the subscriber takes one wake-up. */
  function Lockstep(p: PubState, s: SubState, values: seq<seq<byte>>): (r: (PubState, SubState))
    decreases |values|
  {
    if values == [] then (p, s)
    else
      var before := Lockstep(p, s, values[..|values| - 1]);
      var p' := Publish(before.0, values[|values| - 1]).0;
      (p', Run(before.1, p'.ring, [Event]))
  }

  /** The loop taking a single wake-up is one pass of its body. */
  lemma OneWake(s: SubState, ring: Ring)
    requires s.status == Running
    ensures Run(s, ring, [Event]) == Pass(s, ring, Event)
  {
    assert [Event][1..] == [];
  }

  /** When the subscriber's cursor equals the publisher's (the slot written next), lockstep
   *  delivers exactly the published records, and the two cursors stay equal. */
  lemma {:induction false} LockstepInStep(p: PubState, s: SubState, values: seq<seq<byte>>)
    requires WellFormed(p) && |p.ring.slots| > 0
    requires s.status == Running && s.cursor == p.cursor
    ensures var r := Lockstep(p, s, values);
            WellFormed(r.0) && |r.0.ring.slots| == |p.ring.slots|
            && r.1.status == Running && r.1.cursor == r.0.cursor
            && r.1.delivered == s.delivered + values
    decreases |values|
  {
    if values != [] {
      var k := |values|;
      var init, v := values[..k - 1], values[k - 1];
      assert values == init + [v];
      LockstepInStep(p, s, init);
      var before := Lockstep(p, s, init);
      InStepStep(before.0, before.1, v);
      var p' := Publish(before.0, v).0;
      var s' := Run(before.1, p'.ring, [Event]);
      assert Lockstep(p, s, values) == (p', s');
    }
  }
  /** One `Set` and one wake-up with equal cursors: the subscriber delivers exactly the
   *  record just written, and the cursors stay equal. */
  lemma InStepStep(p: PubState, s: SubState, v: seq<byte>)
    requires WellFormed(p) && |p.ring.slots| > 0
    requires s.status == Running && s.cursor == p.cursor
    ensures var p' := Publish(p, v).0;
            var s' := Run(s, p'.ring, [Event]);
            WellFormed(p') && |p'.ring.slots| == |p.ring.slots|
            && s'.status == Running && s'.cursor == p'.cursor
            && s'.delivered == s.delivered + [v]
  {
    var p' := Publish(p, v).0;
    OneWake(s, p'.ring);
  }


  /** A subscriber created right after the publisher's `Create` receives every published
   *  record, in order, for any number of publishes. */
  lemma FreshSubscriberDeliversAll(tSize: nat, queueSize: nat, values: seq<seq<byte>>)
    requires 0 < queueSize < U32
    ensures var p := Created(tSize, queueSize);
            var r := Lockstep(p, Start(p.ring), values);
            r.1.delivered == values && r.1.status == Running
  {
    var p := Created(tSize, queueSize);
    LockstepInStep(p, Start(p.ring), values);
  }

  /** A subscriber created after `P` publishes starts at the header, `P mod Q`, which is the
   *  publisher's cursor. If no wake-up is pending when it starts (for `P >= 1`, another
   *  waiter has taken the event the last `Set` raised), its first delivery in lockstep is
   *  the `(P + 1)`-th record and it then delivers exactly the records published after it
   *  started. `LateSubscriberPendingWake` covers the pending case. */
  lemma LateSubscriberStartsAtNext(tSize: nat, queueSize: nat, earlier: seq<seq<byte>>, later: seq<seq<byte>>)
    requires 0 < queueSize < U32
    ensures var p := PublishAll(Created(tSize, queueSize), earlier);
            var r := Lockstep(p, Start(p.ring), later);
            Start(p.ring).cursor == |earlier| % queueSize
            && r.1.delivered == later
  {
    var p := PublishAll(Created(tSize, queueSize), earlier);
    HeaderAfterPublishes(tSize, queueSize, earlier);
    LockstepInStep(p, Start(p.ring), later);
  }

  /** Capacity 3, records A, B, C, D published, then a subscriber is created with no wake-up
   *  pending and E is published: the subscriber delivers E. */
  lemma NoReplayAfterFourPublishes()
    ensures var p := PublishAll(Created(1, 3), [[1], [2], [3], [4]]);
            var r := Lockstep(p, Start(p.ring), [[5]]);
            r.1.delivered == [[5]]
  {
    LateSubscriberStartsAtNext(1, 3, [[1], [2], [3], [4]], [[5]]);
  }

  /** One `Set` and one wake-up with the subscriber's cursor one past the publisher's: the
   *  subscriber delivers the first record of its backlog, the backlog loses that record and
   *  gains the one just written, and the cursor relation is kept. */
  lemma BehindStep(p: PubState, s: SubState, v: seq<byte>)
    requires WellFormed(p) && |p.ring.slots| >= 2
    requires s.status == Running && s.cursor == (p.cursor + 1) % |p.ring.slots|
    ensures var q := |p.ring.slots|;
            var b := SlotRun(p.ring.slots, s.cursor, q - 1);
            var p' := Publish(p, v).0;
            var s' := Run(s, p'.ring, [Event]);
            WellFormed(p') && |p'.ring.slots| == q
            && s'.status == Running && s'.cursor == (p'.cursor + 1) % q
            && s'.delivered == s.delivered + [b[0]]
            && SlotRun(p'.ring.slots, s'.cursor, q - 1) == b[1..] + [v]
  {
    var q := |p.ring.slots|;
    var c := p.cursor;
    var sc := (c + 1) % q;
    var p' := Publish(p, v).0;
    assert p'.cursor == sc && p'.ring.slots == p.ring.slots[c := v];
    ModDistinct(c, 1, q);
    ModSmall(c, q);
    assert sc != c;
    OneWake(s, p'.ring);
    var s' := Run(s, p'.ring, [Event]);
    assert s'.delivered == s.delivered + [p.ring.slots[sc]];
    assert s'.cursor == (sc + 1) % q;
    assert SlotRun(p.ring.slots, sc, q - 1)[0] == p.ring.slots[sc];
    BacklogAfterWrite(p.ring.slots, c, v);
  }

  /** One more lockstep round in sequence terms: if `d1` is what was delivered after
   *  `init` and `w1` the window still to read, then delivering the window's first record and
   *  appending `v` to the window leaves the same relation for `init + [v]`. */
  lemma WindowStep(d: seq<seq<byte>>, backlog: seq<seq<byte>>, init: seq<seq<byte>>, v: seq<byte>,
                   d1: seq<seq<byte>>, w1: seq<seq<byte>>)
    requires |backlog| >= 1
    requires d1 == d + (backlog + init)[..|init|] && w1 == (backlog + init)[|init|..]
    ensures |w1| >= 1
    ensures d1 + [w1[0]] == d + (backlog + (init + [v]))[..|init| + 1]
    ensures w1[1..] + [v] == (backlog + (init + [v]))[|init| + 1..]
  {
    var all := backlog + init;
    assert backlog + (init + [v]) == all + [v];
    assert (all + [v])[..|init| + 1] == all[..|init|] + [w1[0]];
  }

  /** The tail of a history from entry `k`, followed by later records and cut one past
   *  `|later|`, is entry `k` and then the window of the entries after it. */
  lemma HistoryWindow(h: seq<seq<byte>>, k: nat, later: seq<seq<byte>>)
    requires k < |h|
    ensures (h[k..] + later)[..|later| + 1] == [h[k]] + (h[k + 1..] + later)[..|later|]
    ensures k + 1 == |h| ==> (h[k..] + later)[..|later| + 1] == [h[k]] + later
  {
    assert h[k..] + later == [h[k]] + (h[k + 1..] + later);
    assert k + 1 == |h| ==> h[k + 1..] + later == later;
  }

  /** The lockstep relation while the subscriber trails the publisher: after `values`, the
   *  cursor relation still holds, the window of slots the subscriber reads next is what
   *  remains of `backlog + values`, and it has delivered the part before that window. */
  ghost predicate Behind(p: PubState, s: SubState, backlog: seq<seq<byte>>, values: seq<seq<byte>>,
                         r: (PubState, SubState))
  {
    var q := |p.ring.slots|;
    q >= 2 && |backlog| >= 1
    && WellFormed(r.0) && |r.0.ring.slots| == q
    && r.1.status == Running && r.1.cursor == (r.0.cursor + 1) % q
    && |values| <= |backlog + values|
    && SlotRun(r.0.ring.slots, r.1.cursor, q - 1) == (backlog + values)[|values|..]
    && r.1.delivered == s.delivered + (backlog + values)[..|values|]
  }

  /** One more `Set` and wake-up from a trailing pair keeps the trailing relation. */
  lemma BehindAfterStep(p: PubState, s: SubState, backlog: seq<seq<byte>>, init: seq<seq<byte>>, v: seq<byte>,
                        before: (PubState, SubState))
    requires Behind(p, s, backlog, init, before)
    ensures var p' := Publish(before.0, v).0;
            Behind(p, s, backlog, init + [v], (p', Run(before.1, p'.ring, [Event])))
  {
    var q := |p.ring.slots|;
    var w1 := SlotRun(before.0.ring.slots, before.1.cursor, q - 1);
    BehindStep(before.0, before.1, v);
    WindowStep(s.delivered, backlog, init, v, before.1.delivered, w1);
  }

  /** One more `Set` keeps the trailing relation. */
  lemma BehindInduct(p: PubState, s: SubState, backlog: seq<seq<byte>>, init: seq<seq<byte>>, v: seq<byte>)
    requires Behind(p, s, backlog, init, Lockstep(p, s, init))
    ensures Behind(p, s, backlog, init + [v], Lockstep(p, s, init + [v]))
  {
    var values := init + [v];
    assert values[..|values| - 1] == init && values[|values| - 1] == v;
    BehindAfterStep(p, s, backlog, init, v, Lockstep(p, s, init));
  }

  /** When the subscriber's cursor is one past the publisher's, at each `Set` it reads the
   *  slot after the one just written: it delivers, in order, the `Q - 1` records it had
   *  still to read (`backlog`, the slots from its cursor up to the publisher's) and then the
   *  published records, `Q - 1` late, keeping the cursor relation. */
  lemma {:induction false} LockstepBehind(p: PubState, s: SubState, values: seq<seq<byte>>)
    requires WellFormed(p) && |p.ring.slots| >= 2
    requires s.status == Running && s.cursor == (p.cursor + 1) % |p.ring.slots|
    ensures Behind(p, s, SlotRun(p.ring.slots, s.cursor, |p.ring.slots| - 1), values, Lockstep(p, s, values))
    decreases |values|
  {
    var q := |p.ring.slots|;
    var backlog := SlotRun(p.ring.slots, s.cursor, q - 1);
    if values == [] {
      assert (backlog + values)[0..] == backlog;
    } else {
      var k := |values|;
      var init, v := values[..k - 1], values[k - 1];
      assert values == init + [v];
      LockstepBehind(p, s, init);
      BehindInduct(p, s, backlog, init, v);
    }
  }

  /** The subscriber is running one slot ahead of the publisher, has delivered `first`,
   *  and has `backlog` (the `Q - 1` slots from its cursor on) still to read. */
  ghost predicate Trailing(p: PubState, s: SubState, first: seq<seq<byte>>, backlog: seq<seq<byte>>)
  {
    WellFormed(p) && |p.ring.slots| >= 2
    && s.status == Running && s.cursor == (p.cursor + 1) % |p.ring.slots|
    && s.delivered == first && SlotRun(p.ring.slots, s.cursor, |p.ring.slots| - 1) == backlog
  }

  /** From a trailing start, lockstep delivers `first` and then the first `|values|`
   *  records of `backlog + values`. */
  lemma TrailingDelivers(p: PubState, s: SubState, first: seq<seq<byte>>, backlog: seq<seq<byte>>,
                         values: seq<seq<byte>>)
    requires Trailing(p, s, first, backlog)
    ensures Lockstep(p, s, values).1.delivered == first + (backlog + values)[..|values|]
  {
    LockstepBehind(p, s, values);
  }

  /** The slots a subscriber woken at once reads next are the history entries that follow. */
  lemma BacklogIsHistory(tSize: nat, queueSize: nat, earlier: seq<seq<byte>>)
    requires 2 <= queueSize < U32
    ensures var p := PublishAll(Created(tSize, queueSize), earlier);
            var k := |earlier|;
            |p.ring.slots| == queueSize
            && SlotRun(p.ring.slots, (k + 1) % queueSize, queueSize - 1)
               == ZeroPrefixed(tSize, queueSize, earlier)[k + 1..]
  {
    var p := PublishAll(Created(tSize, queueSize), earlier);
    var k := |earlier|;
    var h := ZeroPrefixed(tSize, queueSize, earlier);
    RetainsLatest(tSize, queueSize, earlier);
    forall j | k <= j < k + queueSize
      ensures p.ring.slots[j % queueSize] == h[j]
    {
      SlotsHoldHistory(tSize, queueSize, earlier, j);
    }
    RunIsHistory(p.ring.slots, h, k);
  }

  /** Slots that hold entries `k` to `k + Q - 1` of a history at `j mod Q`, read in order
   *  from slot `(k + 1) mod Q` for `Q - 1` slots, are the entries after entry `k`. */
  lemma RunIsHistory(slots: seq<seq<byte>>, h: seq<seq<byte>>, k: nat)
    requires |slots| >= 2 && |h| == k + |slots|
    requires forall j :: k <= j < k + |slots| ==> slots[j % |slots|] == h[j]
    ensures SlotRun(slots, (k + 1) % |slots|, |slots| - 1) == h[k + 1..]
  {
    var q := |slots|;
    var b := SlotRun(slots, (k + 1) % q, q - 1);
    forall i | 0 <= i < q - 1
      ensures b[i] == h[k + 1 + i]
    {
      SlotRunAt(slots, (k + 1) % q, q - 1, i);
      ModAddLeft(k + 1, i, q);
    }
  }

  /** The wake-up left pending by the earlier publishes: the subscriber delivers the slot
   *  at the header, which is entry `P` of the history, and moves one past the publisher. */
  lemma PendingWake(tSize: nat, queueSize: nat, earlier: seq<seq<byte>>)
    requires 0 < queueSize < U32
    ensures var p := PublishAll(Created(tSize, queueSize), earlier);
            var s := Run(Start(p.ring), p.ring, [Event]);
            WellFormed(p) && |p.ring.slots| == queueSize
            && s.status == Running && s.cursor == (p.cursor + 1) % queueSize
            && s.cursor == (|earlier| + 1) % queueSize
            && s.delivered == [ZeroPrefixed(tSize, queueSize, earlier)[|earlier|]]
  {
    var p := PublishAll(Created(tSize, queueSize), earlier);
    var k := |earlier|;
    HeaderAfterPublishes(tSize, queueSize, earlier);
    OneWake(Start(p.ring), p.ring);
    ModSucc(k, queueSize);
    SlotsHoldHistory(tSize, queueSize, earlier, k);
  }

  /** A running subscriber at `(k + 1) mod Q`, with the publisher at `k mod Q`, having
   *  delivered entry `k` of `h` and with entries `k + 1 ..` still to read, is trailing. */
  lemma TrailingFrom(p: PubState, s: SubState, q: nat, k: nat, h: seq<seq<byte>>)
    requires k < |h| && 2 <= q
    requires WellFormed(p) && |p.ring.slots| == q
    requires p.cursor == k % q
    requires s.status == Running && s.cursor == (k + 1) % q
    requires s.delivered == [h[k]]
    requires SlotRun(p.ring.slots, (k + 1) % q, q - 1) == h[k + 1..]
    ensures Trailing(p, s, [h[k]], h[k + 1..])
  {
    ModSucc(k, q);
  }

  /** After the pending wake-up, with two or more slots, the `Q - 1` slots the subscriber
   *  reads next are the history entries after entry `P`, and it has delivered entry `P`. */
  lemma PendingWakeBacklog(tSize: nat, queueSize: nat, earlier: seq<seq<byte>>)
    requires 2 <= queueSize < U32
    ensures var p := PublishAll(Created(tSize, queueSize), earlier);
            var h := ZeroPrefixed(tSize, queueSize, earlier);
            Trailing(p, Run(Start(p.ring), p.ring, [Event]), [h[|earlier|]], h[|earlier| + 1..])
  {
    var p := PublishAll(Created(tSize, queueSize), earlier);
    var s := Run(Start(p.ring), p.ring, [Event]);
    HeaderAfterPublishes(tSize, queueSize, earlier);
    PendingWake(tSize, queueSize, earlier);
    BacklogIsHistory(tSize, queueSize, earlier);
    TrailingFrom(p, s, queueSize, |earlier|, ZeroPrefixed(tSize, queueSize, earlier));
  }

  /** After the pending wake-up, with two or more slots, the subscriber trails the
   *  publisher by `Q - 1` records, starting from the history entries after entry `P`. */
  lemma {:induction false} PendingWakeThenBehind(tSize: nat, queueSize: nat, earlier: seq<seq<byte>>, later: seq<seq<byte>>)
    requires 2 <= queueSize < U32
    ensures var p := PublishAll(Created(tSize, queueSize), earlier);
            var k := |earlier|;
            var h := ZeroPrefixed(tSize, queueSize, earlier);
            var r := Lockstep(p, Run(Start(p.ring), p.ring, [Event]), later);
            r.1.delivered == [h[k]] + (h[k + 1..] + later)[..|later|]
  {
    var p := PublishAll(Created(tSize, queueSize), earlier);
    var k, q := |earlier|, queueSize;
    var h := ZeroPrefixed(tSize, q, earlier);
    var s1 := Run(Start(p.ring), p.ring, [Event]);
    PendingWakeBacklog(tSize, q, earlier);
    TrailingDelivers(p, s1, [h[k]], h[k + 1..], later);
  }

  /** After the pending wake-up, with a single slot, the subscriber is in step with the
   *  publisher and delivers exactly the later records. */
  lemma PendingWakeSingleSlot(tSize: nat, earlier: seq<seq<byte>>, later: seq<seq<byte>>)
    ensures var p := PublishAll(Created(tSize, 1), earlier);
            var h := ZeroPrefixed(tSize, 1, earlier);
            var r := Lockstep(p, Run(Start(p.ring), p.ring, [Event]), later);
            r.1.delivered == [h[|earlier|]] + later
  {
    var p := PublishAll(Created(tSize, 1), earlier);
    var s1 := Run(Start(p.ring), p.ring, [Event]);
    PendingWake(tSize, 1, earlier);
    ModUnique(p.cursor + 1, 1, p.cursor + 1, 0);
    LockstepInStep(p, s1, later);
  }

  /** A subscriber created after records have been published, while the event the last
   *  `Set` raised is still set, takes that wake-up at once: it reads the slot the publisher
   *  writes next. In lockstep afterwards it delivers, in order, the history of the slots
   *  (`Q` zero records, then every record) from entry `P` on: each delivery is the record
   *  published `Q - 1` places before the latest one, or a zero record while there is none. */
  lemma {:induction false} LateSubscriberPendingWake(tSize: nat, queueSize: nat, earlier: seq<seq<byte>>, later: seq<seq<byte>>)
    requires 0 < queueSize < U32
    ensures var p := PublishAll(Created(tSize, queueSize), earlier);
            var r := Lockstep(p, Run(Start(p.ring), p.ring, [Event]), later);
            r.1.delivered
            == (ZeroPrefixed(tSize, queueSize, earlier)[|earlier|..] + later)[..|later| + 1]
  {
    var k, q := |earlier|, queueSize;
    var h := ZeroPrefixed(tSize, queueSize, earlier);
    HistoryWindow(h, k, later);
    if q == 1 {
      PendingWakeSingleSlot(tSize, earlier, later);
    } else {
      PendingWakeThenBehind(tSize, q, earlier, later);
    }
  }

  /** Capacity 3, records A, B, C, D published, then a subscriber is created while their
   *  event is still set, and E is published: the subscriber delivers B at once and C after
   *  E's `Set`, each two publishes older than the latest. */
  lemma PendingWakeAfterFourPublishes()
    ensures var p := PublishAll(Created(1, 3), [[1], [2], [3], [4]]);
            var r := Lockstep(p, Run(Start(p.ring), p.ring, [Event]), [[5]]);
            r.1.delivered == [[2], [3]]
  {
    var earlier: seq<seq<byte>> := [[1], [2], [3], [4]];
    LateSubscriberPendingWake(1, 3, earlier, [[5]]);
    var h := ZeroPrefixed(1, 3, earlier);
    assert h[4] == [2] && h[5] == [3];
  }
}
