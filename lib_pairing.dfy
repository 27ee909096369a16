/** The library publisher and subscriber working together.
 *
 *  The subscriber's loop is run in lockstep with the publisher: after each `Set` it takes
 *  exactly one event wake-up and reads the segment as that `Set` left it. Started right
 *  after the publisher's `Create`, it then delivers every published record in order.
 *  Started after records have been published, it starts from the header, which names the
 *  slot written LAST. Every `Set` that finds no waiting subscriber leaves the auto-reset
 *  event set, and the subscriber opens the event without resetting it, so such a
 *  subscriber is normally woken at once: it delivers the last record already published
 *  and is then in step. Only if that wake-up is not pending does its first delivery come
 *  one `Set` late.
 */
module LibPairing {
  import opened Layout
  import opened SharedChannel
  import opened ModArith
  import opened Dispatch
  import opened LibPublisher
  import opened LibSubscriber

  /** Publishes `values` one by one; after each `Set` the subscriber takes one wake-up. */
  function Lockstep(p: PubState, s: SubState, values: seq<seq<byte>>): (r: (PubState, SubState))
    decreases |values|
  {
    if values == [] then (p, s)
    else
      var before := Lockstep(p, s, values[..|values| - 1]);
      var p' := Publish(before.0, values[|values| - 1]).0;
      (p', Run(before.1, p'.ring, [Event]))
  }

  /** The loop taking a single wake-up is one pass of its body. */
  lemma OneWake(s: SubState, ring: Ring)
    requires s.status == Running
    ensures Run(s, ring, [Event]) == Pass(s, ring, Event)
  {
    assert [Event][1..] == [];
  }

  /** When the subscriber's cursor names the slot the publisher will write next, lockstep
   *  delivers exactly the published records, and that relation is kept. */
  lemma {:induction false} LockstepInStep(p: PubState, s: SubState, values: seq<seq<byte>>)
    requires WellFormed(p) && |p.ring.slots| > 0
    requires s.status == Running && s.cursor == (p.cursor + 1) % |p.ring.slots|
    ensures var r := Lockstep(p, s, values);
            WellFormed(r.0) && |r.0.ring.slots| == |p.ring.slots|
            && r.1.status == Running && r.1.cursor == (r.0.cursor + 1) % |p.ring.slots|
            && r.1.delivered == s.delivered + values
    decreases |values|
  {
    if values != [] {
      var k, q := |values|, |p.ring.slots|;
      var init, v := values[..k - 1], values[k - 1];
      assert values == init + [v];
      LockstepInStep(p, s, init);
      InStepInduct(p, s, init, v);
    }
  }
  /** The lockstep relation while the subscriber is in step: after `values`, its cursor is
   *  still one past the publisher's and it has delivered exactly `values`. */
  ghost predicate InStep(p: PubState, s: SubState, values: seq<seq<byte>>, r: (PubState, SubState))
  {
    var q := |p.ring.slots|;
    q > 0 && WellFormed(r.0) && |r.0.ring.slots| == q
    && r.1.status == Running && r.1.cursor == (r.0.cursor + 1) % q
    && r.1.delivered == s.delivered + values
  }

  /** One more `Set` keeps the subscriber in step. */
  lemma InStepInduct(p: PubState, s: SubState, init: seq<seq<byte>>, v: seq<byte>)
    requires InStep(p, s, init, Lockstep(p, s, init))
    ensures InStep(p, s, init + [v], Lockstep(p, s, init + [v]))
  {
    var values := init + [v];
    assert values[..|values| - 1] == init && values[|values| - 1] == v;
    var before := Lockstep(p, s, init);
    InStepStep(before.0, before.1, v);
    var p' := Publish(before.0, v).0;
    var s' := Run(before.1, p'.ring, [Event]);
    assert Lockstep(p, s, values) == (p', s');
  }

  /** One `Set` and one wake-up with the subscriber's cursor one past the publisher's: the
   *  subscriber delivers exactly the record just written, and the relation is kept. */
  lemma InStepStep(p: PubState, s: SubState, v: seq<byte>)
    requires WellFormed(p) && |p.ring.slots| > 0
    requires s.status == Running && s.cursor == (p.cursor + 1) % |p.ring.slots|
    ensures var p' := Publish(p, v).0;
            var s' := Run(s, p'.ring, [Event]);
            WellFormed(p') && |p'.ring.slots| == |p.ring.slots|
            && s'.status == Running && s'.cursor == (p'.cursor + 1) % |p.ring.slots|
            && s'.delivered == s.delivered + [v]
  {
    var p' := Publish(p, v).0;
    OneWake(s, p'.ring);
  }


  /** A subscriber created right after the publisher's `Create` (header 0, cursor 0) and
   *  stepping once per `Set` receives every published record, in order, for any number of
   *  publishes. */
  lemma FreshSubscriberDeliversAll(tSize: nat, queueSize: nat, values: seq<seq<byte>>)
    requires 0 < queueSize < U32
    ensures var p := Created(tSize, queueSize);
            var r := Lockstep(p, Start(p.ring), values);
            r.1.delivered == values && r.1.status == Running
  {
    var p := Created(tSize, queueSize);
    ModUnique(queueSize, queueSize, 1, 0);
    LockstepInStep(p, Start(p.ring), values);
  }

  /** When the subscriber's cursor equals the publisher's (the slot written last, holding
   *  `pending`) and there are at least two slots, lockstep delivers `pending` first and then
   *  each record one `Set` late. */
  lemma {:induction false} LockstepLagging(p: PubState, s: SubState, pending: seq<byte>, values: seq<seq<byte>>)
    requires WellFormed(p) && |p.ring.slots| >= 2
    requires s.status == Running && s.cursor == p.cursor && p.ring.slots[p.cursor] == pending
    ensures var r := Lockstep(p, s, values);
            WellFormed(r.0) && |r.0.ring.slots| == |p.ring.slots|
            && r.1.status == Running && r.1.cursor == r.0.cursor
            && r.0.ring.slots[r.0.cursor] == ([pending] + values)[|values|]
            && r.1.delivered == s.delivered + ([pending] + values)[..|values|]
    decreases |values|
  {
    if values != [] {
      var k := |values|;
      var init, v := values[..k - 1], values[k - 1];
      assert values == init + [v];
      LockstepLagging(p, s, pending, init);
      var before := Lockstep(p, s, init);
      LaggingStep(before.0, before.1, v);
      LaggingWindow(pending, init, v);
      var p' := Publish(before.0, v).0;
      var s' := Run(before.1, p'.ring, [Event]);
      assert Lockstep(p, s, values) == (p', s');
    }
  }

  /** One `Set` and one wake-up with equal cursors: the subscriber delivers the record the
   *  publisher's cursor named before the `Set`, and the cursors stay equal, now naming the
   *  slot just written. */
  lemma LaggingStep(p: PubState, s: SubState, v: seq<byte>)
    requires WellFormed(p) && |p.ring.slots| >= 2
    requires s.status == Running && s.cursor == p.cursor
    ensures var p' := Publish(p, v).0;
            var s' := Run(s, p'.ring, [Event]);
            WellFormed(p') && |p'.ring.slots| == |p.ring.slots|
            && s'.status == Running && s'.cursor == p'.cursor
            && p'.ring.slots[p'.cursor] == v
            && s'.delivered == s.delivered + [p.ring.slots[p.cursor]]
  {
    var p' := Publish(p, v).0;
    OneWake(s, p'.ring);
    ModDistinct(p.cursor, 1, |p.ring.slots|);
    ModSmall(p.cursor, |p.ring.slots|);
  }

  /** The records delivered one `Set` late, extended by one more `Set`. */
  lemma LaggingWindow(pending: seq<byte>, init: seq<seq<byte>>, v: seq<byte>)
    ensures var k := |init| + 1;
            var all := [pending] + (init + [v]);
            all[k] == v
            && all[..k] == ([pending] + init)[..k - 1] + [([pending] + init)[k - 1]]
  {
    assert [pending] + (init + [v]) == ([pending] + init) + [v];
  }


  /** A subscriber created after `P >= 1` publishes starts at the header, `(P - 1) mod Q`.
   *  If no wake-up is pending when it starts (another waiter has taken the event the last
   *  `Set` raised), then with two or more slots its first delivery, at the next `Set`, is
   *  the `P`-th record again, and afterwards it stays one record behind; with a single slot
   *  the next `Set` overwrites that slot first, so it delivers exactly the new records.
   *  `LateSubscriberPendingWake` covers the pending case. */
  lemma LateSubscriber(tSize: nat, queueSize: nat, earlier: seq<seq<byte>>, later: seq<seq<byte>>)
    requires 0 < queueSize < U32 && |earlier| >= 1
    ensures var p := PublishAll(Created(tSize, queueSize), earlier);
            var r := Lockstep(p, Start(p.ring), later);
            r.1.delivered == if queueSize == 1 then later
                             else ([earlier[|earlier| - 1]] + later)[..|later|]
  {
    var p := PublishAll(Created(tSize, queueSize), earlier);
    HeaderAfterPublishes(tSize, queueSize, earlier);
    if queueSize == 1 {
      LockstepInStep(p, Start(p.ring), later);
    } else {
      LockstepLagging(p, Start(p.ring), earlier[|earlier| - 1], later);
    }
  }

  /** Capacity 3, records A, B, C, D published, then a subscriber is created with no wake-up
   *  pending and E is published: the subscriber delivers D, not E. */
  lemma ReplayAfterFourPublishes()
    ensures var p := PublishAll(Created(1, 3), [[1], [2], [3], [4]]);
            var r := Lockstep(p, Start(p.ring), [[5]]);
            r.1.delivered == [[4]]
  {
    LateSubscriber(1, 3, [[1], [2], [3], [4]], [[5]]);
  }

  /** A subscriber created after `P >= 1` publishes while the event the last `Set` raised is
   *  still set takes that wake-up at once and delivers the `P`-th record, the one in the
   *  slot the header names; it is then one slot ahead of the publisher's cursor, so in
   *  lockstep it delivers exactly the records published afterwards. */
  lemma LateSubscriberPendingWake(tSize: nat, queueSize: nat, earlier: seq<seq<byte>>, later: seq<seq<byte>>)
    requires 0 < queueSize < U32 && |earlier| >= 1
    ensures var p := PublishAll(Created(tSize, queueSize), earlier);
            var r := Lockstep(p, Run(Start(p.ring), p.ring, [Event]), later);
            r.1.delivered == [earlier[|earlier| - 1]] + later
  {
    var p := PublishAll(Created(tSize, queueSize), earlier);
    HeaderAfterPublishes(tSize, queueSize, earlier);
    OneWake(Start(p.ring), p.ring);
    var s1 := Run(Start(p.ring), p.ring, [Event]);
    assert s1.cursor == (p.cursor + 1) % queueSize;
    LockstepInStep(p, s1, later);
  }

  /** Capacity 3, records A, B, C, D published, then a subscriber is created while their
   *  event is still set, and E is published: the subscriber delivers D at once and E after
   *  E's `Set`. */
  lemma PendingWakeAfterFourPublishes()
    ensures var p := PublishAll(Created(1, 3), [[1], [2], [3], [4]]);
            var r := Lockstep(p, Run(Start(p.ring), p.ring, [Event]), [[5]]);
            r.1.delivered == [[4], [5]]
  {
    LateSubscriberPendingWake(1, 3, [[1], [2], [3], [4]], [[5]]);
  }
}
