/** Everything delivered was framed, at its own number, in a datagram that arrived; and one call
    delivers a bounded number of messages. */
module GapAuthenticity {
  import opened Bytes
  import opened Wire
  import opened GapModel
  import opened GapDelivery

  // ----- Authenticity -----

  /** Event e is a datagram that carries delivery d at d's sequence number, received at d's time. */
  ghost predicate Framed(e: Event, d: Delivery) {
    && e.Datagram? && ParseHeader(e.payload).Some?
    && var h := ParseHeader(e.payload).value;
       var bodies := Frames(e.payload[MOLD_HEADER_SIZE..], h.msgCount);
       && 0 <= d.seqNum - h.seqNum < |bodies|
       && d.body == bodies[d.seqNum - h.seqNum]
       && d.recv == e.now
  }

  ghost predicate FramedIn(es: seq<Event>, d: Delivery) {
    exists i :: 0 <= i < |es| && Framed(es[i], d)
  }

  /** The slot is a copy, possibly cut short, of the datagram of event e. */
  ghost predicate Copies(e: Event, slot: Slot) {
    && slot.Held? && e.Datagram? && ParseHeader(e.payload).Some?
    && var h := ParseHeader(e.payload).value;
       && slot.seqNum == h.seqNum && slot.msgCount == h.msgCount && slot.recv == e.now
       && slot.data <= e.payload[MOLD_HEADER_SIZE..]
  }

  ghost predicate CopiedIn(es: seq<Event>, slot: Slot) {
    exists i :: 0 <= i < |es| && Copies(es[i], slot)
  }

  ghost predicate LogFrom(log: seq<Delivery>, es: seq<Event>) {
    forall k :: 0 <= k < |log| ==> FramedIn(es, log[k])
  }

  ghost predicate RingFrom(ring: Ring, es: seq<Event>) {
    forall i :: 0 <= i < CAPACITY && ring[i].Held? ==> CopiedIn(es, ring[i])
  }

  /** A message cut out of a copy is a message of the original. */
  lemma CopyIsFramed(e: Event, slot: Slot, d: Delivery)
    requires Copies(e, slot) && d.recv == slot.recv
    requires var bodies := Frames(slot.data, slot.msgCount);
             0 <= d.seqNum - slot.seqNum < |bodies| && d.body == bodies[d.seqNum - slot.seqNum]
    ensures Framed(e, d)
  {
    var whole := e.payload[MOLD_HEADER_SIZE..];
    assert slot.data == whole[..|slot.data|];
    FramesOfPrefix(whole, |slot.data|, slot.msgCount);
  }

  lemma SlotExtends(st: State, st': State, slot: Slot, es: seq<Event>)
    requires slot.Held? && CopiedIn(es, slot) && LogFrom(st.log, es)
    requires Extends(st, st', slot.seqNum, Frames(slot.data, slot.msgCount), slot.recv)
    ensures LogFrom(st'.log, es)
  {
    var i :| 0 <= i < |es| && Copies(es[i], slot);
    forall k | 0 <= k < |st'.log|
      ensures FramedIn(es, st'.log[k])
    {
      if k < |st.log| {
        assert st'.log[k] == st.log[k];
      } else {
        CopyIsFramed(es[i], slot, st'.log[k]);
      }
    }
  }

  lemma {:induction false} FlushAuthentic(st: State, es: seq<Event>)
    requires Ordered(st) && Keyed(st.ring) && LogFrom(st.log, es) && RingFrom(st.ring, es)
    ensures LogFrom(Flush(st).log, es) && RingFrom(Flush(st).ring, es)
    decreases Occupied(st.ring)
  {
    if Starts(st.ring, st.next) {
      var i := Index(st.next);
      var slot := st.ring[i];
      assert SlotOk(slot, i);
      DeliverExtends(st, slot.seqNum, slot.msgCount, slot.data, slot.recv);
      SlotExtends(st, Deliver(st, slot.seqNum, slot.msgCount, slot.data, slot.recv), slot, es);
      FlushOneKeeps(st);
      OccupiedAfterFree(st.ring, i);
      FlushAuthentic(FlushOne(st), es);
    }
  }

  lemma BufferAuthentic(st: State, h: MoldHeader, e: Event, es: seq<Event>)
    requires e.Datagram? && ParseHeader(e.payload) == Some(h) && RingFrom(st.ring, es)
    requires es != [] && es[|es| - 1] == e
    ensures RingFrom(BufferPacket(st, h, e.payload[MOLD_HEADER_SIZE..], e.now).ring, es)
  {
    var ring := BufferPacket(st, h, e.payload[MOLD_HEADER_SIZE..], e.now).ring;
    if ring != st.ring {
      assert Copies(es[|es| - 1], ring[Index(h.seqNum)]);
    }
  }

  lemma InOrderAuthentic(st: State, h: MoldHeader, e: Event, es: seq<Event>)
    requires Ordered(st) && Keyed(st.ring) && InSpace(h.seqNum, h.msgCount) && h.seqNum <= st.next
    requires e.Datagram? && ParseHeader(e.payload) == Some(h)
    requires es != [] && es[|es| - 1] == e && LogFrom(st.log, es) && RingFrom(st.ring, es)
    ensures var st' := Flush(Deliver(st, h.seqNum, h.msgCount, e.payload[MOLD_HEADER_SIZE..], e.now));
            LogFrom(st'.log, es) && RingFrom(st'.ring, es)
  {
    var data := e.payload[MOLD_HEADER_SIZE..];
    var direct := Deliver(st, h.seqNum, h.msgCount, data, e.now);
    DeliverExtends(st, h.seqNum, h.msgCount, data, e.now);
    var whole := Held(h.seqNum, h.msgCount, e.now, data);
    assert Copies(es[|es| - 1], whole);
    SlotExtends(st, direct, whole, es);
    FlushAuthentic(direct, es);
  }

  lemma HeaderAuthentic(cfg: Config, st: State, h: MoldHeader, e: Event, es: seq<Event>)
    requires Inv(st) && st.synced && InSpace(h.seqNum, h.msgCount)
    requires e.Datagram? && ParseHeader(e.payload) == Some(h) && h.msgCount > 0
    requires es != [] && es[|es| - 1] == e && LogFrom(st.log, es) && RingFrom(st.ring, es)
    ensures var st' := OnHeader(cfg, st, h, e.payload[MOLD_HEADER_SIZE..], e.now);
            LogFrom(st'.log, es) && RingFrom(st'.ring, es)
  {
    var counted := CountPacket(st, h);
    if h.seqNum > counted.next {
      BufferAuthentic(HandleGap(counted, h.seqNum, e.now), h, e, es);
    } else {
      InOrderAuthentic(counted, h, e, es);
    }
  }

  lemma MoreEvents(st: State, es: seq<Event>, e: Event)
    requires LogFrom(st.log, es) && RingFrom(st.ring, es)
    ensures LogFrom(st.log, es + [e]) && RingFrom(st.ring, es + [e])
  {
    forall d: Delivery | FramedIn(es, d)
      ensures FramedIn(es + [e], d)
    {
      var i :| 0 <= i < |es| && Framed(es[i], d);
      assert Framed((es + [e])[i], d);
    }
    forall s: Slot | CopiedIn(es, s)
      ensures CopiedIn(es + [e], s)
    {
      var i :| 0 <= i < |es| && Copies(es[i], s);
      assert Copies((es + [e])[i], s);
    }
  }

  /** Authenticity, through buffering: whatever was delivered is a message framed at that number in
      a datagram of the run, stamped with that datagram's arrival time. */
  lemma {:induction false} DeliveredIsAuthentic(cfg: Config, es: seq<Event>)
    requires AllFit(es)
    ensures LogFrom(Run(cfg, es).log, es)
    ensures RingFrom(Run(cfg, es).ring, es)
  {
    if es != [] {
      var n := |es| - 1;
      var e := es[n];
      var st := Run(cfg, es[..n]);
      DeliveredIsAuthentic(cfg, es[..n]);
      MoreEvents(st, es[..n], e);
      assert es[..n] + [e] == es;
      if e.Datagram? && ParseHeader(e.payload).Some? {
        var h := ParseHeader(e.payload).value;
        RunInv(cfg, es[..n]);
        SyncKeeps(st, h);
        if h.msgCount > 0 {
          HeaderAuthentic(cfg, Sync(st, h), h, e, es);
        }
      }
    }
  }

  // ----- How much one call delivers -----

  const MAX_FRAMES_PER_SLOT := 750

  ghost predicate SlotsFit(ring: Ring) {
    forall i :: 0 <= i < CAPACITY && ring[i].Held? ==> |ring[i].data| <= MAX_PACKET_BYTES
  }

  lemma {:induction false} AcceptedAtMost(bodies: seq<seq<byte>>, at: u64, next: u64, recv: u64)
    ensures |Accepted(bodies, at, next, recv)| <= |bodies|
  {
    if bodies != [] {
      AcceptedAtMost(bodies[1..], Wrap64(at + 1), next, recv);
    }
  }

  lemma {:induction false} FlushAtMost(st: State)
    requires SlotsFit(st.ring)
    ensures |Flush(st).log| - |st.log| <= MAX_FRAMES_PER_SLOT * Occupied(st.ring)
    ensures SlotsFit(Flush(st).ring)
    ensures |Flush(st).log| >= |st.log|
    decreases Occupied(st.ring)
  {
    if Starts(st.ring, st.next) {
      var slot := st.ring[Index(st.next)];
      AcceptedAtMost(Frames(slot.data, slot.msgCount), slot.seqNum, st.next, slot.recv);
      assert |FlushOne(st).log| - |st.log| <= MAX_FRAMES_PER_SLOT;
      OccupiedAfterFree(st.ring, Index(st.next));
      FlushAtMost(FlushOne(st));
    }
  }

  lemma OccupiedAtMost(ring: Ring)
    ensures Occupied(ring) <= CAPACITY
  {
    SizeBelow((set i: nat | i < |ring| && ring[i].Held?), CAPACITY);
  }

  lemma {:induction false} SizeBelow(s: set<nat>, n: nat)
    requires forall x :: x in s ==> 0 <= x < n
    ensures |s| <= n
  {
    if n == 0 {
      assert s == {};
    } else {
      SizeBelow(s - {n - 1}, n - 1);
    }
  }

  lemma InOrderAtMost(st: State, h: MoldHeader, data: seq<byte>, now: u64)
    requires SlotsFit(st.ring)
    ensures var st' := ClearGap(Flush(Deliver(st, h.seqNum, h.msgCount, data, now)));
            && SlotsFit(st'.ring)
            && 0 <= |st'.log| - |st.log| <= h.msgCount + CAPACITY * MAX_FRAMES_PER_SLOT
  {
    AcceptedAtMost(Frames(data, h.msgCount), h.seqNum, st.next, now);
    FlushAtMost(Deliver(st, h.seqNum, h.msgCount, data, now));
    OccupiedAtMost(st.ring);
  }

  lemma AheadDeliversNothing(cfg: Config, st: State, h: MoldHeader, data: seq<byte>, now: u64)
    requires SlotsFit(st.ring) && h.seqNum > st.next
    ensures var st' := CheckTimeout(cfg, BufferPacket(HandleGap(st, h.seqNum, now), h, data, now), now);
            SlotsFit(st'.ring) && st'.log == st.log
  {
  }

  /** What one call may deliver. */
  ghost predicate AtMost(st: State, st': State, count: nat) {
    SlotsFit(st'.ring) && 0 <= |st'.log| - |st.log| <= count + CAPACITY * MAX_FRAMES_PER_SLOT
  }

  lemma DataAtMost(cfg: Config, st: State, h: MoldHeader, data: seq<byte>, now: u64)
    requires SlotsFit(st.ring) && h.msgCount > 0
    ensures AtMost(st, OnData(cfg, st, h, data, now), h.msgCount)
  {
    if Wrap64(h.seqNum + h.msgCount - 1) < st.next {
      DuplicateAtMost(cfg, st, h, data, now);
    } else if h.seqNum > st.next {
      AheadDeliversNothing(cfg, st, h, data, now);
    } else {
      InOrderAtMost(st, h, data, now);
    }
  }

  lemma DuplicateAtMost(cfg: Config, st: State, h: MoldHeader, data: seq<byte>, now: u64)
    requires SlotsFit(st.ring) && h.msgCount > 0 && Wrap64(h.seqNum + h.msgCount - 1) < st.next
    ensures AtMost(st, OnData(cfg, st, h, data, now), 0)
  {
  }

  lemma BeatAtMost(cfg: Config, st: State, now: u64)
    requires SlotsFit(st.ring)
    ensures AtMost(st, CheckTimeout(cfg, st.(stats := st.stats.(heartbeats := st.stats.heartbeats + 1)), now), 0)
  {
  }

  lemma HeaderAtMost(cfg: Config, st: State, h: MoldHeader, data: seq<byte>, now: u64)
    requires SlotsFit(st.ring)
    ensures AtMost(st, OnHeader(cfg, st, h, data, now), h.msgCount)
  {
    if h.msgCount == 0 {
      BeatAtMost(cfg, st, now);
    } else {
      DataAtMost(cfg, CountPacket(st, h), h, data, now);
      assert OnHeader(cfg, st, h, data, now) == OnData(cfg, CountPacket(st, h), h, data, now);
    }
  }

  lemma IngestAtMost(cfg: Config, st: State, payload: seq<byte>, now: u64)
    requires SlotsFit(st.ring)
    ensures SlotsFit(Ingest(cfg, st, payload, now).ring)
    ensures IngestResult(cfg, st, payload, now) <= (U16_MOD - 1) + CAPACITY * MAX_FRAMES_PER_SLOT
    ensures if ParseHeader(payload).Some? then IngestResult(cfg, st, payload, now) >= 0
            else IngestResult(cfg, st, payload, now) == -1
  {
    match ParseHeader(payload)
    case None =>
    case Some(h) => HeaderAtMost(cfg, Sync(st, h), h, payload[MOLD_HEADER_SIZE..], now);
  }

  lemma {:induction false} FlushNeverShrinks(st: State)
    ensures |Flush(st).log| >= |st.log|
    decreases Occupied(st.ring)
  {
    if Starts(st.ring, st.next) {
      OccupiedAfterFree(st.ring, Index(st.next));
      FlushNeverShrinks(FlushOne(st));
    }
  }

  lemma DataNeverShrinks(cfg: Config, st: State, h: MoldHeader, data: seq<byte>, now: u64)
    requires h.msgCount > 0
    ensures |OnData(cfg, st, h, data, now).log| >= |st.log|
  {
    FlushNeverShrinks(Deliver(st, h.seqNum, h.msgCount, data, now));
  }

  /** In any state at all, a call takes nothing back. */
  lemma IngestNeverShrinks(cfg: Config, st: State, payload: seq<byte>, now: u64)
    ensures |Ingest(cfg, st, payload, now).log| >= |st.log|
  {
    if ParseHeader(payload).Some? {
      var h := ParseHeader(payload).value;
      if h.msgCount > 0 {
        DataNeverShrinks(cfg, CountPacket(Sync(st, h), h), h, payload[MOLD_HEADER_SIZE..], now);
      }
    }
  }

  lemma {:induction false} FlushOnlyAppends(st: State)
    ensures st.log <= Flush(st).log
    decreases Occupied(st.ring)
  {
    if Starts(st.ring, st.next) {
      OccupiedAfterFree(st.ring, Index(st.next));
      FlushOnlyAppends(FlushOne(st));
    }
  }

  lemma DataOnlyAppends(cfg: Config, st: State, h: MoldHeader, data: seq<byte>, now: u64)
    requires h.msgCount > 0
    ensures st.log <= OnData(cfg, st, h, data, now).log
  {
    FlushOnlyAppends(Deliver(st, h.seqNum, h.msgCount, data, now));
  }

  lemma IngestOnlyAppends(cfg: Config, st: State, payload: seq<byte>, now: u64)
    ensures st.log <= Ingest(cfg, st, payload, now).log
  {
    if ParseHeader(payload).Some? {
      var h := ParseHeader(payload).value;
      if h.msgCount > 0 {
        DataOnlyAppends(cfg, CountPacket(Sync(st, h), h), h, payload[MOLD_HEADER_SIZE..], now);
      }
    }
  }

  /** In every reachable state, with no assumption on the datagrams, the number of messages one call
      hands on is at most 65535 from the datagram and 750 from each of the 4096 slots: the `int`
      result cannot overflow. */
  lemma {:induction false} CallDeliversBounded(cfg: Config, es: seq<Event>, payload: seq<byte>, now: u64)
    ensures SlotsFit(Run(cfg, es).ring)
    ensures -1 <= IngestResult(cfg, Run(cfg, es), payload, now) <= 65535 + 4096 * 750 < 0x8000_0000
  {
    if es != [] {
      var e := es[|es| - 1];
      if e.Datagram? {
        CallDeliversBounded(cfg, es[..|es| - 1], e.payload, e.now);
        IngestAtMost(cfg, Run(cfg, es[..|es| - 1]), e.payload, e.now);
      } else {
        CallDeliversBounded(cfg, es[..|es| - 1], [], 0);
      }
    }
    IngestAtMost(cfg, Run(cfg, es), payload, now);
  }
}
