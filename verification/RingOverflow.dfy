/** When a packet ahead of `next` is lost because its slot is taken, for packets cut in any way. */
module RingOverflow {
  import opened Bytes
  import opened Wire
  import opened GapModel
  import opened GapDelivery

  // ----- When a packet is dropped -----

  /** A packet ahead of `next` is dropped, and counted, exactly when a packet with another number is
      buffered in its slot; otherwise it is buffered itself. */
  lemma OverflowsExactly(cfg: Config, st: State, h: MoldHeader, data: seq<byte>, now: u64)
    requires Inv(st) && st.synced && InSpace(h.seqNum, h.msgCount) && h.msgCount > 0 && st.next < h.seqNum
    ensures var st' := OnHeader(cfg, st, h, data, now);
            && (Blocked(st.ring, h.seqNum) <==> st'.stats.overflows == st.stats.overflows + 1)
            && (Blocked(st.ring, h.seqNum) <==> !Starts(st'.ring, h.seqNum))
            && (Blocked(st.ring, h.seqNum) ==> st'.ring == st.ring)
  {
    BlockedSlot(st.ring, h.seqNum);
  }

  /** A buffered packet the flush can no longer reach: its number was passed. */
  ghost predicate Stale(st: State, t: u64) {
    Starts(st.ring, t) && t < st.next
  }

  /** Inside the window, whatever takes the slot is stale or itself beyond the window. */
  lemma RivalIsStaleOrFar(st: State, n: u64, t: u64)
    requires Inv(st) && st.next < n <= st.next + CAPACITY
    requires Starts(st.ring, t) && t != n && Index(t) == Index(n)
    ensures Stale(st, t) || t > st.next + CAPACITY
  {
    assert t != st.next;
  }

  // ----- When a slot goes stale -----

  /** Number t lies strictly inside the range first, first + 1, .., first + count - 1. */
  predicate Within(first: nat, count: nat, t: nat) {
    first < t < first + count
  }

  /** Number t lies strictly inside the packet buffered at s. */
  predicate WithinSlot(ring: Ring, s: u64, t: u64) {
    Starts(ring, s) && Within(s, |Frames(ring[Index(s)].data, ring[Index(s)].msgCount)|, t)
  }

  /** The packet buffered at s has been released. */
  predicate Released(st: State, st': State, s: u64) {
    Starts(st.ring, s) && !Starts(st'.ring, s)
  }

  /** The numbers at which a flush stops to release a packet. */
  ghost function Stops(st: State): set<u64>
    decreases Occupied(st.ring)
  {
    if !Starts(st.ring, st.next) then {}
    else
      OccupiedAfterFree(st.ring, Index(st.next));
      {st.next} + Stops(FlushOne(st))
  }

  /** A flush frees the slots of the numbers it stops at, and no other. */
  lemma {:induction false} FlushFreesItsStops(st: State, t: u64)
    requires Ordered(st) && Keyed(st.ring)
    ensures Starts(Flush(st).ring, t) <==> Starts(st.ring, t) && t !in Stops(st)
    ensures t in Stops(st) ==> Starts(st.ring, t) && st.next <= t <= Flush(st).next
    decreases Occupied(st.ring)
  {
    if Starts(st.ring, st.next) {
      OccupiedAfterFree(st.ring, Index(st.next));
      FlushOneKeeps(st);
      FlushFreesItsStops(FlushOne(st), t);
      FlushKeeps(FlushOne(st));
    }
  }

  /** Releasing one packet moves `next` to its end, and leaves the other packets alone. */
  lemma OneStop(st: State, s: u64)
    requires Ordered(st) && Keyed(st.ring) && Starts(st.ring, st.next)
    ensures var slot := st.ring[Index(st.next)];
            FlushOne(st).next == st.next + |Frames(slot.data, slot.msgCount)|
    ensures s != st.next ==> forall t: u64 :: WithinSlot(FlushOne(st).ring, s, t) <==> WithinSlot(st.ring, s, t)
  {
    var i := Index(st.next);
    assert SlotOk(st.ring[i], i);
  }

  /** A released packet ends at or below where the flush ends. */
  lemma {:induction false} StopEndsBelow(st: State, s: u64, t: u64)
    requires Ordered(st) && Keyed(st.ring) && s in Stops(st) && WithinSlot(st.ring, s, t)
    ensures t < Flush(st).next
    decreases Occupied(st.ring)
  {
    OccupiedAfterFree(st.ring, Index(st.next));
    OneStop(st, s);
    FlushOneKeeps(st);
    if s == st.next {
      FlushKeeps(FlushOne(st));
    } else {
      StopEndsBelow(FlushOne(st), s, t);
    }
  }

  /** When exactly a flush passes a number without a stop there: when the number lies strictly inside a
      packet it releases. */
  lemma {:induction false} PassesExactly(st: State, t: u64)
    requires Ordered(st) && Keyed(st.ring) && st.next <= t < Flush(st).next
    ensures t !in Stops(st) <==> exists s: u64 :: s in Stops(st) && WithinSlot(st.ring, s, t)
    decreases Occupied(st.ring)
  {
    OccupiedAfterFree(st.ring, Index(st.next));
    FlushOneKeeps(st);
    var after := FlushOne(st);
    OneStop(st, st.next);
    FlushFreesItsStops(after, t);
    if t < after.next {
      if t == st.next {
        StopsFromNext(st, t);
      } else {
        assert WithinSlot(st.ring, st.next, t) && st.next in Stops(st);
      }
    } else {
      PassesExactly(after, t);
      LaterStops(st, t);
    }
  }

  lemma StopsFromNext(st: State, t: u64)
    requires Ordered(st) && Keyed(st.ring) && t == st.next
    ensures forall s: u64 :: s in Stops(st) ==> !WithinSlot(st.ring, s, t)
  {
    forall s: u64 | s in Stops(st)
      ensures !WithinSlot(st.ring, s, t)
    {
      FlushFreesItsStops(st, s);
    }
  }

  /** Past the end of the first released packet, only later ones matter. */
  lemma LaterStops(st: State, t: u64)
    requires Ordered(st) && Keyed(st.ring) && Starts(st.ring, st.next)
    requires FlushOne(st).next <= t < Flush(FlushOne(st)).next
    ensures t != st.next
    ensures (exists s: u64 :: s in Stops(st) && WithinSlot(st.ring, s, t))
       <==> exists s: u64 :: s in Stops(FlushOne(st)) && WithinSlot(FlushOne(st).ring, s, t)
  {
    OneStop(st, st.next);
    forall s: u64
      ensures s in Stops(st) && WithinSlot(st.ring, s, t)
         <==> s in Stops(FlushOne(st)) && WithinSlot(FlushOne(st).ring, s, t)
    {
      OneStop(st, s);
    }
  }

  /** Buffering a packet ahead of `next` leaves the slots of the numbers below alone, and releases none. */
  lemma BufferingPasses(st: State, h: MoldHeader, data: seq<byte>, now: u64, t: u64)
    requires Inv(st) && st.next < h.seqNum
    ensures t < st.next ==> (Starts(BufferPacket(st, h, data, now).ring, t) <==> Starts(st.ring, t))
    ensures !Released(st, BufferPacket(st, h, data, now), t)
  {
  }

  /** Some delivered packet, the one that came or one released by it, has t strictly inside. */
  ghost predicate Covered(st: State, st': State, h: MoldHeader, data: seq<byte>, t: u64) {
    || (h.seqNum <= st.next && Within(h.seqNum, |Frames(data, h.msgCount)|, t))
    || exists s: u64 :: Released(st, st', s) && WithinSlot(st.ring, s, t)
  }

  lemma ReleasedAreStops(st: State, t: u64)
    requires Ordered(st) && Keyed(st.ring)
    ensures (exists s: u64 :: Released(st, Flush(st), s) && WithinSlot(st.ring, s, t))
       <==> exists s: u64 :: s in Stops(st) && WithinSlot(st.ring, s, t)
    ensures forall s: u64 :: s in Stops(st) && WithinSlot(st.ring, s, t) ==> t < Flush(st).next
  {
    forall s: u64
      ensures Released(st, Flush(st), s) <==> s in Stops(st)
      ensures s in Stops(st) && WithinSlot(st.ring, s, t) ==> t < Flush(st).next
    {
      FlushFreesItsStops(st, s);
      if s in Stops(st) && WithinSlot(st.ring, s, t) {
        StopEndsBelow(st, s, t);
      }
    }
  }

  /** What a flush makes stale, seen from the packets it releases. */
  lemma FlushMakesStale(st: State, t: u64)
    requires Ordered(st) && Keyed(st.ring)
    ensures t < st.next ==> (Stale(Flush(st), t) <==> Starts(st.ring, t))
    ensures t >= st.next ==> (Stale(Flush(st), t) <==>
              Starts(st.ring, t) && exists s: u64 :: Released(st, Flush(st), s) && WithinSlot(st.ring, s, t))
  {
    FlushKeeps(st);
    FlushFreesItsStops(st, t);
    ReleasedAreStops(st, t);
    if st.next <= t < Flush(st).next {
      PassesExactly(st, t);
    }
  }

  /** A packet that reaches `next`, and the flush after it. */
  lemma DeliveryPasses(st: State, h: MoldHeader, data: seq<byte>, now: u64, t: u64)
    requires Inv(st) && InSpace(h.seqNum, h.msgCount) && h.seqNum <= st.next
    ensures var st' := Flush(Deliver(st, h.seqNum, h.msgCount, data, now));
            Stale(st', t) <==> Stale(st, t) || (Starts(st.ring, t) && st.next < t && Covered(st, st', h, data, t))
  {
    var direct := Deliver(st, h.seqNum, h.msgCount, data, now);
    DeliverExtends(st, h.seqNum, h.msgCount, data, now);
    assert direct.ring == st.ring;
    FlushMakesStale(direct, t);
    if t >= direct.next {
      SameReleases(st, direct, Flush(direct), t);
    }
  }

  /** Releases are told from the rings alone. */
  lemma SameReleases(st: State, direct: State, st': State, t: u64)
    requires direct.ring == st.ring
    ensures (exists s: u64 :: Released(st, st', s) && WithinSlot(st.ring, s, t))
       <==> exists s: u64 :: Released(direct, st', s) && WithinSlot(direct.ring, s, t)
  {
    forall s: u64
      ensures Released(st, st', s) <==> Released(direct, st', s)
    {
    }
  }

  /** A packet that delivers nothing makes nothing stale. */
  lemma NothingPasses(cfg: Config, st: State, h: MoldHeader, data: seq<byte>, now: u64, t: u64)
    requires Inv(st) && st.synced && InSpace(h.seqNum, h.msgCount)
    requires h.msgCount == 0 || st.next < h.seqNum || h.seqNum + h.msgCount <= st.next
    ensures var st' := OnHeader(cfg, st, h, data, now);
            && st'.next == st.next && (t < st.next ==> (Starts(st'.ring, t) <==> Starts(st.ring, t)))
            && !Released(st, st', t)
  {
    if h.msgCount > 0 && st.next < h.seqNum {
      BufferingPasses(HandleGap(CountPacket(st, h), h.seqNum, now), h, data, now, t);
    }
  }

  /** When exactly a buffered packet goes stale: when its number lies strictly inside a delivered packet,
      the one that came or one the flush released. Once stale it stays so. */
  lemma GoesStaleExactly(cfg: Config, st: State, h: MoldHeader, data: seq<byte>, now: u64, t: u64)
    requires Inv(st) && st.synced && InSpace(h.seqNum, h.msgCount)
    ensures var st' := OnHeader(cfg, st, h, data, now);
            Stale(st', t) <==> Stale(st, t) || (Starts(st.ring, t) && st.next < t && Covered(st, st', h, data, t))
  {
    var st' := OnHeader(cfg, st, h, data, now);
    if h.msgCount > 0 && h.seqNum <= st.next < h.seqNum + h.msgCount {
      var counted := CountPacket(st, h);
      DeliveryPasses(counted, h, data, now, t);
      var flushed := Flush(Deliver(counted, h.seqNum, h.msgCount, data, now));
      assert (st'.ring, st'.next) == (flushed.ring, flushed.next);
    } else {
      NothingPasses(cfg, st, h, data, now, t);
      forall s: u64
        ensures !Released(st, st', s)
      {
        NothingPasses(cfg, st, h, data, now, s);
      }
    }
  }

  lemma StepKeepsStale(cfg: Config, st: State, e: Event, t: u64)
    requires Inv(st) && Fits(e) && Stale(st, t)
    ensures Stale(Step(cfg, st, e), t)
  {
    if e.Datagram? && ParseHeader(e.payload).Some? {
      assert st.synced;
      GoesStaleExactly(cfg, st, ParseHeader(e.payload).value, e.payload[MOLD_HEADER_SIZE..], e.now, t);
    }
  }

  /** A stale packet keeps its slot for the rest of every run, so every later packet for that slot is
      dropped. */
  lemma {:induction false} StaleForever(cfg: Config, es: seq<Event>, n: nat, t: u64)
    requires AllFit(es) && n <= |es| && Stale(Run(cfg, es[..n]), t)
    ensures Stale(Run(cfg, es), t)
    ensures forall s: u64 :: s != t && Index(s) == Index(t) ==> Blocked(Run(cfg, es).ring, s)
    decreases |es|
  {
    if n == |es| {
      assert es[..n] == es;
    } else {
      var m := |es| - 1;
      assert es[..m][..n] == es[..n];
      StaleForever(cfg, es[..m], n, t);
      RunInv(cfg, es[..m]);
      StepKeepsStale(cfg, Run(cfg, es[..m]), es[m], t);
    }
  }

  // ----- A family of runs that lose a packet inside the window -----

  /** Packets not cut uniformly can leave a slot behind for good. One message ahead is buffered, then a
      packet that covers it closes the hole; its slot stays occupied, and a later packet for that slot
      is dropped although it is inside the window. */
  lemma UnevenCutsLoseAPacket(cfg: Config, st: State, ahead: MoldHeader, closing: MoldHeader, later: MoldHeader,
                              aheadData: seq<byte>, closingData: seq<byte>, laterData: seq<byte>, now: u64)
    requires Inv(st) && st.synced && (forall i :: 0 <= i < CAPACITY ==> st.ring[i] == Empty)
    requires ahead.seqNum == st.next + 1 && ahead.msgCount == 1
    requires closing.seqNum == st.next && closing.msgCount == 2 && |Frames(closingData, 2)| == 2
    requires later.seqNum == st.next + 1 + CAPACITY && later.msgCount == 1 && InSpace(later.seqNum, 1)
    ensures var waiting := OnHeader(cfg, st, ahead, aheadData, now);
            var closed := OnHeader(cfg, waiting, closing, closingData, now);
            var end := OnHeader(cfg, closed, later, laterData, now);
            && closed.next == st.next + 2 && later.seqNum <= closed.next + CAPACITY
            && Stale(closed, ahead.seqNum)
            && end.stats.overflows == st.stats.overflows + 1 && end.ring == closed.ring
  {
    var waiting := OnHeader(cfg, st, ahead, aheadData, now);
    OnHeaderKeeps(cfg, st, ahead, aheadData, now);
    AheadIsBuffered(cfg, st, ahead, aheadData, now);
    ClosesOver(cfg, waiting, closing, closingData, now);
    DroppedForGood(cfg, OnHeader(cfg, waiting, closing, closingData, now), ahead.seqNum, later, laterData, now);
  }

  /** One ring after a stale packet. */
  lemma DroppedForGood(cfg: Config, st: State, t: u64, h: MoldHeader, data: seq<byte>, now: u64)
    requires Inv(st) && st.synced && Stale(st, t)
    requires h.seqNum == t + CAPACITY > st.next && h.msgCount == 1 && InSpace(h.seqNum, 1)
    ensures var st' := OnHeader(cfg, st, h, data, now);
            st'.stats.overflows == st.stats.overflows + 1 && st'.ring == st.ring
  {
    OneRingLater(t);
    OverflowsExactly(cfg, st, h, data, now);
  }

  lemma OneRingLater(n: u64)
    requires n + CAPACITY < U64_MOD
    ensures Index(n + CAPACITY) == Index(n)
  {
  }

  /** The packet that closes the hole leaves the covered slot as it is. */
  lemma ClosesOver(cfg: Config, st: State, h: MoldHeader, data: seq<byte>, now: u64)
    requires Inv(st) && st.synced && InSpace(h.seqNum, 2)
    requires h.seqNum == st.next && h.msgCount == 2 && |Frames(data, 2)| == 2
    requires !Starts(st.ring, st.next + 2)
    ensures var st' := OnHeader(cfg, st, h, data, now);
            && st'.next == st.next + 2 && st'.ring == st.ring && st'.stats.overflows == st.stats.overflows
            && Inv(st') && st'.synced
  {
    OnHeaderKeeps(cfg, st, h, data, now);
    var counted := CountPacket(st, h);
    DeliverExtends(counted, h.seqNum, h.msgCount, data, now);
    var direct := Deliver(counted, h.seqNum, h.msgCount, data, now);
    assert direct.next == st.next + 2;
    assert Flush(direct) == direct;
  }

  /** With an empty ring, an ahead packet ends up as its only occupied slot. */
  lemma AheadIsBuffered(cfg: Config, st: State, h: MoldHeader, data: seq<byte>, now: u64)
    requires (forall i :: 0 <= i < CAPACITY ==> st.ring[i] == Empty)
    requires h.seqNum > st.next && h.msgCount == 1
    ensures var st' := OnHeader(cfg, st, h, data, now);
            && st'.next == st.next && st'.log == st.log && st'.stats.overflows == st.stats.overflows
            && st'.ring[Index(h.seqNum)].Held? && st'.ring[Index(h.seqNum)].seqNum == h.seqNum
            && forall i :: 0 <= i < CAPACITY && i != Index(h.seqNum) ==> st'.ring[i] == Empty
  {
  }
}
