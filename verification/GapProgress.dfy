/** Nothing that can be delivered is withheld, and a slot keeps the latest copy of its packet. */
module GapProgress {
  import opened Bytes
  import opened Wire
  import opened GapModel
  import opened GapDelivery

  // ----- What reaches `next` is delivered -----

  /** Message k of a packet is in the log after st's, at the place of its number. */
  ghost predicate DeliveredAt(st: State, log: seq<Delivery>, d: Delivery) {
    var i := |st.log| + (d.seqNum - st.next);
    |st.log| <= i < |log| && log[i] == d
  }

  lemma DirectDelivers(st: State, h: MoldHeader, data: seq<byte>, now: u64, k: nat)
    requires Ordered(st) && InSpace(h.seqNum, h.msgCount) && h.seqNum <= st.next
    requires k < |Frames(data, h.msgCount)| && st.next <= h.seqNum + k
    ensures DeliveredAt(st, Deliver(st, h.seqNum, h.msgCount, data, now).log,
                        Delivery(h.seqNum + k, Frames(data, h.msgCount)[k], now))
  {
    var bodies := Frames(data, h.msgCount);
    var st' := Deliver(st, h.seqNum, h.msgCount, data, now);
    DeliverExtends(st, h.seqNum, h.msgCount, data, now);
    assert st'.next == h.seqNum + |bodies|;
    var i := |st.log| + (h.seqNum + k - st.next);
    assert st'.log[i].seqNum == st'.next - |st'.log| + i;
  }

  /** A packet that starts at or below `next` moves `next` to its end or beyond, and every message of it
      not delivered before goes out, under its number, with its body and the packet's arrival time. */
  lemma ReachedIsDelivered(cfg: Config, st: State, h: MoldHeader, data: seq<byte>, now: u64)
    requires Inv(st) && st.synced && InSpace(h.seqNum, h.msgCount) && h.msgCount > 0 && h.seqNum <= st.next
    ensures var st' := OnHeader(cfg, st, h, data, now);
            var bodies := Frames(data, h.msgCount);
            && st'.next >= h.seqNum + |bodies|
            && forall k :: 0 <= k < |bodies| && st.next <= h.seqNum + k ==>
                 DeliveredAt(st, st'.log, Delivery(h.seqNum + k, bodies[k], now))
  {
    var bodies := Frames(data, h.msgCount);
    if st.next < h.seqNum + h.msgCount {
      var counted := CountPacket(st, h);
      var direct := Deliver(counted, h.seqNum, h.msgCount, data, now);
      DeliverExtends(counted, h.seqNum, h.msgCount, data, now);
      FlushKeeps(direct);
      var log := OnHeader(cfg, st, h, data, now).log;
      assert log == Flush(direct).log;
      forall k | 0 <= k < |bodies| && st.next <= h.seqNum + k
        ensures DeliveredAt(st, log, Delivery(h.seqNum + k, bodies[k], now))
      {
        DirectDelivers(counted, h, data, now, k);
        InLongerLog(counted, direct.log, log, Delivery(h.seqNum + k, bodies[k], now));
        assert |counted.log| == |st.log| && counted.next == st.next;
      }
    }
  }

  lemma InLongerLog(st: State, log: seq<Delivery>, log': seq<Delivery>, d: Delivery)
    requires DeliveredAt(st, log, d) && log <= log'
    ensures DeliveredAt(st, log', d)
  {
  }

  /** The datagram of event e carries number n, and comes when the buffer has not synced yet or already
      expects a number at or above its first. */
  ghost predicate Reaches(st: State, e: Event) {
    DataStart(e).Some? && (!st.synced || DataStart(e).value <= st.next)
  }

  /** Message k of a datagram, as it is handed on. */
  ghost function MessageOf(e: Event, k: nat): Delivery
    requires DataStart(e).Some? && Fits(e)
    requires k < |Frames(e.payload[MOLD_HEADER_SIZE..], ParseHeader(e.payload).value.msgCount)|
  {
    var h := ParseHeader(e.payload).value;
    Delivery(h.seqNum + k, Frames(e.payload[MOLD_HEADER_SIZE..], h.msgCount)[k], e.now)
  }

  /** The log has a message under d's number, and d itself if it is new. */
  ghost predicate Placed(before: seq<Delivery>, after: seq<Delivery>, first: u64, d: Delivery) {
    var i := d.seqNum - first;
    0 <= i < |after| && after[i].seqNum == d.seqNum && (i >= |before| ==> after[i] == d)
  }

  ghost predicate NumberedFrom(st: State, first: u64) {
    st.next == first + |st.log| && forall k :: 0 <= k < |st.log| ==> st.log[k].seqNum == first + k
  }

  lemma ReachedFrom(cfg: Config, st: State, e: Event, after: State, k: nat)
    requires Inv(st) && st.synced && Fits(e) && Reaches(st, e)
    requires after == OnHeader(cfg, st, ParseHeader(e.payload).value, e.payload[MOLD_HEADER_SIZE..], e.now)
    requires k < |Frames(e.payload[MOLD_HEADER_SIZE..], ParseHeader(e.payload).value.msgCount)|
    ensures MessageOf(e, k).seqNum < after.next
    ensures MessageOf(e, k).seqNum >= st.next ==> DeliveredAt(st, after.log, MessageOf(e, k))
  {
    ReachedIsDelivered(cfg, st, ParseHeader(e.payload).value, e.payload[MOLD_HEADER_SIZE..], e.now);
  }

  lemma InPlace(st: State, after: State, first: u64, d: Delivery)
    requires st.next == first + |st.log| && NumberedFrom(after, first) && first <= d.seqNum < after.next
    requires d.seqNum >= st.next ==> DeliveredAt(st, after.log, d)
    ensures Placed(st.log, after.log, first, d)
  {
  }

  lemma ReachedStep(cfg: Config, st: State, e: Event, after: State, first: u64, k: nat)
    requires Inv(st) && Fits(e) && Reaches(st, e) && after == Step(cfg, st, e) && NumberedFrom(after, first)
    requires Sync(st, ParseHeader(e.payload).value).next == first + |st.log|
    requires k < |Frames(e.payload[MOLD_HEADER_SIZE..], ParseHeader(e.payload).value.msgCount)|
    requires MessageOf(e, k).seqNum >= first
    ensures Placed(st.log, after.log, first, MessageOf(e, k))
  {
    var synced := Sync(st, ParseHeader(e.payload).value);
    SyncKeeps(st, ParseHeader(e.payload).value);
    ReachedFrom(cfg, synced, e, after, k);
    InPlace(synced, after, first, MessageOf(e, k));
  }

  /** Over every run: each message framed in a datagram that comes at or below `next` is in the log
      afterwards, if its number is not below the join; and if it was not before, then with the body it has
      there and that datagram's arrival time. */
  lemma NothingReachedIsWithheld(cfg: Config, es: seq<Event>, e: Event, first: u64, k: nat)
    requires AllFit(es) && Fits(e) && Reaches(Run(cfg, es), e) && SyncSeq(es + [e]) == Some(first)
    requires k < |Frames(e.payload[MOLD_HEADER_SIZE..], ParseHeader(e.payload).value.msgCount)|
    requires MessageOf(e, k).seqNum >= first
    ensures Placed(Run(cfg, es).log, Run(cfg, es + [e]).log, first, MessageOf(e, k))
  {
    var all := es + [e];
    assert all[..|es|] == es && all[|es|] == e;
    OneMoreFits(es, e);
    JoinPlace(cfg, es, e, first);
    ExactlyOnceInOrder(cfg, all);
    RunInv(cfg, es);
    var st, after := Run(cfg, es), Run(cfg, all);
    assert after == Step(cfg, st, e);
    ReachedStep(cfg, st, e, after, first, k);
  }

  lemma OneMoreFits(es: seq<Event>, e: Event)
    requires AllFit(es) && Fits(e)
    ensures AllFit(es + [e])
  {
  }

  /** Where `next` stands once the datagram's header was seen. */
  lemma JoinPlace(cfg: Config, es: seq<Event>, e: Event, first: u64)
    requires AllFit(es) && DataStart(e).Some? && SyncSeq(es + [e]) == Some(first)
    ensures Sync(Run(cfg, es), ParseHeader(e.payload).value).next == first + |Run(cfg, es).log|
    ensures Sync(Run(cfg, es), ParseHeader(e.payload).value).log == Run(cfg, es).log
  {
    var all := es + [e];
    assert all[..|es|] == es && all[|es|..] == [e];
    SyncSeqOfPrefix(all, |es|);
    ExactlyOnceInOrder(cfg, es);
    RunInv(cfg, es);
  }

  // ----- Slots keep the latest copy -----

  /** What a slot keeps of a packet: its first 1500 bytes. */
  function Kept(data: seq<byte>): seq<byte> {
    data[..if |data| <= 1500 then |data| else 1500]
  }

  /** The slot holds the datagram of event e: its number, count, arrival time and first bytes. */
  ghost predicate IsCopy(e: Event, slot: Slot) {
    && DataStart(e).Some?
    && var h := ParseHeader(e.payload).value;
       slot == Held(h.seqNum, h.msgCount, e.now, Kept(e.payload[MOLD_HEADER_SIZE..]))
  }

  /** Event j is the last one with a datagram that starts at number n. */
  ghost predicate LastStart(es: seq<Event>, j: nat, n: u64) {
    && j < |es| && DataStart(es[j]) == Some(n)
    && forall k :: j < k < |es| ==> DataStart(es[k]) != Some(n)
  }

  ghost predicate HasLatest(es: seq<Event>, slot: Slot)
    requires slot.Held?
  {
    exists j: nat :: LastStart(es, j, slot.seqNum) && IsCopy(es[j], slot)
  }

  /** Every packet waiting above `next` is the latest copy that came. */
  ghost predicate HoldsLatest(es: seq<Event>, st: State) {
    forall i :: 0 <= i < CAPACITY && st.ring[i].Held? && st.ring[i].seqNum > st.next ==> HasLatest(es, st.ring[i])
  }

  lemma {:induction false} FlushOnlyFrees(st: State, i: nat)
    requires i < CAPACITY
    ensures Flush(st).ring[i] == Empty || Flush(st).ring[i] == st.ring[i]
    decreases Occupied(st.ring)
  {
    if Starts(st.ring, st.next) {
      OccupiedAfterFree(st.ring, Index(st.next));
      FlushOnlyFrees(FlushOne(st), i);
    }
  }

  /** After a packet a slot above `next` holds that packet if it has its number, and what it held before
      if not. */
  lemma SlotAfter(cfg: Config, st: State, h: MoldHeader, data: seq<byte>, now: u64, i: nat)
    requires Inv(st) && st.synced && InSpace(h.seqNum, h.msgCount) && i < CAPACITY
    requires OnHeader(cfg, st, h, data, now).ring[i].Held?
    ensures var st' := OnHeader(cfg, st, h, data, now);
            && st'.next >= st.next
            && (st'.ring[i].seqNum > st'.next ==>
                  st'.ring[i] == if h.msgCount > 0 && h.seqNum == st'.ring[i].seqNum
                                 then Held(h.seqNum, h.msgCount, now, Kept(data)) else st.ring[i])
  {
    OnHeaderKeeps(cfg, st, h, data, now);
    if h.msgCount > 0 {
      if h.seqNum <= st.next {
        ReachedSlot(cfg, st, h, data, now, i);
      } else {
        EarlySlot(cfg, st, h, data, now, i);
      }
    }
  }

  lemma ReachedSlot(cfg: Config, st: State, h: MoldHeader, data: seq<byte>, now: u64, i: nat)
    requires Inv(st) && st.synced && h.msgCount > 0 && InSpace(h.seqNum, h.msgCount) && h.seqNum <= st.next
    requires i < CAPACITY
    ensures var ring := OnHeader(cfg, st, h, data, now).ring;
            ring[i] == Empty || ring[i] == st.ring[i]
  {
    FlushOnlyFrees(Deliver(CountPacket(st, h), h.seqNum, h.msgCount, data, now), i);
  }

  lemma EarlySlot(cfg: Config, st: State, h: MoldHeader, data: seq<byte>, now: u64, i: nat)
    requires Inv(st) && st.synced && h.msgCount > 0 && InSpace(h.seqNum, h.msgCount) && h.seqNum > st.next
    requires i < CAPACITY && OnHeader(cfg, st, h, data, now).ring[i].Held?
    ensures var ring := OnHeader(cfg, st, h, data, now).ring;
            ring[i] == if h.seqNum == ring[i].seqNum
                       then Held(h.seqNum, h.msgCount, now, Kept(data)) else st.ring[i]
  {
    assert SlotOk(st.ring[i], i);
    assert |data| <= MAX_PACKET_BYTES ==> data[..|data|] == data;
  }

  lemma LaterStart(es: seq<Event>, e: Event, slot: Slot)
    requires slot.Held?
    requires if DataStart(e) == Some(slot.seqNum) then IsCopy(e, slot) else HasLatest(es, slot)
    ensures HasLatest(es + [e], slot)
  {
    var all := es + [e];
    if DataStart(e) == Some(slot.seqNum) {
      assert LastStart(all, |es|, slot.seqNum) && IsCopy(all[|es|], slot);
    } else {
      var j: nat :| LastStart(es, j, slot.seqNum) && IsCopy(es[j], slot);
      assert all[j] == es[j] && LastStart(all, j, slot.seqNum);
    }
  }

  lemma StepHoldsLatest(cfg: Config, st: State, e: Event, es: seq<Event>)
    requires Inv(st) && Fits(e) && HoldsLatest(es, st)
    ensures HoldsLatest(es + [e], Step(cfg, st, e))
  {
    var st' := Step(cfg, st, e);
    forall i | 0 <= i < CAPACITY && st'.ring[i].Held? && st'.ring[i].seqNum > st'.next
      ensures HasLatest(es + [e], st'.ring[i])
    {
      if e.Datagram? && ParseHeader(e.payload).Some? {
        var h := ParseHeader(e.payload).value;
        SyncKeeps(st, h);
        SlotAfter(cfg, Sync(st, h), h, e.payload[MOLD_HEADER_SIZE..], e.now, i);
      }
      LaterStart(es, e, st'.ring[i]);
    }
  }

  /** Over every run each packet waiting above `next` is the latest copy that came of it, cut at 1500
      bytes, with that copy's arrival time. */
  lemma {:induction false} SlotsHoldLatestCopy(cfg: Config, es: seq<Event>)
    requires AllFit(es)
    ensures HoldsLatest(es, Run(cfg, es))
  {
    if es != [] {
      var n := |es| - 1;
      SlotsHoldLatestCopy(cfg, es[..n]);
      RunInv(cfg, es[..n]);
      StepHoldsLatest(cfg, Run(cfg, es[..n]), es[n], es[..n]);
      assert es[..n] + [es[n]] == es;
    }
  }
}
