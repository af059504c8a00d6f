/** Exactly-once, in-order delivery of authentic messages, for every run of the gap buffer. */
module GapDelivery {
  import opened Bytes
  import opened Wire
  import opened GapModel

  // ----- Hypothesis: the run stays inside the 64-bit sequence space -----

  /** A range of sequence numbers whose end still is one. */
  predicate InSpace(first: nat, count: nat) {
    first + count < U64_MOD
  }

  ghost predicate Fits(e: Event) {
    e.Datagram? ==>
      match ParseHeader(e.payload)
      case None => true
      case Some(h) => InSpace(h.seqNum, h.msgCount)
  }

  ghost predicate AllFit(es: seq<Event>) {
    forall i :: 0 <= i < |es| ==> Fits(es[i])
  }

  // ----- The invariant -----

  /** The log is numbered without holes or repeats and ends just below `next`. */
  ghost predicate Ordered(st: State) {
    && InSpace(st.next, 0)
    && |st.log| <= st.next
    && forall k :: 0 <= k < |st.log| ==> st.log[k].seqNum == st.next - |st.log| + k
  }

  ghost predicate SlotOk(slot: Slot, i: nat) {
    slot.Held? ==>
      Index(slot.seqNum) == i && |slot.data| <= MAX_PACKET_BYTES && InSpace(slot.seqNum, slot.msgCount)
  }

  ghost predicate Keyed(ring: Ring) {
    forall i :: 0 <= i < CAPACITY ==> SlotOk(ring[i], i)
  }

  /** The gap being tracked, if any, starts at `next`, and nothing buffered starts there. */
  ghost predicate Settled(st: State) {
    (st.gapStart == 0 || st.gapStart == st.next) && !Starts(st.ring, st.next)
  }

  ghost predicate Pristine(st: State) {
    && st.next == 0 && st.log == [] && st.gapStart == 0 && st.gaps == [] && st.requests == []
    && forall i :: 0 <= i < CAPACITY ==> st.ring[i] == Empty
  }

  ghost predicate Inv(st: State) {
    Ordered(st) && Keyed(st.ring) && Settled(st) && (!st.synced ==> Pristine(st))
  }

  // ----- One packet -----

  /** The accepted deliveries are the bodies from number max(at, next) on, in order. */
  lemma {:induction false} AcceptedMeaning(bodies: seq<seq<byte>>, at: u64, next: u64, recv: u64)
    requires at + |bodies| < U64_MOD
    ensures var start := Max(at, next);
            var accepted := Accepted(bodies, at, next, recv);
            if at + |bodies| <= start then accepted == []
            else
              && |accepted| == at + |bodies| - start
              && forall k :: 0 <= k < |accepted| ==>
                   accepted[k] == Delivery(start + k, bodies[start - at + k], recv)
  {
    if bodies != [] {
      AcceptedMeaning(bodies[1..], at + 1, next, recv);
    }
  }

  /** A delivery extends the log by the next numbers, each with its body from the packet. */
  ghost predicate Extends(st: State, st': State, first: u64, bodies: seq<seq<byte>>, recv: u64) {
    && st.log <= st'.log
    && st'.next - st.next == |st'.log| - |st.log|
    && forall k :: |st.log| <= k < |st'.log| ==>
         && 0 <= st'.log[k].seqNum - first < |bodies|
         && st'.log[k].body == bodies[st'.log[k].seqNum - first]
         && st'.log[k].recv == recv
  }

  lemma DeliverExtends(st: State, first: u64, count: u16, data: seq<byte>, recv: u64)
    requires Ordered(st) && first <= st.next && InSpace(first, count)
    ensures Ordered(Deliver(st, first, count, data, recv))
    ensures Extends(st, Deliver(st, first, count, data, recv), first, Frames(data, count), recv)
  {
    var bodies := Frames(data, count);
    var added := Accepted(bodies, first, st.next, recv);
    AcceptedMeaning(bodies, first, st.next, recv);
    ExtendLog(st, Deliver(st, first, count, data, recv), added, first, bodies, recv);
  }

  /** Appending consecutively numbered deliveries keeps the log ordered. */
  lemma ExtendLog(st: State, st': State, added: seq<Delivery>, first: u64, bodies: seq<seq<byte>>,
                  recv: u64)
    requires Ordered(st) && st'.log == st.log + added && st'.next == st.next + |added|
    requires first <= st.next && (added != [] ==> st'.next == first + |bodies|)
    requires forall k :: 0 <= k < |added| ==> added[k] == Delivery(st.next + k, bodies[st.next - first + k], recv)
    ensures Ordered(st')
    ensures Extends(st, st', first, bodies, recv)
  {
    forall k | |st.log| <= k < |st'.log|
      ensures st'.log[k].seqNum == st'.next - |st'.log| + k
      ensures 0 <= st'.log[k].seqNum - first < |bodies|
      ensures st'.log[k].body == bodies[st'.log[k].seqNum - first] && st'.log[k].recv == recv
    {
      assert st'.log[k] == added[k - |st.log|];
    }
  }

  // ----- Flush -----

  /** What a flush leaves alone. */
  ghost predicate SameTracker(st: State, st': State) {
    && st'.synced == st.synced && st'.session == st.session
    && st'.gapStart == st.gapStart && st'.gapAt == st.gapAt && st'.lastRequestAt == st.lastRequestAt
    && st'.gaps == st.gaps && st'.requests == st.requests && st'.stats == st.stats
  }

  /** The log only grows, and by as much as `next` advances. */
  ghost predicate Grows(st: State, st': State) {
    st.log <= st'.log && st'.next - st.next == |st'.log| - |st.log|
  }

  lemma FlushOneKeeps(st: State)
    requires Ordered(st) && Keyed(st.ring) && Starts(st.ring, st.next)
    ensures var st' := FlushOne(st);
            Ordered(st') && Keyed(st'.ring) && SameTracker(st, st') && Grows(st, st')
  {
    var slot := st.ring[Index(st.next)];
    assert SlotOk(slot, Index(st.next));
    DeliverExtends(st, slot.seqNum, slot.msgCount, slot.data, slot.recv);
  }

  lemma {:induction false} FlushKeeps(st: State)
    requires Ordered(st) && Keyed(st.ring)
    ensures var st' := Flush(st);
            && Ordered(st') && Keyed(st'.ring) && !Starts(st'.ring, st'.next)
            && SameTracker(st, st') && Grows(st, st')
    decreases Occupied(st.ring)
  {
    if Starts(st.ring, st.next) {
      OccupiedAfterFree(st.ring, Index(st.next));
      FlushOneKeeps(st);
      FlushKeeps(FlushOne(st));
    }
  }

  // ----- One event -----

  lemma BufferKeeps(st: State, h: MoldHeader, data: seq<byte>, now: u64)
    requires Ordered(st) && Keyed(st.ring) && Settled(st) && InSpace(h.seqNum, h.msgCount) && h.seqNum > st.next
    ensures var st' := BufferPacket(st, h, data, now);
            Ordered(st') && Keyed(st'.ring) && Settled(st')
  {
  }

  lemma OnHeaderKeeps(cfg: Config, st: State, h: MoldHeader, data: seq<byte>, now: u64)
    requires Inv(st) && st.synced && InSpace(h.seqNum, h.msgCount)
    ensures var st' := OnHeader(cfg, st, h, data, now);
            Inv(st') && st'.synced && Grows(st, st')
  {
    if h.msgCount > 0 {
      OnDataKeeps(cfg, CountPacket(st, h), h, data, now);
      assert OnHeader(cfg, st, h, data, now) == OnData(cfg, CountPacket(st, h), h, data, now);
    }
  }

  lemma OnDataKeeps(cfg: Config, st: State, h: MoldHeader, data: seq<byte>, now: u64)
    requires Inv(st) && st.synced && InSpace(h.seqNum, h.msgCount) && h.msgCount > 0
    ensures var st' := OnData(cfg, st, h, data, now);
            Inv(st') && st'.synced && Grows(st, st')
  {
    if Wrap64(h.seqNum + h.msgCount - 1) < st.next {
    } else if h.seqNum > st.next {
      BufferKeeps(HandleGap(st, h.seqNum, now), h, data, now);
    } else {
      InOrderKeeps(st, h, data, now);
    }
  }

  lemma InOrderKeeps(st: State, h: MoldHeader, data: seq<byte>, now: u64)
    requires Inv(st) && st.synced && InSpace(h.seqNum, h.msgCount) && h.seqNum <= st.next
    ensures var st' := ClearGap(Flush(Deliver(st, h.seqNum, h.msgCount, data, now)));
            Inv(st') && st'.synced && Grows(st, st')
  {
    DeliverExtends(st, h.seqNum, h.msgCount, data, now);
    FlushKeeps(Deliver(st, h.seqNum, h.msgCount, data, now));
  }

  lemma SyncKeeps(st: State, h: MoldHeader)
    requires Inv(st) && InSpace(h.seqNum, h.msgCount)
    ensures Inv(Sync(st, h)) && Sync(st, h).synced && Sync(st, h).log == st.log
    ensures st.synced ==> Sync(st, h) == st
    ensures !st.synced ==> Sync(st, h).next == h.seqNum
  {
  }

  lemma StepKeeps(cfg: Config, st: State, e: Event)
    requires Inv(st) && Fits(e)
    ensures Inv(Step(cfg, st, e))
    ensures st.synced ==> Step(cfg, st, e).synced && Grows(st, Step(cfg, st, e))
  {
    if e.Datagram? && ParseHeader(e.payload).Some? {
      var h := ParseHeader(e.payload).value;
      SyncKeeps(st, h);
      OnHeaderKeeps(cfg, Sync(st, h), h, e.payload[MOLD_HEADER_SIZE..], e.now);
    }
  }

  // ----- Runs -----

  lemma {:induction false} RunInv(cfg: Config, es: seq<Event>)
    requires AllFit(es)
    ensures Inv(Run(cfg, es))
  {
    if es != [] {
      var n := |es| - 1;
      RunInv(cfg, es[..n]);
      StepKeeps(cfg, Run(cfg, es[..n]), es[n]);
    }
  }

  /** The number of the first message of a datagram that carries messages. */
  ghost function DataStart(e: Event): Option<u64> {
    if e.Datagram? && ParseHeader(e.payload).Some? && ParseHeader(e.payload).value.msgCount > 0
    then Some(ParseHeader(e.payload).value.seqNum) else None
  }

  /** The number the stream is joined at: that of the first datagram that parses. */
  ghost function SyncSeq(es: seq<Event>): Option<u64> {
    if es == [] then None
    else if es[0].Datagram? && ParseHeader(es[0].payload).Some? then
      Some(ParseHeader(es[0].payload).value.seqNum)
    else SyncSeq(es[1..])
  }

  lemma {:induction false} SyncSeqOfPrefix(es: seq<Event>, n: nat)
    requires n <= |es|
    ensures SyncSeq(es[..n]).Some? ==> SyncSeq(es) == SyncSeq(es[..n])
    ensures SyncSeq(es[..n]).None? && n < |es| ==> SyncSeq(es) == SyncSeq(es[n..])
  {
    if n > 0 {
      assert es[..n][1..] == es[1..][..n - 1] && es[1..][n - 1..] == es[n..];
      SyncSeqOfPrefix(es[1..], n - 1);
    } else {
      assert es[n..] == es;
    }
  }

  /** Exactly once and in order: for every run of datagrams and ticks, malformed, overlapping and
      colliding ones included, the delivered numbers are first, first + 1, .., next - 1. */
  lemma {:induction false} ExactlyOnceInOrder(cfg: Config, es: seq<Event>)
    requires AllFit(es)
    ensures var st := Run(cfg, es);
            match SyncSeq(es)
            case None => !st.synced && st.log == []
            case Some(first) =>
              && st.synced
              && st.next == first + |st.log|
              && forall k :: 0 <= k < |st.log| ==> st.log[k].seqNum == first + k
  {
    RunInv(cfg, es);
    if es != [] {
      var n := |es| - 1;
      var before := Run(cfg, es[..n]);
      ExactlyOnceInOrder(cfg, es[..n]);
      RunInv(cfg, es[..n]);
      SyncSeqOfPrefix(es, n);
      assert es[n..] == [es[n]];
      if before.synced {
        StepKeeps(cfg, before, es[n]);
      } else if es[n].Datagram? && ParseHeader(es[n].payload).Some? {
        var h := ParseHeader(es[n].payload).value;
        SyncKeeps(before, h);
        OnHeaderKeeps(cfg, Sync(before, h), h, es[n].payload[MOLD_HEADER_SIZE..], es[n].now);
      }
    }
  }

  /** Nothing delivered is taken back, and after the sync `next` never decreases. */
  lemma {:induction false} DeliveryOnlyGrows(cfg: Config, es: seq<Event>, n: nat)
    requires AllFit(es) && n <= |es|
    ensures Run(cfg, es[..n]).log <= Run(cfg, es).log
    ensures Run(cfg, es[..n]).synced ==> Run(cfg, es).synced && Run(cfg, es[..n]).next <= Run(cfg, es).next
    decreases |es|
  {
    if n == |es| {
      assert es[..n] == es;
    } else {
      var m := |es| - 1;
      assert es[..m][..n] == es[..n];
      DeliveryOnlyGrows(cfg, es[..m], n);
      RunInv(cfg, es[..m]);
      RunInv(cfg, es[..n]);
      StepKeeps(cfg, Run(cfg, es[..m]), es[m]);
    }
  }

  /** The session of the datagram the stream is joined with; until then the configured one. */
  ghost function JoinSession(cfg: Config, es: seq<Event>): Session {
    if es == [] then cfg.session
    else
      var n := |es| - 1;
      if SyncSeq(es[..n]).None? && es[n].Datagram? && ParseHeader(es[n].payload).Some? then
        ParseHeader(es[n].payload).value.session
      else JoinSession(cfg, es[..n])
  }

  /** The session is taken over once, with the join, and later sessions are not looked at. */
  lemma {:induction false} SessionIsThatOfTheJoin(cfg: Config, es: seq<Event>)
    requires AllFit(es)
    ensures Run(cfg, es).session == JoinSession(cfg, es)
  {
    if es != [] {
      var n := |es| - 1;
      var before := Run(cfg, es[..n]);
      SessionIsThatOfTheJoin(cfg, es[..n]);
      ExactlyOnceInOrder(cfg, es[..n]);
      RunInv(cfg, es[..n]);
      if es[n].Datagram? && ParseHeader(es[n].payload).Some? {
        var h := ParseHeader(es[n].payload).value;
        SyncKeeps(before, h);
        HeaderKeepsSession(cfg, Sync(before, h), h, es[n].payload[MOLD_HEADER_SIZE..], es[n].now);
      }
    }
  }

  lemma HeaderKeepsSession(cfg: Config, st: State, h: MoldHeader, data: seq<byte>, now: u64)
    requires Inv(st) && st.synced && InSpace(h.seqNum, h.msgCount)
    ensures OnHeader(cfg, st, h, data, now).session == st.session
  {
    var counted := CountPacket(st, h);
    if h.msgCount > 0 && h.seqNum <= counted.next < h.seqNum + h.msgCount {
      DeliverExtends(counted, h.seqNum, h.msgCount, data, now);
      FlushKeeps(Deliver(counted, h.seqNum, h.msgCount, data, now));
    }
  }

  // ----- Counters -----

  /** What a log of the run itself says the counters should be. A packet is a duplicate if all its
      numbers had been delivered before it came, and an overflow if it comes early and another packet
      is buffered in its slot. */
  ghost function Tally(cfg: Config, es: seq<Event>): Stats {
    if es == [] then Stats(0, 0, 0, 0, 0)
    else
      var n := |es| - 1;
      var t := Tally(cfg, es[..n]);
      if !(es[n].Datagram? && ParseHeader(es[n].payload).Some?) then t
      else
        var h := ParseHeader(es[n].payload).value;
        if h.msgCount == 0 then t.(heartbeats := t.heartbeats + 1)
        else Counted(t, Run(cfg, es[..n]), h)
  }

  /** A packet buffered under another number sits in the slot of number n. */
  ghost predicate Blocked(ring: Ring, n: u64) {
    exists t: u64 :: t != n && Index(t) == Index(n) && Starts(ring, t)
  }

  lemma BlockedSlot(ring: Ring, n: u64)
    requires Keyed(ring)
    ensures Blocked(ring, n) <==> ring[Index(n)].Held? && ring[Index(n)].seqNum != n
  {
    var slot := ring[Index(n)];
    assert SlotOk(slot, Index(n));
    if slot.Held? && slot.seqNum != n {
      assert Starts(ring, slot.seqNum);
    }
  }

  /** One packet with messages counted in state st. */
  ghost function Counted(t: Stats, st: State, h: MoldHeader): Stats {
    t.(packets := t.packets + 1, messages := t.messages + h.msgCount,
       duplicates := t.duplicates + (if h.seqNum + h.msgCount <= st.next then 1 else 0),
       overflows := t.overflows + (if st.next < h.seqNum && Blocked(st.ring, h.seqNum) then 1 else 0))
  }

  lemma HeaderCounts(cfg: Config, st: State, h: MoldHeader, data: seq<byte>, now: u64)
    requires Inv(st) && st.synced && InSpace(h.seqNum, h.msgCount)
    ensures OnHeader(cfg, st, h, data, now).stats
         == if h.msgCount == 0 then st.stats.(heartbeats := st.stats.heartbeats + 1) else Counted(st.stats, st, h)
  {
    var counted := CountPacket(st, h);
    if h.msgCount > 0 {
      if h.seqNum > st.next {
        BlockedSlot(st.ring, h.seqNum);
      } else if st.next < h.seqNum + h.msgCount {
        DeliverExtends(counted, h.seqNum, h.msgCount, data, now);
        FlushKeeps(Deliver(counted, h.seqNum, h.msgCount, data, now));
      }
    }
  }

  /** Before the join nothing is buffered, so joining changes no count. */
  lemma JoinCounts(st: State, h: MoldHeader)
    requires Inv(st) && h.msgCount > 0
    ensures Counted(st.stats, Sync(st, h), h) == Counted(st.stats, st, h)
  {
    if !st.synced {
      BlockedSlot(st.ring, h.seqNum);
      assert !Blocked(st.ring, h.seqNum);
    }
  }

  /** The counters of every run are those of its log. */
  lemma {:induction false} CountersAgreeWithTheRun(cfg: Config, es: seq<Event>)
    requires AllFit(es)
    ensures Run(cfg, es).stats == Tally(cfg, es)
  {
    if es != [] {
      var n := |es| - 1;
      CountersAgreeWithTheRun(cfg, es[..n]);
      if es[n].Datagram? && ParseHeader(es[n].payload).Some? {
        var h := ParseHeader(es[n].payload).value;
        RunInv(cfg, es[..n]);
        SyncKeeps(Run(cfg, es[..n]), h);
        if h.msgCount > 0 {
          JoinCounts(Run(cfg, es[..n]), h);
        }
        HeaderCounts(cfg, Sync(Run(cfg, es[..n]), h), h, es[n].payload[MOLD_HEADER_SIZE..], es[n].now);
      }
    }
  }

  // ----- At the top of the number space the promise fails -----

  /** A packet that reaches past 2^64 - 1 has a message to deliver, and its first one is not old. */
  lemma {:induction false} AcceptedAcrossTop(bodies: seq<seq<byte>>, at: u64, next: u64, recv: u64)
    requires at + |bodies| >= U64_MOD
    ensures var accepted := Accepted(bodies, at, next, recv);
            |accepted| > 0 && accepted[0].seqNum >= next
  {
    if at < next {
      AcceptedAcrossTop(bodies[1..], at + 1, next, recv);
    }
  }

  /** When exactly a delivery keeps the promise: the log stays numbered without holes or repeats, and
      `next` advances by as much as it grows, if and only if the number after the last message found
      in the packet still is a sequence number. Otherwise `next` stays where it was. */
  lemma DeliversOnceExactly(st: State, first: u64, count: u16, data: seq<byte>, recv: u64)
    requires Ordered(st) && first <= st.next
    ensures var st' := Deliver(st, first, count, data, recv);
            var fits := InSpace(first, |Frames(data, count)|);
            && (Ordered(st') <==> fits)
            && (Grows(st, st') <==> fits)
            && (!fits ==> st'.next == st.next && |st'.log| > |st.log|)
  {
    var bodies := Frames(data, count);
    var added := Accepted(bodies, first, st.next, recv);
    if InSpace(first, |bodies|) {
      AcceptedMeaning(bodies, first, st.next, recv);
      ExtendLog(st, Deliver(st, first, count, data, recv), added, first, bodies, recv);
    } else {
      AcceptedAcrossTop(bodies, first, st.next, recv);
      StaysBehind(st, Deliver(st, first, count, data, recv), added);
    }
  }

  /** Deliveries that leave `next` where it was break the numbering. */
  lemma StaysBehind(st: State, st': State, added: seq<Delivery>)
    requires Ordered(st) && st'.log == st.log + added && st'.next == st.next
    requires |added| > 0 && added[0].seqNum >= st.next
    ensures !Ordered(st') && !Grows(st, st')
  {
    assert st'.log[|st.log|] == added[0];
  }

  /** The failure is seen from outside: the counter wraps past 2^64 - 1, `next` stays, and the same
      datagram is delivered again. */
  lemma WrapDeliversTwice(cfg: Config, session: Session, now: u64)
    ensures var packet := SerialiseHeader(MoldHeader(session, U64_MOD - 1, 1)) + EncodeBodies([[]]);
            var log := Run(cfg, [Datagram(packet, now), Datagram(packet, now)]).log;
            |log| == 2 && log[0] == log[1]
  {
    var last: u64 := U64_MOD - 1;
    var packet := SerialiseHeader(MoldHeader(session, last, 1)) + EncodeBodies([[]]);
    PacketRoundTrip(session, last, [[]]);
    var one := Datagram(packet, now);
    assert [one, one][..1] == [one];
    assert [one][..0] == [];
    var h := MoldHeader(session, last, 1);
    var data := packet[MOLD_HEADER_SIZE..];
    var synced := Sync(Init(cfg), h);
    DeliverAtLast(cfg, synced, h, data, now);
    assert Run(cfg, [one]) == Step(cfg, Run(cfg, []), one) == OnHeader(cfg, synced, h, data, now);
    DeliverAtLast(cfg, Run(cfg, [one]), h, data, now);
  }

  /** One message numbered 2^64 - 1, arriving while it is the next one. */
  lemma DeliverAtLast(cfg: Config, st: State, h: MoldHeader, data: seq<byte>, now: u64)
    requires st.next == h.seqNum == U64_MOD - 1 && h.msgCount == 1 && Frames(data, 1) == [[]]
    requires !Starts(st.ring, st.next) && st.gapStart == 0
    ensures var st' := OnHeader(cfg, st, h, data, now);
            && st'.log == st.log + [Delivery(U64_MOD - 1, [], now)]
            && st'.next == st.next && st'.ring == st.ring && st'.gapStart == 0 && st'.synced == st.synced
  {
    assert Accepted([[]], h.seqNum, st.next, now) == [Delivery(h.seqNum, [], now)];
  }
}
