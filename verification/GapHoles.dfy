/** Which holes are tracked. The tracker holds one gap, the one at `next`; when that closes, a hole further
    on is left untracked until the next packet comes early, and no request is sent for it. */
module GapHoles {
  import opened Bytes
  import opened Wire
  import opened GapModel
  import opened GapDelivery
  import opened GapProgress
  import opened GapRetransmit
  import opened RingOverflow

  /** Something is missing at `next`: a later packet is buffered. */
  ghost predicate Hole(ring: Ring, next: u64) {
    exists t: u64 :: t > next && Starts(ring, t)
  }

  ghost predicate Untracked(st: State) {
    st.gapStart == 0 && Hole(st.ring, st.next)
  }

  /** A tick, a datagram that does not parse, a heartbeat, or a packet wholly below `next`. */
  predicate Idle(e: Event, next: u64) {
    e.Datagram? && ParseHeader(e.payload).Some? ==>
      var h := ParseHeader(e.payload).value;
      h.msgCount == 0 || h.seqNum + h.msgCount <= next
  }

  // ----- One event -----

  /** A packet that reaches `next` leaves a hole untracked exactly when something stays buffered above
      the new `next`, and no gap was open or the open one is closed. */
  lemma InOrderUntracked(cfg: Config, st: State, h: MoldHeader, data: seq<byte>, now: u64)
    requires Inv(st) && st.synced && InSpace(h.seqNum, h.msgCount)
    requires h.seqNum <= st.next < h.seqNum + h.msgCount
    ensures var st' := OnHeader(cfg, st, h, data, now);
            Untracked(st') <==> (st.gapStart == 0 || st'.next > st.next) && Hole(st.ring, st'.next)
  {
    var counted := CountPacket(st, h);
    var direct := Deliver(counted, h.seqNum, h.msgCount, data, now);
    var flushed := Flush(direct);
    DeliverExtends(counted, h.seqNum, h.msgCount, data, now);
    FlushKeeps(direct);
    FlushKeepsHoles(direct);
    var st' := OnHeader(cfg, st, h, data, now);
    assert (st'.ring, st'.next) == (flushed.ring, flushed.next);
  }

  /** A flush does not touch what is buffered above where it ends. */
  lemma FlushKeepsHoles(st: State)
    requires Ordered(st) && Keyed(st.ring)
    ensures Hole(Flush(st).ring, Flush(st).next) <==> Hole(st.ring, Flush(st).next)
  {
    forall t: u64 | t > Flush(st).next
      ensures Starts(Flush(st).ring, t) <==> Starts(st.ring, t)
    {
      FlushFreesItsStops(st, t);
    }
  }

  /** What an idle event leaves alone. */
  ghost predicate Unmoved(st: State, st': State) {
    st'.synced == st.synced && st'.next == st.next && st'.ring == st.ring && st'.log == st.log && st'.gaps == st.gaps
  }

  lemma IdleHeader(cfg: Config, st: State, h: MoldHeader, data: seq<byte>, now: u64)
    requires Inv(st) && st.synced && InSpace(h.seqNum, h.msgCount)
    requires h.msgCount == 0 || h.seqNum + h.msgCount <= st.next
    ensures var st' := OnHeader(cfg, st, h, data, now);
            && Unmoved(st, st')
            && (st.gapStart == 0 ==> st'.gapStart == 0 && st'.requests == st.requests)
            && (RingRoom(st.next) ==> st'.gapStart == st.gapStart)
  {
    if h.msgCount == 0 {
      CheckContent(cfg, st.(stats := st.stats.(heartbeats := st.stats.heartbeats + 1)), now);
    }
  }

  /** Without an open gap an idle event sends nothing, and below the last ring it leaves the tracker
      alone. */
  lemma IdleStep(cfg: Config, st: State, e: Event)
    requires Inv(st) && st.synced && Fits(e) && Idle(e, st.next)
    ensures var st' := Step(cfg, st, e);
            && Unmoved(st, st')
            && (st.gapStart == 0 ==> st'.gapStart == 0 && st'.requests == st.requests)
            && (RingRoom(st.next) ==> st'.gapStart == st.gapStart)
  {
    match e
    case Tick(now) => CheckContent(cfg, st, now);
    case Datagram(payload, now) =>
      if ParseHeader(payload).Some? {
        IdleHeader(cfg, st, ParseHeader(payload).value, payload[MOLD_HEADER_SIZE..], now);
      }
  }

  /** An early packet always leaves a gap open at `next`, if the tracker can hold it. */
  lemma EarlyTracks(cfg: Config, st: State, h: MoldHeader, data: seq<byte>, now: u64)
    requires Inv(st) && st.synced && InSpace(h.seqNum, h.msgCount) && h.msgCount > 0
    requires h.seqNum > st.next && Requestable(st.next)
    ensures OnHeader(cfg, st, h, data, now).gapStart == st.next
  {
    var counted := CountPacket(st, h);
    AheadSettled(counted, h, data, now);
    CheckContent(cfg, BufferPacket(HandleGap(counted, h.seqNum, now), h, data, now), now);
  }

  /** When exactly a hole is untracked after an event: if the event is idle, when it was before; else when
      a packet that reaches `next` closes what was tracked and something stays buffered above. */
  lemma UntrackedExactly(cfg: Config, st: State, e: Event)
    requires Inv(st) && st.synced && Fits(e) && Requestable(st.next)
    ensures var st' := Step(cfg, st, e);
            Untracked(st') <==>
              if Idle(e, st.next) then Untracked(st)
              else
                && ParseHeader(e.payload).value.seqNum <= st.next
                && (st.gapStart == 0 || st'.next > st.next) && Hole(st.ring, st'.next)
  {
    if Idle(e, st.next) {
      IdleStep(cfg, st, e);
    } else {
      var h, data := ParseHeader(e.payload).value, e.payload[MOLD_HEADER_SIZE..];
      assert Step(cfg, st, e) == OnHeader(cfg, st, h, data, e.now);
      if h.seqNum > st.next {
        EarlyTracks(cfg, st, h, data, e.now);
      } else {
        InOrderUntracked(cfg, st, h, data, e.now);
      }
    }
  }

  // ----- Runs -----

  /** Nothing was reported, requested or delivered, and the hole is still untracked. */
  ghost predicate Forgotten(before: State, after: State) {
    Untracked(after) && after.synced && Unmoved(before, after) && after.requests == before.requests
  }

  lemma IdleForgets(cfg: Config, before: State, st: State, e: Event)
    requires Inv(st) && Forgotten(before, st) && Fits(e) && Idle(e, st.next)
    ensures Forgotten(before, Step(cfg, st, e))
  {
    IdleStep(cfg, st, e);
  }

  /** An untracked hole is never asked for: as long as only idle events come, however many and however
      late, no gap is reported, no request sent and nothing delivered. */
  lemma {:induction false} UntrackedIsNeverRequested(cfg: Config, es: seq<Event>, n: nat)
    requires AllFit(es) && n <= |es| && Untracked(Run(cfg, es[..n]))
    requires forall i :: n <= i < |es| ==> Idle(es[i], Run(cfg, es[..n]).next)
    ensures Forgotten(Run(cfg, es[..n]), Run(cfg, es))
    decreases |es|
  {
    if n == |es| {
      assert es[..n] == es;
      RunInv(cfg, es);
    } else {
      var m := |es| - 1;
      assert es[..m][..n] == es[..n];
      UntrackedIsNeverRequested(cfg, es[..m], n);
      RunInv(cfg, es[..m]);
      IdleForgets(cfg, Run(cfg, es[..n]), Run(cfg, es[..m]), es[m]);
    }
  }

  // ----- A family of runs that get there -----

  /** Three packets of one message each, two of them early: n + 1, n + 3, then n. The first hole closes,
      the second, at n + 2, is left untracked. */
  lemma SecondHoleIsForgotten(cfg: Config, st: State, a: MoldHeader, b: MoldHeader, c: MoldHeader,
                              aData: seq<byte>, bData: seq<byte>, cData: seq<byte>, now: u64)
    requires Inv(st) && st.synced && st.gapStart == 0 && (forall i :: 0 <= i < CAPACITY ==> st.ring[i] == Empty)
    requires st.next > 0 && RingRoom(st.next + 4)
    requires a.seqNum == st.next + 1 && b.seqNum == st.next + 3 && c.seqNum == st.next
    requires a.msgCount == b.msgCount == c.msgCount == 1
    requires |aData| <= MAX_PACKET_BYTES && |Frames(aData, 1)| == |Frames(cData, 1)| == 1
    ensures var one := OnHeader(cfg, st, a, aData, now);
            var two := OnHeader(cfg, one, b, bData, now);
            var end := OnHeader(cfg, two, c, cData, now);
            end.next == st.next + 2 && Untracked(end)
  {
    TwoEarly(cfg, st, a, b, aData, bData, now);
    FirstCloses(cfg, OnHeader(cfg, OnHeader(cfg, st, a, aData, now), b, bData, now), c, cData, aData, now);
  }

  lemma FirstCloses(cfg: Config, st: State, h: MoldHeader, data: seq<byte>, behind: seq<byte>, now: u64)
    requires Inv(st) && st.synced && InSpace(h.seqNum, 4) && h.seqNum == st.next == st.gapStart && h.msgCount == 1
    requires |Frames(data, 1)| == |Frames(behind, 1)| == 1
    requires st.ring[Index(st.next + 1)] == Held(st.next + 1, 1, now, behind)
    requires Starts(st.ring, st.next + 3) && !Starts(st.ring, st.next + 2)
    ensures var st' := OnHeader(cfg, st, h, data, now);
            st'.next == st.next + 2 && Untracked(st')
  {
    ClosesOneHole(cfg, st, h, data, behind, now);
    InOrderUntracked(cfg, st, h, data, now);
  }

  /** Neighbouring numbers have slots of their own. */
  lemma NearSlots(n: u64)
    requires RingRoom(n)
    ensures Index(n + 1) != Index(n + 2) && Index(n + 1) != Index(n + 3) && Index(n + 2) != Index(n + 3)
  {
  }

  lemma TwoEarly(cfg: Config, st: State, a: MoldHeader, b: MoldHeader, aData: seq<byte>, bData: seq<byte>, now: u64)
    requires Inv(st) && st.synced && (forall i :: 0 <= i < CAPACITY ==> st.ring[i] == Empty)
    requires st.next > 0 && RingRoom(st.next + 4)
    requires a.seqNum == st.next + 1 && b.seqNum == st.next + 3 && a.msgCount == b.msgCount == 1
    requires |aData| <= MAX_PACKET_BYTES
    ensures var two := OnHeader(cfg, OnHeader(cfg, st, a, aData, now), b, bData, now);
            && Inv(two) && two.synced && two.next == two.gapStart == st.next
            && two.ring[Index(st.next + 1)] == Held(st.next + 1, 1, now, aData)
            && Starts(two.ring, st.next + 3) && !Starts(two.ring, st.next + 2)
  {
    NearSlots(st.next);
    var one := OnHeader(cfg, st, a, aData, now);
    EarlyStep(cfg, st, a, aData, now);
    EarlyStep(cfg, one, b, bData, now);
  }

  /** An early packet, its slot free. */
  lemma EarlyStep(cfg: Config, st: State, h: MoldHeader, data: seq<byte>, now: u64)
    requires Inv(st) && st.synced && InSpace(h.seqNum, h.msgCount) && h.msgCount > 0 && h.seqNum > st.next
    requires st.ring[Index(h.seqNum)] == Empty && Requestable(st.next)
    ensures var st' := OnHeader(cfg, st, h, data, now);
            && Inv(st') && st'.synced && st'.next == st'.gapStart == st.next
            && st'.ring == st.ring[Index(h.seqNum) := Held(h.seqNum, h.msgCount, now, Kept(data))]
  {
    OnHeaderKeeps(cfg, st, h, data, now);
    EarlyTracks(cfg, st, h, data, now);
    EarlyIsBuffered(cfg, st, h, data, now);
  }

  lemma EarlyIsBuffered(cfg: Config, st: State, h: MoldHeader, data: seq<byte>, now: u64)
    requires Inv(st) && st.synced && InSpace(h.seqNum, h.msgCount) && h.msgCount > 0 && h.seqNum > st.next
    requires st.ring[Index(h.seqNum)] == Empty
    ensures var st' := OnHeader(cfg, st, h, data, now);
            && st'.next == st.next
            && st'.ring == st.ring[Index(h.seqNum) := Held(h.seqNum, h.msgCount, now, Kept(data))]
  {
    assert |data| <= MAX_PACKET_BYTES ==> Kept(data) == data;
  }

  /** The packet at `next` arrives and releases the one buffered behind it; nothing is buffered after that. */
  lemma ClosesOneHole(cfg: Config, st: State, h: MoldHeader, data: seq<byte>, behind: seq<byte>, now: u64)
    requires Inv(st) && st.synced && InSpace(h.seqNum, 2) && h.seqNum == st.next && h.msgCount == 1
    requires |Frames(data, 1)| == |Frames(behind, 1)| == 1
    requires st.ring[Index(st.next + 1)] == Held(st.next + 1, 1, now, behind) && !Starts(st.ring, st.next + 2)
    ensures OnHeader(cfg, st, h, data, now).next == st.next + 2
  {
    var counted := CountPacket(st, h);
    var direct := Deliver(counted, h.seqNum, 1, data, now);
    DeliverExtends(counted, h.seqNum, 1, data, now);
    assert direct.next == st.next + 1 && Starts(direct.ring, direct.next);
    OneStop(direct, direct.next);
    var after := FlushOne(direct);
    assert after.next == st.next + 2 && !Starts(after.ring, after.next);
    assert Flush(direct) == Flush(after) == after;
  }
}
