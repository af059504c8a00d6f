/** What the gap tracker reports and requests: when a retransmit request goes out and what it asks
    for, and the order of gap reports. */
module GapRetransmit {
  import opened Bytes
  import opened Wire
  import opened GapModel
  import opened GapDelivery

  // ----- Content of a request -----

  /** A whole ring of sequence numbers lies above n. */
  predicate RingRoom(n: nat) {
    n + CAPACITY < U64_MOD
  }

  function Limit(cfg: Config): nat {
    var most := if cfg.maxCount == 0 then 1 else cfg.maxCount;
    if most < CAPACITY then most else CAPACITY
  }

  /** `count` is the longest run from `first`, up to the limit, in which no buffered packet starts. */
  ghost predicate LongestMissingRun(cfg: Config, ring: Ring, first: u64, count: nat) {
    && 1 <= count <= Limit(cfg) && first + count < U64_MOD
    && (forall s: u64 :: first <= s < first + count ==> !Starts(ring, s))
    && (count == Limit(cfg) || Starts(ring, first + count))
  }

  lemma {:induction false} CountMissingIsLongest(cfg: Config, ring: Ring, start: u64, k: nat)
    requires RingRoom(start) && k < Limit(cfg)
    requires !Starts(ring, start)
    requires forall s: u64 :: start <= s < start + k ==> !Starts(ring, s)
    ensures LongestMissingRun(cfg, ring, start, CountMissing(ring, start, k, cfg.maxCount))
    decreases CAPACITY - k
  {
    if k > 0 && Starts(ring, start + k) {
    } else if k + 1 < Limit(cfg) {
      CountMissingIsLongest(cfg, ring, start, k + 1);
    } else if k + 1 < cfg.maxCount {
      assert CountMissing(ring, start, k + 1, cfg.maxCount) == k + 1;
    }
  }

  /** When exactly the count finds nothing missing at a number that is missing: when the loop bound
      wraps around, within one ring of 2^64. */
  lemma NothingMissingExactly(cfg: Config, ring: Ring, start: u64)
    requires !Starts(ring, start)
    ensures Missing(ring, start, cfg.maxCount) == 0 <==> start + CAPACITY >= U64_MOD
  {
    if RingRoom(start) {
      CountMissingIsLongest(cfg, ring, start, 0);
    }
  }

  /** A gap is open, a request can be sent and its time has come. */
  predicate Due(cfg: Config, st: State, now: u64) {
    st.gapStart != 0 && cfg.onRetransmit && RequestDue(cfg, st, now)
  }

  /** A check of the timer. If a request is due, exactly one goes out and names the longest missing run
      from `next`; only within one ring of 2^64 the gap is abandoned instead, with no request. If
      none is due, nothing changes. */
  lemma CheckContent(cfg: Config, st: State, now: u64)
    requires Settled(st)
    ensures var st' := CheckTimeout(cfg, st, now);
            if !Due(cfg, st, now) then st' == st
            else if !RingRoom(st.next) then st' == st.(gapStart := 0)
            else
              && |st'.requests| == |st.requests| + 1
              && var r := st'.requests[|st.requests|];
                 && LongestMissingRun(cfg, st.ring, st.next, r.count)
                 && r == Retransmit(st.session, st.next, r.count, now)
                 && st' == st.(requests := st.requests + [r], lastRequestAt := now)
  {
    if Due(cfg, st, now) {
      NothingMissingExactly(cfg, st.ring, st.next);
      if RingRoom(st.next) {
        var missing := Missing(st.ring, st.next, cfg.maxCount);
        CountMissingIsLongest(cfg, st.ring, st.next, 0);
        assert missing % U16_MOD == missing;
      }
    }
  }

  /** After the part of an ahead-of-sequence packet that precedes the timer check. */
  lemma AheadSettled(st: State, h: MoldHeader, data: seq<byte>, now: u64)
    requires Ordered(st) && Keyed(st.ring) && Settled(st) && InSpace(h.seqNum, h.msgCount) && h.seqNum > st.next
    ensures var st' := BufferPacket(HandleGap(st, h.seqNum, now), h, data, now);
            && Settled(st') && Ordered(st') && st'.next == st.next && st'.requests == st.requests
            && st'.session == st.session
  {
    BufferKeeps(HandleGap(st, h.seqNum, now), h, data, now);
  }

  /** One event of a run adds at most one request; that request carries the synced session and asks
      for the longest missing run from `next`, judged by what is buffered at that moment. */
  ghost predicate SoundRequests(cfg: Config, st: State, st': State, now: u64) {
    || st'.requests == st.requests
    || (&& |st'.requests| == |st.requests| + 1
        && var r := st'.requests[|st.requests|];
           && st'.requests == st.requests + [r]
           && r == Retransmit(st'.session, st'.next, r.count, now)
           && st'.gapStart == r.first > 0 && RingRoom(r.first)
           && LongestMissingRun(cfg, st'.ring, st'.next, r.count))
  }

  function When(e: Event): u64 { e.now }

  lemma CheckRequests(cfg: Config, st: State, now: u64)
    requires Settled(st)
    ensures SoundRequests(cfg, st, CheckTimeout(cfg, st, now), now)
  {
    CheckContent(cfg, st, now);
  }

  lemma HeaderRequests(cfg: Config, st: State, h: MoldHeader, data: seq<byte>, now: u64)
    requires Inv(st) && st.synced && InSpace(h.seqNum, h.msgCount)
    ensures SoundRequests(cfg, st, OnHeader(cfg, st, h, data, now), now)
  {
    var counted := CountPacket(st, h);
    if h.msgCount == 0 {
      CheckRequests(cfg, st.(stats := st.stats.(heartbeats := st.stats.heartbeats + 1)), now);
    } else if Wrap64(h.seqNum + h.msgCount - 1) >= counted.next {
      if h.seqNum > counted.next {
        AheadSettled(counted, h, data, now);
        CheckRequests(cfg, BufferPacket(HandleGap(counted, h.seqNum, now), h, data, now), now);
      } else {
        InOrderFlush(counted, h, data, now);
      }
    }
  }

  /** What an in-order packet leaves alone. */
  lemma InOrderFlush(st: State, h: MoldHeader, data: seq<byte>, now: u64)
    requires Inv(st) && st.synced && InSpace(h.seqNum, h.msgCount) && h.seqNum <= st.next
    ensures var flushed := Flush(Deliver(st, h.seqNum, h.msgCount, data, now));
            SameTracker(st, flushed) && Grows(st, flushed)
  {
    DeliverExtends(st, h.seqNum, h.msgCount, data, now);
    FlushKeeps(Deliver(st, h.seqNum, h.msgCount, data, now));
  }

  lemma StepRequests(cfg: Config, st: State, e: Event)
    requires Inv(st) && Fits(e)
    ensures SoundRequests(cfg, st, Step(cfg, st, e), When(e))
  {
    match e
    case Tick(now) => CheckRequests(cfg, st, now);
    case Datagram(payload, now) =>
      if ParseHeader(payload).Some? {
        var h := ParseHeader(payload).value;
        SyncKeeps(st, h);
        HeaderRequests(cfg, Sync(st, h), h, payload[MOLD_HEADER_SIZE..], now);
      }
  }

  /** Request content over every run. */
  lemma RequestsAskForWhatIsMissing(cfg: Config, es: seq<Event>, e: Event)
    requires AllFit(es) && Fits(e)
    ensures SoundRequests(cfg, Run(cfg, es), Run(cfg, es + [e]), When(e))
    ensures Run(cfg, es).gapStart in {0, Run(cfg, es).next}
  {
    RunInv(cfg, es);
    assert (es + [e])[..|es|] == es;
    StepRequests(cfg, Run(cfg, es), e);
  }

  // ----- Gap reports -----

  ghost predicate Increasing(gaps: seq<GapEvent>) {
    forall i, j :: 0 <= i < j < |gaps| ==> gaps[i].first < gaps[j].first
  }

  /** A gap at n can be tracked and requested: 0 reads as no gap, and near 2^64 gaps are abandoned. */
  predicate Requestable(n: nat) {
    n > 0 && RingRoom(n)
  }

  function LastGap(st: State): u64
    requires st.gaps != []
  {
    st.gaps[|st.gaps| - 1].first
  }

  /** Gap reports lie between the join and `next`; the tracker, when open, is the last of them. A last
      report at `next` without an open tracker is one the tracker cannot hold. */
  ghost predicate Tracked(st: State) {
    && (forall i :: 0 <= i < |st.gaps| ==> st.next - |st.log| <= st.gaps[i].first <= st.next)
    && (st.gapStart != 0 ==>
          st.gaps != [] && LastGap(st) == st.gapStart && st.gaps[|st.gaps| - 1].at == st.gapAt)
    && (st.gapStart == 0 && st.gaps != [] ==> LastGap(st) < st.next || !Requestable(st.next))
  }

  /** A packet comes early while the last report already named `next` and no gap is open. */
  ghost predicate Repeats(st: State, e: Event) {
    && st.synced && st.gapStart == 0 && st.gaps != [] && LastGap(st) == st.next
    && e.Datagram? && ParseHeader(e.payload).Some?
    && ParseHeader(e.payload).value.msgCount > 0 && ParseHeader(e.payload).value.seqNum > st.next
  }

  /** A step that reports a gap reports one that is nonempty, starts at `next` (so that everything
      delivered lies below it) and ends right below the packet that revealed it. */
  ghost predicate SoundGaps(st: State, st': State, e: Event) {
    || st'.gaps == st.gaps
    || (&& e.Datagram? && ParseHeader(e.payload).Some?
        && var h := ParseHeader(e.payload).value;
           && st'.next < h.seqNum
           && st'.gaps == st.gaps + [GapEvent(st'.next, h.seqNum - 1, e.now)]
           && forall k :: 0 <= k < |st'.log| ==> st'.log[k].seqNum < st'.next)
  }

  lemma CheckKeepsGaps(cfg: Config, st: State, now: u64)
    requires Settled(st) && Tracked(st)
    ensures var st' := CheckTimeout(cfg, st, now);
            && Tracked(st') && st'.gaps == st.gaps && st'.next == st.next && st'.log == st.log
  {
    CheckContent(cfg, st, now);
  }

  /** An ahead-of-sequence packet reports exactly if no gap is open. */
  lemma AheadGaps(cfg: Config, st: State, h: MoldHeader, data: seq<byte>, now: u64)
    requires Inv(st) && st.synced && InSpace(h.seqNum, h.msgCount) && h.seqNum > st.next && Tracked(st)
    ensures var st' := CheckTimeout(cfg, BufferPacket(HandleGap(st, h.seqNum, now), h, data, now), now);
            && Tracked(st') && st'.next == st.next && st'.log == st.log
            && st'.gaps == (if st.gapStart == 0 then st.gaps + [GapEvent(st.next, h.seqNum - 1, now)] else st.gaps)
  {
    AheadSettled(st, h, data, now);
    CheckKeepsGaps(cfg, BufferPacket(HandleGap(st, h.seqNum, now), h, data, now), now);
  }

  lemma InOrderGaps(st: State, h: MoldHeader, data: seq<byte>, now: u64)
    requires Inv(st) && st.synced && InSpace(h.seqNum, h.msgCount) && h.seqNum <= st.next && Tracked(st)
    ensures var st' := ClearGap(Flush(Deliver(st, h.seqNum, h.msgCount, data, now)));
            && Tracked(st') && st'.gaps == st.gaps && st'.requests == st.requests && st'.next >= st.next
            && (st'.gapStart != 0 ==> && st'.gapStart == st.gapStart && st'.gapAt == st.gapAt
                                      && st'.lastRequestAt == st.lastRequestAt && st'.next == st.next)
            && (st'.gapStart == 0 && st.gapStart != 0 ==> st'.next > st.next)
  {
    InOrderFlush(st, h, data, now);
  }

  lemma HeaderGaps(cfg: Config, st: State, h: MoldHeader, e: Event)
    requires Inv(st) && st.synced && InSpace(h.seqNum, h.msgCount) && Tracked(st)
    requires e.Datagram? && ParseHeader(e.payload) == Some(h)
    ensures var st' := OnHeader(cfg, st, h, e.payload[MOLD_HEADER_SIZE..], e.now);
            && Tracked(st') && SoundGaps(st, st', e)
            && (st'.gaps == st.gaps <==> h.msgCount == 0 || h.seqNum <= st.next || st.gapStart != 0)
            && (st'.gaps != st.gaps ==> st'.next == st.next)
  {
    var data := e.payload[MOLD_HEADER_SIZE..];
    if h.msgCount == 0 {
      CheckKeepsGaps(cfg, st.(stats := st.stats.(heartbeats := st.stats.heartbeats + 1)), e.now);
    } else {
      DataGaps(cfg, CountPacket(st, h), h, e);
      assert OnHeader(cfg, st, h, data, e.now) == OnData(cfg, CountPacket(st, h), h, data, e.now);
    }
  }

  lemma DataGaps(cfg: Config, st: State, h: MoldHeader, e: Event)
    requires Inv(st) && st.synced && InSpace(h.seqNum, h.msgCount) && Tracked(st) && h.msgCount > 0
    requires e.Datagram? && ParseHeader(e.payload) == Some(h)
    ensures var st' := OnData(cfg, st, h, e.payload[MOLD_HEADER_SIZE..], e.now);
            && Tracked(st') && SoundGaps(st, st', e)
            && (st'.gaps == st.gaps <==> h.seqNum <= st.next || st.gapStart != 0)
            && (st'.gaps != st.gaps ==> st'.next == st.next)
  {
    var data := e.payload[MOLD_HEADER_SIZE..];
    if Wrap64(h.seqNum + h.msgCount - 1) < st.next {
    } else if h.seqNum > st.next {
      AheadGaps(cfg, st, h, data, e.now);
    } else {
      InOrderGaps(st, h, data, e.now);
    }
  }

  lemma NewGapIncreases(gaps: seq<GapEvent>, g: GapEvent)
    requires Increasing(gaps) && (gaps != [] ==> gaps[|gaps| - 1].first <= g.first)
    ensures Increasing(gaps + [g]) <==> gaps == [] || gaps[|gaps| - 1].first < g.first
  {
    if gaps != [] {
      var more := gaps + [g];
      var last := |gaps| - 1;
      assert more[last] == gaps[last] && more[last + 1] == g;
      if gaps[last].first < g.first {
        forall i, j | 0 <= i < j < |more|
          ensures more[i].first < more[j].first
        {
          assert more[i].first <= gaps[last].first;
        }
      }
    }
  }

  /** When exactly one more event keeps the gap reports strictly increasing. */
  lemma StepGaps(cfg: Config, st: State, e: Event)
    requires Inv(st) && Tracked(st) && Fits(e)
    ensures Tracked(Step(cfg, st, e)) && SoundGaps(st, Step(cfg, st, e), e)
    ensures Increasing(st.gaps) ==> (Increasing(Step(cfg, st, e).gaps) <==> !Repeats(st, e))
  {
    match e
    case Tick(now) => CheckKeepsGaps(cfg, st, now);
    case Datagram(payload, now) =>
      if ParseHeader(payload).Some? {
        var h := ParseHeader(payload).value;
        SyncKeeps(st, h);
        var synced := Sync(st, h);
        HeaderGaps(cfg, synced, h, e);
        if Increasing(st.gaps) && Step(cfg, st, e).gaps != st.gaps {
          NewGapIncreases(st.gaps, GapEvent(synced.next, h.seqNum - 1, now));
        }
      }
  }

  lemma {:induction false} RunTracked(cfg: Config, es: seq<Event>)
    requires AllFit(es)
    ensures Tracked(Run(cfg, es))
  {
    if es != [] {
      var n := |es| - 1;
      RunTracked(cfg, es[..n]);
      RunInv(cfg, es[..n]);
      StepGaps(cfg, Run(cfg, es[..n]), es[n]);
    }
  }

  /** Gap reports over every run: each is nonempty, starts at `next` and is wholly undelivered. */
  lemma ReportsAreMissingRanges(cfg: Config, es: seq<Event>, e: Event)
    requires AllFit(es) && Fits(e)
    ensures SoundGaps(Run(cfg, es), Run(cfg, es + [e]), e)
  {
    RunInv(cfg, es);
    RunTracked(cfg, es);
    assert (es + [e])[..|es|] == es;
    StepGaps(cfg, Run(cfg, es), e);
  }

  ghost predicate NeverRepeats(cfg: Config, es: seq<Event>) {
    forall n :: 0 <= n < |es| ==> !Repeats(Run(cfg, es[..n]), es[n])
  }

  lemma NeverRepeatsSoFar(cfg: Config, es: seq<Event>, n: nat)
    requires n + 1 == |es|
    ensures NeverRepeats(cfg, es) <==> NeverRepeats(cfg, es[..n]) && !Repeats(Run(cfg, es[..n]), es[n])
  {
    forall k | 0 <= k < n
      ensures es[..n][..k] == es[..k] && es[..n][k] == es[k]
    {
    }
  }

  lemma StepIncreases(cfg: Config, st: State, e: Event)
    requires Inv(st) && Tracked(st) && Fits(e)
    ensures Increasing(Step(cfg, st, e).gaps) <==> Increasing(st.gaps) && !Repeats(st, e)
  {
    StepGaps(cfg, st, e);
    MoreGaps(st, Step(cfg, st, e), e);
  }

  /** When exactly the first missing numbers reported over a run strictly increase: when no packet came
      early while the last report already named `next` and the tracker was empty. Then there is at
      most one more report than there are deliveries. */
  lemma {:induction false} GapReportsIncreaseExactly(cfg: Config, es: seq<Event>)
    requires AllFit(es)
    ensures Increasing(Run(cfg, es).gaps) <==> NeverRepeats(cfg, es)
    ensures NeverRepeats(cfg, es) ==> |Run(cfg, es).gaps| <= |Run(cfg, es).log| + 1
  {
    if es != [] {
      var n := |es| - 1;
      NeverRepeatsSoFar(cfg, es, n);
      GapReportsIncreaseExactly(cfg, es[..n]);
      RunInv(cfg, es[..n]);
      RunTracked(cfg, es[..n]);
      StepIncreases(cfg, Run(cfg, es[..n]), es[n]);
    }
    RunInv(cfg, es);
    RunTracked(cfg, es);
    if Increasing(Run(cfg, es).gaps) {
      FewReports(Run(cfg, es));
    }
  }

  lemma FewReports(st: State)
    requires Ordered(st) && Tracked(st) && Increasing(st.gaps)
    ensures |st.gaps| <= |st.log| + 1
  {
    SpreadOut(st.gaps, st.next - |st.log|, st.next);
  }

  lemma MoreGaps(st: State, st': State, e: Event)
    requires SoundGaps(st, st', e)
    ensures Increasing(st'.gaps) ==> Increasing(st.gaps)
  {
    assert st.gaps <= st'.gaps;
  }

  lemma {:induction false} SpreadOut(gaps: seq<GapEvent>, low: int, high: int)
    requires Increasing(gaps) && low <= high
    requires forall i :: 0 <= i < |gaps| ==> low <= gaps[i].first <= high
    ensures |gaps| <= high - low + 1
  {
    if gaps != [] {
      var last: int := gaps[|gaps| - 1].first;
      assert forall i :: 0 <= i < |gaps| - 1 ==> gaps[i].first < last;
      assert |gaps| > 1 ==> gaps[0].first < last;
      if low < last {
        SpreadOut(gaps[..|gaps| - 1], low, last - 1);
      }
    }
  }

  // ----- Runs in which the tracker can hold every gap -----

  /** Every datagram's range ends at least one ring below 2^64. */
  ghost predicate AllLeaveRing(es: seq<Event>) {
    forall i :: 0 <= i < |es| && es[i].Datagram? && ParseHeader(es[i].payload).Some? ==>
      var h := ParseHeader(es[i].payload).value;
      RingRoom(h.seqNum + h.msgCount)
  }

  ghost predicate SlotsBelow(ring: Ring) {
    forall i :: 0 <= i < CAPACITY && ring[i].Held? ==> RingRoom(ring[i].seqNum + ring[i].msgCount)
  }

  ghost predicate Below(st: State) {
    RingRoom(st.next) && SlotsBelow(st.ring)
  }

  lemma {:induction false} FlushBelow(st: State)
    requires Below(st)
    ensures Below(Flush(st))
    decreases Occupied(st.ring)
  {
    if Starts(st.ring, st.next) {
      OccupiedAfterFree(st.ring, Index(st.next));
      FlushBelow(FlushOne(st));
    }
  }

  lemma DataBelow(cfg: Config, st: State, h: MoldHeader, data: seq<byte>, now: u64)
    requires Below(st) && RingRoom(h.seqNum + h.msgCount) && h.msgCount > 0
    ensures Below(OnData(cfg, st, h, data, now))
  {
    if Wrap64(h.seqNum + h.msgCount - 1) >= st.next && h.seqNum <= st.next {
      FlushBelow(Deliver(st, h.seqNum, h.msgCount, data, now));
    }
  }

  lemma {:induction false} RunBelow(cfg: Config, es: seq<Event>)
    requires AllLeaveRing(es)
    ensures Below(Run(cfg, es))
  {
    if es != [] {
      var n := |es| - 1;
      RunBelow(cfg, es[..n]);
      if es[n].Datagram? && ParseHeader(es[n].payload).Some? {
        var h := ParseHeader(es[n].payload).value;
        var synced := Sync(Run(cfg, es[..n]), h);
        if h.msgCount > 0 {
          DataBelow(cfg, CountPacket(synced, h), h, es[n].payload[MOLD_HEADER_SIZE..], es[n].now);
        }
      }
    }
  }

  lemma {:induction false} RoomMeansFit(es: seq<Event>)
    requires AllLeaveRing(es)
    ensures AllFit(es)
  {
    forall i | 0 <= i < |es|
      ensures Fits(es[i])
    {
    }
  }

  /** A gap the tracker can hold is not reported twice. */
  lemma HeldIsNotRepeated(st: State, e: Event)
    requires Tracked(st) && (st.synced ==> Requestable(st.next))
    ensures !Repeats(st, e)
  {
  }

  lemma RunRequestable(cfg: Config, es: seq<Event>, n: nat)
    requires n <= |es| && AllLeaveRing(es[..n]) && AllFit(es[..n]) && SyncSeq(es) != Some(0)
    ensures Run(cfg, es[..n]).synced ==> Requestable(Run(cfg, es[..n]).next)
  {
    RunBelow(cfg, es[..n]);
    ExactlyOnceInOrder(cfg, es[..n]);
    SyncSeqOfPrefix(es, n);
  }

  /** Joined above 0 and with a ring of room below 2^64, no report is ever repeated. */
  lemma GapReportsIncrease(cfg: Config, es: seq<Event>)
    requires AllLeaveRing(es) && SyncSeq(es) != Some(0)
    ensures Increasing(Run(cfg, es).gaps)
    ensures |Run(cfg, es).gaps| <= |Run(cfg, es).log| + 1
  {
    forall n | 0 <= n < |es|
      ensures !Repeats(Run(cfg, es[..n]), es[n])
    {
      RoomMeansFit(es[..n]);
      RunTracked(cfg, es[..n]);
      RunRequestable(cfg, es, n);
      HeldIsNotRepeated(Run(cfg, es[..n]), es[n]);
    }
    RoomMeansFit(es);
    GapReportsIncreaseExactly(cfg, es);
  }

  /** A run that does repeat one: a heartbeat numbered 0 joins the stream at 0, and two packets come
      early; both reports name 0. */
  lemma JoinedAtZeroRepeats(cfg: Config, session: Session, now: u64)
    ensures var es := [Alone(MoldHeader(session, 0, 0), now), Alone(MoldHeader(session, 5, 1), now),
                       Alone(MoldHeader(session, 6, 1), now)];
            && Repeats(Run(cfg, es[..2]), es[2])
            && Run(cfg, es).gaps == [GapEvent(0, 4, now), GapEvent(0, 5, now)]
  {
    var five, six := MoldHeader(session, 5, 1), MoldHeader(session, 6, 1);
    var a, b, c := Alone(MoldHeader(session, 0, 0), now), Alone(five, now), Alone(six, now);
    assert [a, b, c][..2] == [a, b] && [a, b][..1] == [a];
    assert Run(cfg, [a, b]) == Step(cfg, Run(cfg, [a]), b);
    assert Run(cfg, [a, b, c]) == Step(cfg, Run(cfg, [a, b]), c);
    JoinAtZero(cfg, session, now);
    EarlyAtZero(cfg, Run(cfg, [a]), five, now);
    EarlyAtZero(cfg, Run(cfg, [a, b]), six, now);
    HeaderAlone(six);
  }

  /** A datagram that holds a header only. */
  function Alone(h: MoldHeader, now: u64): Event {
    Datagram(SerialiseHeader(h), now)
  }

  lemma JoinAtZero(cfg: Config, session: Session, now: u64)
    ensures var st := Run(cfg, [Alone(MoldHeader(session, 0, 0), now)]);
            st.synced && st.next == 0 && st.gaps == [] && st.gapStart == 0
  {
    var a := Alone(MoldHeader(session, 0, 0), now);
    HeaderAlone(MoldHeader(session, 0, 0));
    assert [a][..0] == [];
    assert Run(cfg, [a]) == Step(cfg, Init(cfg), a);
  }

  lemma HeaderAlone(h: MoldHeader)
    ensures ParseHeader(SerialiseHeader(h)) == Some(h) && SerialiseHeader(h)[MOLD_HEADER_SIZE..] == []
  {
    HeaderRoundTrip(h, []);
    assert SerialiseHeader(h) + [] == SerialiseHeader(h);
  }

  lemma EarlyAtZero(cfg: Config, st: State, h: MoldHeader, now: u64)
    requires st.synced && st.next == 0 && st.gapStart == 0 && h.msgCount == 1 && h.seqNum > 0
    ensures var st' := Step(cfg, st, Alone(h, now));
            && st'.synced && st'.next == 0 && st'.gapStart == 0
            && st'.gaps == st.gaps + [GapEvent(0, h.seqNum - 1, now)]
  {
    HeaderAlone(h);
    assert Step(cfg, st, Alone(h, now)) == OnHeader(cfg, st, h, [], now);
  }

  // ----- Requests belong to reported gaps -----

  /** The number a request starts at was reported as the start of a gap. */
  ghost predicate Reported(r: Retransmit, gaps: seq<GapEvent>) {
    exists i :: 0 <= i < |gaps| && gaps[i].first == r.first
  }

  ghost predicate Named(requests: seq<Retransmit>, gaps: seq<GapEvent>) {
    forall j :: 0 <= j < |requests| ==> Reported(requests[j], gaps)
  }

  lemma MoreNamed(requests: seq<Retransmit>, gaps: seq<GapEvent>, gaps': seq<GapEvent>)
    requires Named(requests, gaps) && gaps <= gaps'
    ensures Named(requests, gaps')
  {
    forall j | 0 <= j < |requests|
      ensures Reported(requests[j], gaps')
    {
      assert Reported(requests[j], gaps);
      var i :| 0 <= i < |gaps| && gaps[i].first == requests[j].first;
      assert gaps'[i] == gaps[i];
    }
  }

  lemma OneMoreNamed(requests: seq<Retransmit>, r: Retransmit, gaps: seq<GapEvent>)
    requires Named(requests, gaps) && gaps != [] && gaps[|gaps| - 1].first == r.first
    ensures Named(requests + [r], gaps)
  {
    forall j | 0 <= j < |requests + [r]|
      ensures Reported((requests + [r])[j], gaps)
    {
      if j < |requests| {
        assert (requests + [r])[j] == requests[j];
      }
    }
  }

  lemma StepNamed(cfg: Config, st: State, e: Event)
    requires Inv(st) && Tracked(st) && Fits(e) && Named(st.requests, st.gaps)
    ensures Named(Step(cfg, st, e).requests, Step(cfg, st, e).gaps)
  {
    var st' := Step(cfg, st, e);
    StepRequests(cfg, st, e);
    StepGaps(cfg, st, e);
    MoreNamed(st.requests, st.gaps, st'.gaps);
    if st'.requests != st.requests {
      assert LastGap(st') == st'.requests[|st.requests|].first;
      OneMoreNamed(st.requests, st'.requests[|st.requests|], st'.gaps);
    }
  }

  /** Over every run each request is for a gap that was reported. */
  lemma {:induction false} RequestsNameReportedGaps(cfg: Config, es: seq<Event>)
    requires AllFit(es)
    ensures Named(Run(cfg, es).requests, Run(cfg, es).gaps)
  {
    if es != [] {
      var n := |es| - 1;
      RequestsNameReportedGaps(cfg, es[..n]);
      RunInv(cfg, es[..n]);
      RunTracked(cfg, es[..n]);
      StepNamed(cfg, Run(cfg, es[..n]), es[n]);
    }
  }
}
