/** How often retransmit requests go out for one gap, on a clock that does not run backwards. */
module GapRate {
  import opened Bytes
  import opened Wire
  import opened GapModel
  import opened GapDelivery
  import opened GapRetransmit

  /** Event times never decrease, and are positive unless the limiter waits before a first request. */
  ghost predicate Steady(cfg: Config, es: seq<Event>) {
    && (cfg.gapTimeout > 0 || forall i :: 0 <= i < |es| ==> When(es[i]) > 0)
    && forall i, j :: 0 <= i < j < |es| ==> When(es[i]) <= When(es[j])
  }

  ghost function Clock(es: seq<Event>): u64 {
    if es == [] then 0 else When(es[|es| - 1])
  }

  /** Requests sent for the gap that starts at `first`. */
  function RequestsFor(requests: seq<Retransmit>, first: u64): nat {
    if requests == [] then 0
    else RequestsFor(requests[..|requests| - 1], first)
         + if requests[|requests| - 1].first == first then 1 else 0
  }

  /** The earliest time by which a gap reported at `at` may have produced k requests. */
  function Earliest(cfg: Config, at: u64, k: nat): int {
    if k == 0 then 0 else at + cfg.gapTimeout + (k - 1) * cfg.retryInterval
  }

  lemma EarliestNext(cfg: Config, at: u64, k: nat)
    requires k > 0
    ensures Earliest(cfg, at, k + 1) == Earliest(cfg, at, k) + cfg.retryInterval
    ensures Earliest(cfg, at, 1) == at + cfg.gapTimeout
  {
    calc {
      Earliest(cfg, at, k + 1);
      at + cfg.gapTimeout + (k - 1 + 1) * cfg.retryInterval;
      at + cfg.gapTimeout + (k - 1) * cfg.retryInterval + cfg.retryInterval;
    }
  }

  ghost predicate GapPaced(cfg: Config, st: State, t: u64, g: GapEvent) {
    t >= Earliest(cfg, g.at, RequestsFor(st.requests, g.first))
  }

  /** The open gap: its limiter remembers the last of its requests. */
  ghost predicate OpenPaced(cfg: Config, st: State, t: u64) {
    st.gapStart != 0 ==>
      var k := RequestsFor(st.requests, st.gapStart);
      && st.gapAt <= t && st.lastRequestAt <= t
      && (k == 0 <==> st.lastRequestAt == 0)
      && (k > 0 ==> st.lastRequestAt >= Earliest(cfg, st.gapAt, k))
  }

  /** No request yet names a gap still to come, or one the tracker cannot hold. */
  ghost predicate RequestsBehind(st: State) {
    forall j :: 0 <= j < |st.requests| ==>
      && Requestable(st.requests[j].first)
      && if st.gapStart == 0 then st.requests[j].first < st.next else st.requests[j].first <= st.next
  }

  /** Reports never go back, and repeat only a number no request can name. */
  ghost predicate Rising(gaps: seq<GapEvent>) {
    forall i, j :: 0 <= i < j < |gaps| ==>
      gaps[i].first < gaps[j].first || (gaps[i].first == gaps[j].first && !Requestable(gaps[i].first))
  }

  ghost predicate Paced(cfg: Config, st: State, t: u64) {
    && (forall i :: 0 <= i < |st.gaps| ==> GapPaced(cfg, st, t, st.gaps[i]))
    && OpenPaced(cfg, st, t)
    && RequestsBehind(st)
  }

  lemma {:induction false} NoneFor(requests: seq<Retransmit>, first: u64)
    requires forall j :: 0 <= j < |requests| ==> requests[j].first != first
    ensures RequestsFor(requests, first) == 0
  {
    if requests != [] {
      NoneFor(requests[..|requests| - 1], first);
    }
  }

  lemma Later(cfg: Config, st: State, t: u64, t': u64)
    requires Paced(cfg, st, t) && t <= t'
    ensures Paced(cfg, st, t')
  {
    forall i | 0 <= i < |st.gaps|
      ensures GapPaced(cfg, st, t', st.gaps[i])
    {
      assert GapPaced(cfg, st, t, st.gaps[i]);
    }
  }

  /** The pace depends only on these fields. */
  lemma SamePace(cfg: Config, st: State, st': State, t: u64)
    requires Paced(cfg, st, t)
    requires st'.gaps == st.gaps && st'.requests == st.requests && st'.next >= st.next
    requires st'.gapStart != 0 ==> && st'.gapStart == st.gapStart && st'.gapAt == st.gapAt
                                   && st'.lastRequestAt == st.lastRequestAt
    requires st'.gapStart == 0 && st.gapStart != 0 ==> st'.next > st.next
    ensures Paced(cfg, st', t)
  {
    forall i | 0 <= i < |st'.gaps|
      ensures GapPaced(cfg, st', t, st'.gaps[i])
    {
      assert GapPaced(cfg, st, t, st.gaps[i]);
    }
  }

  /** Opening a gap at `next`: no request can be for it yet. */
  lemma HandleGapPaced(cfg: Config, st: State, received: u64, now: u64)
    requires Paced(cfg, st, now) && received > 0
    ensures Paced(cfg, HandleGap(st, received, now), now)
  {
    var st' := HandleGap(st, received, now);
    if st.gapStart == 0 {
      NoneFor(st.requests, st.next);
      forall i | 0 <= i < |st'.gaps|
        ensures GapPaced(cfg, st', now, st'.gaps[i])
      {
        if i < |st.gaps| {
          assert GapPaced(cfg, st, now, st.gaps[i]);
        }
      }
    }
  }

  /** Giving up a gap no request can name changes no pace. */
  lemma AbandonPaced(cfg: Config, st: State, now: u64)
    requires Paced(cfg, st, now) && st.gapStart == st.next && !RingRoom(st.next)
    ensures Paced(cfg, st.(gapStart := 0), now)
  {
    forall i | 0 <= i < |st.gaps|
      ensures GapPaced(cfg, st.(gapStart := 0), now, st.gaps[i])
    {
      assert GapPaced(cfg, st, now, st.gaps[i]);
    }
  }

  /** Sending the request that is due, for the gap reported last. */
  lemma RequestPaced(cfg: Config, st: State, r: Retransmit, now: u64)
    requires Tracked(st) && Rising(st.gaps) && Paced(cfg, st, now) && RequestDue(cfg, st, now)
    requires st.gapStart == st.next == r.first && Requestable(r.first)
    requires now > 0 || cfg.gapTimeout > 0
    ensures Paced(cfg, st.(requests := st.requests + [r], lastRequestAt := now), now)
  {
    var st' := st.(requests := st.requests + [r], lastRequestAt := now);
    assert st'.requests[..|st'.requests| - 1] == st.requests;
    var k := RequestsFor(st.requests, st.gapStart);
    assert RequestsFor(st'.requests, st.gapStart) == k + 1;
    EarliestNext(cfg, st.gapAt, if k > 0 then k else 1);
    assert now >= Earliest(cfg, st.gapAt, k + 1) && now > 0;
    forall i | 0 <= i < |st.gaps|
      ensures GapPaced(cfg, st', now, st.gaps[i])
    {
      assert GapPaced(cfg, st, now, st.gaps[i]);
      if i < |st.gaps| - 1 {
        assert st.gaps[i].first < st.gaps[|st.gaps| - 1].first;
      }
    }
  }

  lemma CheckPaced(cfg: Config, st: State, now: u64)
    requires Settled(st) && Tracked(st) && Rising(st.gaps) && Paced(cfg, st, now)
    requires now > 0 || cfg.gapTimeout > 0
    ensures Paced(cfg, CheckTimeout(cfg, st, now), now)
  {
    CheckContent(cfg, st, now);
    if Due(cfg, st, now) {
      if RingRoom(st.next) {
        RequestPaced(cfg, st, CheckTimeout(cfg, st, now).requests[|st.requests|], now);
      } else {
        AbandonPaced(cfg, st, now);
      }
    }
  }

  lemma BeatPaced(cfg: Config, st: State, now: u64)
    requires Settled(st) && Tracked(st) && Rising(st.gaps) && Paced(cfg, st, now)
    requires now > 0 || cfg.gapTimeout > 0
    ensures Paced(cfg, CheckTimeout(cfg, st.(stats := st.stats.(heartbeats := st.stats.heartbeats + 1)), now), now)
  {
    var beat := st.(stats := st.stats.(heartbeats := st.stats.heartbeats + 1));
    SamePace(cfg, st, beat, now);
    CheckPaced(cfg, beat, now);
  }

  lemma HeaderPaced(cfg: Config, st: State, h: MoldHeader, data: seq<byte>, now: u64)
    requires Inv(st) && st.synced && InSpace(h.seqNum, h.msgCount)
    requires Tracked(st) && Rising(st.gaps) && Paced(cfg, st, now) && (now > 0 || cfg.gapTimeout > 0)
    ensures Paced(cfg, OnHeader(cfg, st, h, data, now), now)
  {
    if h.msgCount == 0 {
      BeatPaced(cfg, st, now);
    } else {
      CountedPaced(cfg, st, h, data, now);
      assert OnHeader(cfg, st, h, data, now) == OnData(cfg, CountPacket(st, h), h, data, now);
    }
  }

  lemma CountedPaced(cfg: Config, st: State, h: MoldHeader, data: seq<byte>, now: u64)
    requires Inv(st) && st.synced && InSpace(h.seqNum, h.msgCount) && h.msgCount > 0
    requires Tracked(st) && Rising(st.gaps) && Paced(cfg, st, now) && (now > 0 || cfg.gapTimeout > 0)
    ensures Paced(cfg, OnData(cfg, CountPacket(st, h), h, data, now), now)
  {
    SamePace(cfg, st, CountPacket(st, h), now);
    DataPaced(cfg, CountPacket(st, h), h, data, now);
  }

  lemma DataPaced(cfg: Config, st: State, h: MoldHeader, data: seq<byte>, now: u64)
    requires Inv(st) && st.synced && InSpace(h.seqNum, h.msgCount) && h.msgCount > 0
    requires Tracked(st) && Rising(st.gaps) && Paced(cfg, st, now) && (now > 0 || cfg.gapTimeout > 0)
    ensures Paced(cfg, OnData(cfg, st, h, data, now), now)
  {
    if Wrap64(h.seqNum + h.msgCount - 1) < st.next {
      SamePace(cfg, st, st.(stats := st.stats.(duplicates := st.stats.duplicates + 1)), now);
    } else if h.seqNum > st.next {
      AheadPaced(cfg, st, h, data, now);
    } else {
      InOrderPaced(cfg, st, h, data, now);
    }
  }

  lemma InOrderPaced(cfg: Config, st: State, h: MoldHeader, data: seq<byte>, now: u64)
    requires Inv(st) && st.synced && InSpace(h.seqNum, h.msgCount) && h.seqNum <= st.next
    requires Tracked(st) && Paced(cfg, st, now)
    ensures Paced(cfg, ClearGap(Flush(Deliver(st, h.seqNum, h.msgCount, data, now))), now)
  {
    InOrderGaps(st, h, data, now);
    SamePace(cfg, st, ClearGap(Flush(Deliver(st, h.seqNum, h.msgCount, data, now))), now);
  }

  lemma AheadPaced(cfg: Config, st: State, h: MoldHeader, data: seq<byte>, now: u64)
    requires Inv(st) && st.synced && InSpace(h.seqNum, h.msgCount) && h.seqNum > st.next
    requires Tracked(st) && Rising(st.gaps) && Paced(cfg, st, now) && (now > 0 || cfg.gapTimeout > 0)
    ensures Paced(cfg, CheckTimeout(cfg, BufferPacket(HandleGap(st, h.seqNum, now), h, data, now), now), now)
  {
    var gapped := HandleGap(st, h.seqNum, now);
    AheadSettled(st, h, data, now);
    AheadTracked(st, h.seqNum, now);
    HandleGapPaced(cfg, st, h.seqNum, now);
    BufferedPaced(cfg, gapped, h, data, now);
  }

  lemma BufferedPaced(cfg: Config, st: State, h: MoldHeader, data: seq<byte>, now: u64)
    requires Settled(BufferPacket(st, h, data, now))
    requires Tracked(st) && Rising(st.gaps) && Paced(cfg, st, now) && (now > 0 || cfg.gapTimeout > 0)
    ensures Paced(cfg, CheckTimeout(cfg, BufferPacket(st, h, data, now), now), now)
  {
    var buffered := BufferPacket(st, h, data, now);
    assert (buffered.gaps, buffered.requests, buffered.next, buffered.gapStart)
        == (st.gaps, st.requests, st.next, st.gapStart);
    assert (buffered.gapAt, buffered.lastRequestAt, buffered.log) == (st.gapAt, st.lastRequestAt, st.log);
    SamePace(cfg, st, buffered, now);
    CheckPaced(cfg, buffered, now);
  }

  lemma AheadTracked(st: State, received: u64, now: u64)
    requires |st.log| <= st.next < received && Tracked(st) && Rising(st.gaps)
    ensures var st' := HandleGap(st, received, now);
            Tracked(st') && Rising(st'.gaps)
  {
    if st.gapStart == 0 {
      NewGapRises(st, GapEvent(st.next, received - 1, now));
    }
  }

  lemma NewGapRises(st: State, g: GapEvent)
    requires Tracked(st) && st.gapStart == 0 && Rising(st.gaps) && g.first == st.next
    ensures Rising(st.gaps + [g])
  {
    var more := st.gaps + [g];
    forall i, j | 0 <= i < j < |more|
      ensures more[i].first < more[j].first || (more[i].first == more[j].first && !Requestable(more[i].first))
    {
      if j < |st.gaps| {
        assert more[i] == st.gaps[i] && more[j] == st.gaps[j];
      } else {
        assert st.gaps[i].first <= st.next;
        assert st.gaps[i].first <= LastGap(st);
      }
    }
  }

  /** Reports rise over every run. */
  lemma {:induction false} RunRising(cfg: Config, es: seq<Event>)
    requires AllFit(es)
    ensures Rising(Run(cfg, es).gaps)
  {
    if es != [] {
      var n := |es| - 1;
      RunRising(cfg, es[..n]);
      RunInv(cfg, es[..n]);
      RunTracked(cfg, es[..n]);
      StepRises(cfg, Run(cfg, es[..n]), es[n]);
    }
  }

  lemma HeaderRises(cfg: Config, st: State, h: MoldHeader, e: Event)
    requires Inv(st) && st.synced && InSpace(h.seqNum, h.msgCount) && Tracked(st) && Rising(st.gaps)
    requires e.Datagram? && ParseHeader(e.payload) == Some(h)
    ensures Rising(OnHeader(cfg, st, h, e.payload[MOLD_HEADER_SIZE..], e.now).gaps)
  {
    HeaderGaps(cfg, st, h, e);
    var gaps := OnHeader(cfg, st, h, e.payload[MOLD_HEADER_SIZE..], e.now).gaps;
    if gaps != st.gaps {
      var g := GapEvent(st.next, h.seqNum - 1, e.now);
      assert gaps == st.gaps + [g];
      NewGapRises(st, g);
    }
  }

  lemma StepRises(cfg: Config, st: State, e: Event)
    requires Inv(st) && Tracked(st) && Fits(e) && Rising(st.gaps)
    ensures Rising(Step(cfg, st, e).gaps)
  {
    match e
    case Tick(now) => CheckKeepsGaps(cfg, st, now);
    case Datagram(payload, now) =>
      if ParseHeader(payload).Some? {
        var h := ParseHeader(payload).value;
        SyncKeeps(st, h);
        HeaderRises(cfg, Sync(st, h), h, e);
      }
  }

  lemma StepPaced(cfg: Config, st: State, e: Event, t: u64)
    requires Inv(st) && Fits(e) && Tracked(st) && Rising(st.gaps) && Paced(cfg, st, t)
    requires t <= When(e) && (When(e) > 0 || cfg.gapTimeout > 0)
    ensures Paced(cfg, Step(cfg, st, e), When(e))
  {
    Later(cfg, st, t, When(e));
    match e
    case Tick(now) => CheckPaced(cfg, st, now);
    case Datagram(payload, now) =>
      if ParseHeader(payload).Some? {
        var h := ParseHeader(payload).value;
        SyncKeeps(st, h);
        SamePace(cfg, st, Sync(st, h), now);
        HeaderPaced(cfg, Sync(st, h), h, payload[MOLD_HEADER_SIZE..], now);
      }
  }

  lemma {:induction false} RunPaced(cfg: Config, es: seq<Event>)
    requires AllFit(es) && Steady(cfg, es)
    ensures Paced(cfg, Run(cfg, es), Clock(es))
  {
    if es != [] {
      var n := |es| - 1;
      RunPaced(cfg, es[..n]);
      RunInv(cfg, es[..n]);
      RunTracked(cfg, es[..n]);
      RunRising(cfg, es[..n]);
      StepPaced(cfg, Run(cfg, es[..n]), es[n], Clock(es[..n]));
    }
  }

  /** The rate bound. Take any gap report g of any run, and let k be the number of requests sent for
      that gap by now. If k > 0 then at least gapTimeout plus k - 1 retry intervals have passed
      since the gap was reported. */
  lemma RequestRateBound(cfg: Config, es: seq<Event>, i: nat)
    requires AllFit(es) && Steady(cfg, es) && i < |Run(cfg, es).gaps|
    ensures var g := Run(cfg, es).gaps[i];
            var k := RequestsFor(Run(cfg, es).requests, g.first);
            k > 0 ==> Clock(es) - g.at >= cfg.gapTimeout + (k - 1) * cfg.retryInterval
  {
    RunPaced(cfg, es);
    assert GapPaced(cfg, Run(cfg, es), Clock(es), Run(cfg, es).gaps[i]);
  }

  // ----- When exactly a request goes out -----

  /** A check at or after the detection, or the last request, sends one exactly when the timeout, or the
      retry interval, has passed since. */
  lemma TimelyRequestExactly(cfg: Config, st: State, now: u64)
    requires Settled(st) && st.gapStart != 0 && cfg.onRetransmit && RingRoom(st.next)
    ensures var base: int := if st.lastRequestAt == 0 then st.gapAt else st.lastRequestAt;
            var interval: int := if st.lastRequestAt == 0 then cfg.gapTimeout else cfg.retryInterval;
            base <= now ==> (|CheckTimeout(cfg, st, now).requests| == |st.requests| + 1 <==> now - base >= interval)
  {
    CheckContent(cfg, st, now);
  }

  /** A packet with messages that starts above n. */
  ghost predicate Early(e: Event, n: u64) {
    DataStart(e).Some? && DataStart(e).value > n
  }

  /** The events that look at the timer: ticks, heartbeats and packets that come early. */
  ghost predicate LooksAtTimer(e: Event, n: u64) {
    || e.Tick?
    || Early(e, n)
    || (e.Datagram? && ParseHeader(e.payload).Some? && ParseHeader(e.payload).value.msgCount == 0)
  }

  /** The time of event e comes after what the limiter remembers. */
  predicate NotBefore(st: State, now: u64) {
    st.gapStart != 0 ==> (if st.lastRequestAt == 0 then st.gapAt else st.lastRequestAt) <= now
  }

  /** An event that looks at the timer when the interval of an open gap is over, or opens a gap with no
      timeout to wait for. */
  ghost predicate RequestTime(cfg: Config, st: State, e: Event) {
    && cfg.onRetransmit && LooksAtTimer(e, st.next)
    && if st.gapStart == 0 then Early(e, st.next) && cfg.gapTimeout == 0
       else if st.lastRequestAt == 0 then When(e) - st.gapAt >= cfg.gapTimeout
       else When(e) - st.lastRequestAt >= cfg.retryInterval
  }

  /** One request more, or none. */
  predicate Sends(st: State, st': State, yes: bool) {
    |st'.requests| == |st.requests| + if yes then 1 else 0
  }

  lemma CheckSends(cfg: Config, st: State, now: u64)
    requires Settled(st) && RingRoom(st.next) && NotBefore(st, now)
    ensures Sends(st, CheckTimeout(cfg, st, now),
                  && st.gapStart != 0 && cfg.onRetransmit
                  && if st.lastRequestAt == 0 then now - st.gapAt >= cfg.gapTimeout
                     else now - st.lastRequestAt >= cfg.retryInterval)
  {
    CheckContent(cfg, st, now);
    if st.gapStart != 0 && cfg.onRetransmit {
      TimelyRequestExactly(cfg, st, now);
    }
  }

  lemma EarlySends(cfg: Config, st: State, h: MoldHeader, data: seq<byte>, now: u64)
    requires Inv(st) && st.synced && InSpace(h.seqNum, h.msgCount) && h.msgCount > 0 && h.seqNum > st.next
    requires Requestable(st.next) && NotBefore(st, now)
    ensures Sends(st, OnHeader(cfg, st, h, data, now),
                  && cfg.onRetransmit
                  && if st.gapStart == 0 then cfg.gapTimeout == 0
                     else if st.lastRequestAt == 0 then now - st.gapAt >= cfg.gapTimeout
                     else now - st.lastRequestAt >= cfg.retryInterval)
  {
    var counted := CountPacket(st, h);
    var buffered := BufferPacket(HandleGap(counted, h.seqNum, now), h, data, now);
    AheadSettled(counted, h, data, now);
    CheckSends(cfg, buffered, now);
    assert OnHeader(cfg, st, h, data, now) == CheckTimeout(cfg, buffered, now);
  }

  lemma ReachedSends(cfg: Config, st: State, h: MoldHeader, data: seq<byte>, now: u64)
    requires Inv(st) && st.synced && InSpace(h.seqNum, h.msgCount) && h.msgCount > 0 && h.seqNum <= st.next
    ensures OnHeader(cfg, st, h, data, now).requests == st.requests
  {
    InOrderFlush(CountPacket(st, h), h, data, now);
  }

  /** One event sends a request exactly at request time. */
  lemma EventSendsExactly(cfg: Config, st: State, e: Event)
    requires Inv(st) && st.synced && Fits(e) && Requestable(st.next) && NotBefore(st, When(e))
    ensures Sends(st, Step(cfg, st, e), RequestTime(cfg, st, e))
  {
    match e
    case Tick(now) => CheckSends(cfg, st, now);
    case Datagram(payload, now) =>
      if ParseHeader(payload).Some? {
        var h, data := ParseHeader(payload).value, payload[MOLD_HEADER_SIZE..];
        assert Step(cfg, st, e) == OnHeader(cfg, st, h, data, now);
        if h.msgCount == 0 {
          CheckSends(cfg, st.(stats := st.stats.(heartbeats := st.stats.heartbeats + 1)), now);
        } else if h.seqNum > st.next {
          EarlySends(cfg, st, h, data, now);
        } else {
          ReachedSends(cfg, st, h, data, now);
        }
      }
  }

  lemma SteadySoFar(cfg: Config, es: seq<Event>, e: Event)
    requires Steady(cfg, es + [e])
    ensures Steady(cfg, es) && Clock(es) <= When(e)
  {
    var all := es + [e];
    assert forall i :: 0 <= i < |es| ==> all[i] == es[i];
    assert all[|es|] == e;
  }

  /** Over every run on a steady clock: requests go out exactly at request time, the first after the
      timeout and the retries after their interval, on ticks, heartbeats and early packets alike. */
  lemma RequestsGoOutExactly(cfg: Config, es: seq<Event>, e: Event)
    requires AllFit(es) && Fits(e) && Steady(cfg, es + [e])
    requires Run(cfg, es).synced && Requestable(Run(cfg, es).next)
    ensures Sends(Run(cfg, es), Run(cfg, es + [e]), RequestTime(cfg, Run(cfg, es), e))
  {
    assert (es + [e])[..|es|] == es;
    SteadySoFar(cfg, es, e);
    RunInv(cfg, es);
    RunPaced(cfg, es);
    EventSendsExactly(cfg, Run(cfg, es), e);
  }

  // ----- Without a steady clock -----

  /** When exactly a check sends a request too early: when its time lies before the detection, or
      before the last request, by so much that the wrapped difference reaches the interval. */
  lemma EarlyRequestExactly(cfg: Config, st: State, now: u64)
    requires Settled(st) && st.gapStart != 0 && cfg.onRetransmit && RingRoom(st.next)
    ensures var base: int := if st.lastRequestAt == 0 then st.gapAt else st.lastRequestAt;
            var interval: int := if st.lastRequestAt == 0 then cfg.gapTimeout else cfg.retryInterval;
            |CheckTimeout(cfg, st, now).requests| == |st.requests| + 1 && now - base < interval
            <==> now < base && base - now <= U64_MOD - interval
  {
    CheckContent(cfg, st, now);
    var base: int := if st.lastRequestAt == 0 then st.gapAt else st.lastRequestAt;
    assert now < base ==> Wrap64(now - base) == U64_MOD + now - base;
  }

  /** Time 0 reads as "no request yet": with no timeout, every check at time 0 sends one more,
      whatever the retry interval. */
  lemma TimeZeroRequestsEachCheck(cfg: Config, st: State)
    requires Settled(st) && st.gapStart != 0 && cfg.onRetransmit && RingRoom(st.next)
    requires cfg.gapTimeout == 0 && st.gapAt == 0 && st.lastRequestAt == 0
    ensures var once := CheckTimeout(cfg, st, 0);
            && |once.requests| == |st.requests| + 1 && once.lastRequestAt == 0
            && |CheckTimeout(cfg, once, 0).requests| == |st.requests| + 2
  {
    CheckContent(cfg, st, 0);
    CheckContent(cfg, CheckTimeout(cfg, st, 0), 0);
  }
}
