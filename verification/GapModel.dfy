/** The sequenced-delivery state machine of the gap buffer, as functions on values.
    Callbacks are traces: `log` is what on_message saw, `gaps` what on_gap saw and `requests`
    what on_retransmit saw. All sequence and time arithmetic is unsigned 64-bit. */
module GapModel {
  import opened Bytes
  import opened Wire

  const CAPACITY := 4096
  const MAX_PACKET_BYTES := 1500

  /** A ring slot; an occupied one holds what buffer_packet copied into it. */
  datatype Slot = Empty | Held(seqNum: u64, msgCount: u16, recv: u64, data: seq<byte>)

  type Ring = r: seq<Slot> | |r| == CAPACITY witness seq(CAPACITY, _ => Empty)

  datatype Delivery = Delivery(seqNum: u64, body: seq<byte>, recv: u64)
  datatype GapEvent = GapEvent(first: u64, last: u64, at: u64)
  datatype Retransmit = Retransmit(session: Session, first: u64, count: u16, at: u64)

  datatype Config = Config(
    gapTimeout: u64, retryInterval: u64, maxCount: u16, session: Session, onRetransmit: bool)

  datatype Stats = Stats(packets: nat, messages: nat, duplicates: nat, heartbeats: nat, overflows: nat)

  datatype State = State(
    synced: bool, session: Session, next: u64,
    gapStart: u64, gapAt: u64, lastRequestAt: u64,
    ring: Ring,
    log: seq<Delivery>, gaps: seq<GapEvent>, requests: seq<Retransmit>,
    stats: Stats)

  function Init(cfg: Config): State {
    State(false, cfg.session, 0, 0, 0, 0, seq(CAPACITY, _ => Empty), [], [], [], Stats(0, 0, 0, 0, 0))
  }

  // ----- Delivery -----

  /** The deliveries of consecutive bodies numbered from `at`, skipping numbers below `next`. */
  function Accepted(bodies: seq<seq<byte>>, at: u64, next: u64, recv: u64): seq<Delivery> {
    if bodies == [] then []
    else (if at >= next then [Delivery(at, bodies[0], recv)] else [])
         + Accepted(bodies[1..], Wrap64(at + 1), next, recv)
  }

  function Max(a: u64, b: u64): u64 { if a > b then a else b }

  function Deliver(st: State, first: u64, count: u16, data: seq<byte>, recv: u64): State {
    var bodies := Frames(data, count);
    st.(log := st.log + Accepted(bodies, first, st.next, recv),
        next := Max(Wrap64(first + |bodies|), st.next))
  }

  // ----- The ring -----

  function Index(n: u64): (i: nat)
    ensures i < CAPACITY
  {
    n % CAPACITY
  }

  /** A buffered packet starts exactly at sequence number n. */
  predicate Starts(ring: Ring, n: u64) {
    var slot := ring[Index(n)];
    slot.Held? && slot.seqNum == n
  }

  ghost function Occupied(ring: seq<Slot>): nat {
    |set i: nat | i < |ring| && ring[i].Held?|
  }

  lemma OccupiedAfterFree(ring: seq<Slot>, i: nat)
    requires i < |ring| && ring[i].Held?
    ensures Occupied(ring[i := Empty]) == Occupied(ring) - 1
  {
    var before := set j: nat | j < |ring| && ring[j].Held?;
    var freed := ring[i := Empty];
    var after := set j: nat | j < |freed| && freed[j].Held?;
    assert after == before - {i};
  }

  /** One iteration of the flush: hand on the packet buffered at `next` and free its slot. */
  function FlushOne(st: State): State
    requires Starts(st.ring, st.next)
  {
    var slot := st.ring[Index(st.next)];
    Deliver(st, slot.seqNum, slot.msgCount, slot.data, slot.recv)
      .(ring := st.ring[Index(st.next) := Empty])
  }

  ghost function Flush(st: State): State
    decreases Occupied(st.ring)
  {
    if !Starts(st.ring, st.next) then st
    else
      OccupiedAfterFree(st.ring, Index(st.next));
      Flush(FlushOne(st))
  }

  function BufferPacket(st: State, h: MoldHeader, data: seq<byte>, now: u64): State {
    var slot := st.ring[Index(h.seqNum)];
    if slot.Held? && slot.seqNum != h.seqNum then
      st.(stats := st.stats.(overflows := st.stats.overflows + 1))
    else
      var kept := if |data| <= MAX_PACKET_BYTES then data else data[..MAX_PACKET_BYTES];
      st.(ring := st.ring[Index(h.seqNum) := Held(h.seqNum, h.msgCount, now, kept)])
  }

  // ----- The gap tracker and the retransmit limiter -----

  function HandleGap(st: State, received: u64, now: u64): State
    requires received > 0
  {
    if st.gapStart != 0 then st
    else st.(gapStart := st.next, gapAt := now, lastRequestAt := 0,
             gaps := st.gaps + [GapEvent(st.next, received - 1, now)])
  }

  /** The counting loop of a request, k sequence numbers into it. */
  function CountMissing(ring: Ring, start: u64, k: nat, max: u16): nat
    requires k <= CAPACITY && start + CAPACITY < U64_MOD
    decreases CAPACITY - k
  {
    if k == CAPACITY || Starts(ring, start + k) then k
    else if k + 1 >= max then k + 1
    else CountMissing(ring, start, k + 1, max)
  }

  /** The loop bound `start + CAPACITY` wraps around at the top of the number space. */
  function Missing(ring: Ring, start: u64, max: u16): nat {
    if start + CAPACITY >= U64_MOD then 0 else CountMissing(ring, start, 0, max)
  }

  predicate RequestDue(cfg: Config, st: State, now: u64) {
    if st.lastRequestAt == 0 then Wrap64(now - st.gapAt) >= cfg.gapTimeout
    else Wrap64(now - st.lastRequestAt) >= cfg.retryInterval
  }

  function CheckTimeout(cfg: Config, st: State, now: u64): State {
    if st.gapStart == 0 || !RequestDue(cfg, st, now) || !cfg.onRetransmit then st
    else
      var missing := Missing(st.ring, st.gapStart, cfg.maxCount);
      if missing == 0 then st.(gapStart := 0)
      else st.(requests := st.requests + [Retransmit(st.session, st.gapStart, missing % U16_MOD, now)],
               lastRequestAt := now)
  }

  // ----- Entry points -----

  /** The first parsed header fixes the session and the first expected sequence number. */
  function Sync(st: State, h: MoldHeader): State {
    if st.next == 0 && !st.synced then st.(session := h.session, next := h.seqNum, synced := true)
    else st
  }

  function ClearGap(st: State): State {
    if st.gapStart != 0 && st.next > st.gapStart then st.(gapStart := 0) else st
  }

  function CountPacket(st: State, h: MoldHeader): State {
    st.(stats := st.stats.(packets := st.stats.packets + 1, messages := st.stats.messages + h.msgCount))
  }

  ghost function OnData(cfg: Config, st: State, h: MoldHeader, data: seq<byte>, now: u64): State
    requires h.msgCount > 0
  {
    if Wrap64(h.seqNum + h.msgCount - 1) < st.next then
      st.(stats := st.stats.(duplicates := st.stats.duplicates + 1))
    else if h.seqNum > st.next then
      CheckTimeout(cfg, BufferPacket(HandleGap(st, h.seqNum, now), h, data, now), now)
    else
      ClearGap(Flush(Deliver(st, h.seqNum, h.msgCount, data, now)))
  }

  ghost function OnHeader(cfg: Config, st: State, h: MoldHeader, data: seq<byte>, now: u64): State {
    if h.msgCount == 0 then
      CheckTimeout(cfg, st.(stats := st.stats.(heartbeats := st.stats.heartbeats + 1)), now)
    else
      OnData(cfg, CountPacket(st, h), h, data, now)
  }

  ghost function Ingest(cfg: Config, st: State, payload: seq<byte>, now: u64): State {
    match ParseHeader(payload)
    case None => st
    case Some(h) => OnHeader(cfg, Sync(st, h), h, payload[MOLD_HEADER_SIZE..], now)
  }

  /** The return value: messages delivered by this call, or -1 for an unparsable datagram. */
  ghost function IngestResult(cfg: Config, st: State, payload: seq<byte>, now: u64): int {
    if ParseHeader(payload).None? then -1
    else |Ingest(cfg, st, payload, now).log| - |st.log|
  }

  // ----- Runs -----

  datatype Event = Datagram(payload: seq<byte>, now: u64) | Tick(now: u64)

  ghost function Step(cfg: Config, st: State, e: Event): State {
    match e
    case Datagram(payload, now) => Ingest(cfg, st, payload, now)
    case Tick(now) => CheckTimeout(cfg, st, now)
  }

  /** The state after a sequence of events from a fresh buffer. */
  ghost function Run(cfg: Config, es: seq<Event>): State {
    if es == [] then Init(cfg) else Step(cfg, Run(cfg, es[..|es| - 1]), es[|es| - 1])
  }
}
