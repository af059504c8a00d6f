/** The gap buffer as the object that mutates its fields and its 4096-slot array. */
module GapBuffer {
  import opened Bytes
  import opened Wire
  import M = GapModel

  /** The walk as the cursor sees it. */
  function FramesFrom(payload: seq<byte>, cursor: nat, count: nat): seq<seq<byte>>
    decreases count
  {
    if count == 0 || cursor + 2 > |payload| then []
    else
      var stop := cursor + 2 + Be16(payload, cursor);
      if stop > |payload| then [] else [payload[cursor + 2..stop]] + FramesFrom(payload, stop, count - 1)
  }

  lemma LengthOfRest(payload: seq<byte>, cursor: nat, data: seq<byte>)
    requires cursor + 2 <= |payload| && data == payload[cursor..]
    ensures Be16(data, 0) == Be16(payload, cursor)
  {
    assert data[0..2] == payload[cursor..cursor + 2];
  }

  lemma PartsOfRest(payload: seq<byte>, cursor: nat, data: seq<byte>, stop: nat)
    requires cursor + 2 <= stop <= |payload| && data == payload[cursor..]
    ensures data[2..stop - cursor] == payload[cursor + 2..stop] && data[stop - cursor..] == payload[stop..]
  {
  }

  /** One step of the cursor, with its parts named. */
  lemma CursorStep(payload: seq<byte>, cursor: nat, count: nat, n: nat, body: seq<byte>)
    requires count > 0 && cursor + 2 + n <= |payload| && Be16(payload, cursor) == n
    requires body == payload[cursor + 2..cursor + 2 + n]
    ensures FramesFrom(payload, cursor, count) == [body] + FramesFrom(payload, cursor + 2 + n, count - 1)
  {
  }

  /** A message that does not fit ends both walks. */
  lemma CursorStops(payload: seq<byte>, cursor: nat, count: nat, data: seq<byte>)
    requires cursor <= |payload| && data == payload[cursor..]
    requires count == 0 || cursor + 2 > |payload| || cursor + 2 + Be16(payload, cursor) > |payload|
    ensures FramesFrom(payload, cursor, count) == [] && Frames(data, count) == []
  {
    if count > 0 && cursor + 2 <= |payload| {
      LengthOfRest(payload, cursor, data);
    }
  }

  /** Walking with a cursor finds the messages of the bytes from there on. */
  lemma {:induction false} FramesFromCursor(payload: seq<byte>, cursor: nat, count: nat, data: seq<byte>)
    requires cursor <= |payload| && data == payload[cursor..]
    ensures FramesFrom(payload, cursor, count) == Frames(data, count)
    decreases count
  {
    if count == 0 || cursor + 2 > |payload| || cursor + 2 + Be16(payload, cursor) > |payload| {
      CursorStops(payload, cursor, count, data);
    } else {
      var n: nat := Be16(payload, cursor);
      var stop := cursor + 2 + n;
      var body, rest := payload[cursor + 2..stop], payload[stop..];
      calc {
        FramesFrom(payload, cursor, count);
        { CursorStep(payload, cursor, count, n, body); }
        [body] + FramesFrom(payload, stop, count - 1);
        { FramesFromCursor(payload, stop, count - 1, rest); }
        [body] + Frames(rest, count - 1);
        {
          LengthOfRest(payload, cursor, data);
          PartsOfRest(payload, cursor, data, stop);
          FramesUnfold(data, count, n, body, rest);
        }
        Frames(data, count);
      }
    }
  }

  /** In the middle of a packet: delivering the messages from the cursor on, numbered from `at`, leads
      to the log `goal` and the number `end`. */
  ghost predicate Walking(payload: seq<byte>, cursor: nat, left: nat, log: seq<M.Delivery>, at: u64,
                          next: u64, recv: u64, goal: seq<M.Delivery>, end: u64)
  {
    var rest := FramesFrom(payload, cursor, left);
    (log + M.Accepted(rest, at, next, recv), Wrap64(at + |rest|)) == (goal, end)
  }

  function Logged(log: seq<M.Delivery>, body: seq<byte>, at: u64, next: u64, recv: u64): seq<M.Delivery> {
    if at >= next then log + [M.Delivery(at, body, recv)] else log
  }

  /** One step of the walk: the message under the cursor, unless it does not fit. */
  lemma WalkStep(payload: seq<byte>, cursor: nat, left: nat, log: seq<M.Delivery>, at: u64,
                 next: u64, recv: u64, goal: seq<M.Delivery>, end: u64)
    requires Walking(payload, cursor, left, log, at, next, recv, goal, end)
    requires left > 0 && cursor + 2 <= |payload|
    ensures var start := cursor + 2;
            var stop := start + Be16(payload, cursor);
            if stop > |payload| then log == goal && at == end
            else Walking(payload, stop, left - 1, Logged(log, payload[start..stop], at, next, recv),
                         Wrap64(at + 1), next, recv, goal, end)
  {
    var start := cursor + 2;
    var stop: nat := start + Be16(payload, cursor);
    if stop <= |payload| {
      var body, tail := payload[start..stop], FramesFrom(payload, stop, left - 1);
      assert FramesFrom(payload, cursor, left) == [body] + tail;
      OneLogged(log, body, tail, at, next, recv);
    }
  }

  lemma OneLogged(log: seq<M.Delivery>, body: seq<byte>, tail: seq<seq<byte>>, at: u64, next: u64, recv: u64)
    ensures log + M.Accepted([body] + tail, at, next, recv)
            == Logged(log, body, at, next, recv) + M.Accepted(tail, Wrap64(at + 1), next, recv)
    ensures Wrap64(Wrap64(at + 1) + |tail|) == Wrap64(at + |[body] + tail|)
  {
    assert ([body] + tail)[1..] == tail;
    var head := if at >= next then [M.Delivery(at, body, recv)] else [];
    assert log + M.Accepted([body] + tail, at, next, recv)
        == log + head + M.Accepted(tail, Wrap64(at + 1), next, recv);
  }

  /** The walk ends when the count or the bytes run out. */
  lemma WalkEnds(payload: seq<byte>, cursor: nat, left: nat, log: seq<M.Delivery>, at: u64,
                 next: u64, recv: u64, goal: seq<M.Delivery>, end: u64)
    requires Walking(payload, cursor, left, log, at, next, recv, goal, end)
    requires left == 0 || cursor + 2 > |payload|
    ensures log == goal && at == end
  {
  }

  class GapBuffer {
    const cfg: M.Config
    var session: Session
    var sessionSynced: bool
    var nextExpected: u64
    var gapStart: u64
    var gapDetectedAt: u64
    var gapLastRetx: u64
    const slots: array<M.Slot>

    var statPackets: nat
    var statMessages: nat
    var statGaps: nat
    var statDuplicates: nat
    var statDelivered: nat
    var statRetx: nat
    var statHeartbeats: nat
    var statBufferOverflows: nat

    // What the callbacks have seen so far.
    ghost var log: seq<M.Delivery>
    ghost var gaps: seq<M.GapEvent>
    ghost var requests: seq<M.Retransmit>

    ghost predicate Valid()
      reads this
    {
      && slots.Length == M.CAPACITY
      && statDelivered == |log|
      && statGaps == |gaps|
      && statRetx == |requests|
    }

    ghost function View(): M.State
      requires Valid()
      reads this, slots
    {
      M.State(sessionSynced, session, nextExpected, gapStart, gapDetectedAt, gapLastRetx,
              slots[..], log, gaps, requests,
              M.Stats(statPackets, statMessages, statDuplicates, statHeartbeats, statBufferOverflows))
    }

    constructor (cfg: M.Config)
      ensures Valid() && fresh(slots)
      ensures this.cfg == cfg && View() == M.Init(cfg)
    {
      this.cfg := cfg;
      session, sessionSynced, nextExpected := cfg.session, false, 0;
      gapStart, gapDetectedAt, gapLastRetx := 0, 0, 0;
      slots := new M.Slot[M.CAPACITY](_ => M.Empty);
      statPackets, statMessages, statGaps, statDuplicates := 0, 0, 0, 0;
      statDelivered, statRetx, statHeartbeats, statBufferOverflows := 0, 0, 0, 0;
      log, gaps, requests := [], [], [];
    }

    method Ingest(payload: seq<byte>, now: u64) returns (delivered: int)
      requires Valid()
      modifies this, slots
      ensures Valid()
      ensures View() == M.Ingest(cfg, old(View()), payload, now)
      ensures delivered == M.IngestResult(cfg, old(View()), payload, now)
    {
      var parsed := ParseHeader(payload);
      if parsed.None? {
        return -1;
      }
      var h := parsed.value;
      if nextExpected == 0 && !sessionSynced {
        session := h.session;
        nextExpected := h.seqNum;
        sessionSynced := true;
      }
      assert View() == M.Sync(old(View()), h);
      delivered := IngestParsed(h, payload, now);
    }

    method IngestParsed(h: MoldHeader, payload: seq<byte>, now: u64) returns (delivered: int)
      requires Valid() && ParseHeader(payload) == Some(h)
      modifies this, slots
      ensures Valid()
      ensures View() == M.OnHeader(cfg, old(View()), h, payload[MOLD_HEADER_SIZE..], now)
      ensures delivered == |log| - old(|log|)
    {
      if h.msgCount == 0 {
        statHeartbeats := statHeartbeats + 1;
        CheckGapTimeout(now);
        return 0;
      }
      statPackets := statPackets + 1;
      statMessages := statMessages + h.msgCount;
      assert View() == M.CountPacket(old(View()), h);
      delivered := IngestData(h, payload, now);
    }

    /** A packet with messages: a duplicate, ahead of sequence, or next. */
    method IngestData(h: MoldHeader, payload: seq<byte>, now: u64) returns (delivered: int)
      requires Valid() && |payload| >= MOLD_HEADER_SIZE && h.msgCount > 0
      modifies this, slots
      ensures Valid()
      ensures View() == M.OnData(cfg, old(View()), h, payload[MOLD_HEADER_SIZE..], now)
      ensures delivered == |log| - old(|log|)
    {
      var last := Wrap64(h.seqNum + h.msgCount - 1);
      if last < nextExpected {
        statDuplicates := statDuplicates + 1;
        return 0;
      }
      ghost var before, data := View(), payload[MOLD_HEADER_SIZE..];
      if h.seqNum > nextExpected {
        assert M.OnData(cfg, before, h, data, now)
            == M.CheckTimeout(cfg, M.BufferPacket(M.HandleGap(before, h.seqNum, now), h, data, now), now);
        IngestAhead(h, payload, now);
        return 0;
      }
      assert M.OnData(cfg, before, h, data, now)
          == M.ClearGap(M.Flush(M.Deliver(before, h.seqNum, h.msgCount, data, now)));
      delivered := IngestInOrder(h, payload, now);
    }

    /** A packet past the next expected number: open the gap, keep the packet. */
    method IngestAhead(h: MoldHeader, payload: seq<byte>, now: u64)
      requires Valid() && |payload| >= MOLD_HEADER_SIZE && h.seqNum > nextExpected
      modifies this, slots
      ensures Valid() && log == old(log)
      ensures View() == M.CheckTimeout(cfg, M.BufferPacket(M.HandleGap(old(View()), h.seqNum, now),
                                                           h, payload[MOLD_HEADER_SIZE..], now), now)
    {
      HandleGap(h.seqNum, now);
      BufferPacket(h, payload, now);
      CheckGapTimeout(now);
    }

    /** A packet that reaches the next expected number: deliver it and whatever it releases. */
    method IngestInOrder(h: MoldHeader, payload: seq<byte>, now: u64) returns (delivered: int)
      requires Valid() && |payload| >= MOLD_HEADER_SIZE
      modifies this, slots
      ensures Valid() && delivered == |log| - old(|log|)
      ensures View() == M.ClearGap(M.Flush(M.Deliver(old(View()), h.seqNum, h.msgCount,
                                                     payload[MOLD_HEADER_SIZE..], now)))
    {
      var direct := DeliverPacket(h, payload, now);
      var flushed := FlushBuffer();
      if gapStart != 0 && nextExpected > gapStart {
        gapStart := 0;
      }
      return direct + flushed;
    }

    method Tick(now: u64)
      requires Valid()
      modifies this
      ensures Valid()
      ensures View() == M.CheckTimeout(cfg, old(View()), now)
    {
      CheckGapTimeout(now);
    }

    method HandleGap(received: u64, now: u64)
      requires Valid() && received > 0
      modifies this
      ensures Valid()
      ensures View() == M.HandleGap(old(View()), received, now)
      ensures log == old(log)
    {
      if gapStart == 0 {
        gapStart := nextExpected;
        gapDetectedAt := now;
        gapLastRetx := 0;
        statGaps := statGaps + 1;
        gaps := gaps + [M.GapEvent(gapStart, received - 1, now)];
      }
    }

    method CheckGapTimeout(now: u64)
      requires Valid()
      modifies this
      ensures Valid()
      ensures View() == M.CheckTimeout(cfg, old(View()), now)
      ensures log == old(log)
    {
      if gapStart == 0 {
        return;
      }
      var sinceDetect := Wrap64(now - gapDetectedAt);
      var sinceRetx := if gapLastRetx != 0 then Wrap64(now - gapLastRetx) else sinceDetect;
      var firstRequest := gapLastRetx == 0 && sinceDetect >= cfg.gapTimeout;
      var retryRequest := gapLastRetx != 0 && sinceRetx >= cfg.retryInterval;
      assert M.RequestDue(cfg, View(), now) <==> firstRequest || retryRequest;
      if !firstRequest && !retryRequest {
        return;
      }
      if !cfg.onRetransmit {
        return;
      }
      var missing := CountMissing();
      if missing == 0 {
        gapStart := 0;
        return;
      }
      requests := requests + [M.Retransmit(session, gapStart, missing % U16_MOD, now)];
      gapLastRetx := now;
      statRetx := statRetx + 1;
    }

    /** Walks forward from the gap until a received packet starts, or the request is full. */
    method CountMissing() returns (missing: nat)
      requires Valid()
      ensures missing == M.Missing(slots[..], gapStart, cfg.maxCount)
    {
      missing := 0;
      var s: int := gapStart;
      var bound := Wrap64(gapStart + M.CAPACITY);
      while s < bound
        invariant s == gapStart + missing
        invariant bound > gapStart ==> bound == gapStart + M.CAPACITY && missing <= M.CAPACITY
        invariant bound > gapStart ==>
                    M.CountMissing(slots[..], gapStart, missing, cfg.maxCount)
                    == M.Missing(slots[..], gapStart, cfg.maxCount)
        invariant bound <= gapStart ==> missing == 0
      {
        var slot := slots[s % M.CAPACITY];
        if slot.Held? && slot.seqNum == s {
          break;
        }
        missing := missing + 1;
        if missing >= cfg.maxCount {
          break;
        }
        s := s + 1;
      }
    }

    method BufferPacket(h: MoldHeader, payload: seq<byte>, now: u64)
      requires Valid() && |payload| >= MOLD_HEADER_SIZE
      modifies this, slots
      ensures Valid()
      ensures View() == M.BufferPacket(old(View()), h, payload[MOLD_HEADER_SIZE..], now)
      ensures log == old(log)
    {
      var i := M.Index(h.seqNum);
      if slots[i].Held? && slots[i].seqNum != h.seqNum {
        statBufferOverflows := statBufferOverflows + 1;
        return;
      }
      var bodyLen := |payload| - MOLD_HEADER_SIZE;
      var dataLen := if bodyLen < M.MAX_PACKET_BYTES then bodyLen else M.MAX_PACKET_BYTES;
      var data := payload[MOLD_HEADER_SIZE..MOLD_HEADER_SIZE + dataLen];
      assert data == payload[MOLD_HEADER_SIZE..][..dataLen];
      assert bodyLen <= M.MAX_PACKET_BYTES ==> data == payload[MOLD_HEADER_SIZE..];
      slots[i] := M.Held(h.seqNum, h.msgCount, now, data);
    }

    /** Delivers the messages of one packet and moves past them. */
    method DeliverPacket(h: MoldHeader, payload: seq<byte>, recv: u64) returns (count: int)
      requires Valid() && |payload| >= MOLD_HEADER_SIZE
      modifies `log, `nextExpected, `statDelivered
      ensures Valid()
      ensures View() == M.Deliver(old(View()), h.seqNum, h.msgCount, payload[MOLD_HEADER_SIZE..], recv)
      ensures count == |log| - old(|log|)
    {
      var seqNum;
      count, seqNum := Walk(h, payload, recv);
      FramesFromCursor(payload, MOLD_HEADER_SIZE, h.msgCount, payload[MOLD_HEADER_SIZE..]);
      if seqNum > nextExpected {
        nextExpected := seqNum;
      }
    }

    /** The cursor walk over the length-prefixed messages of one packet. */
    method Walk(h: MoldHeader, payload: seq<byte>, recv: u64) returns (count: int, seqNum: u64)
      requires Valid() && |payload| >= MOLD_HEADER_SIZE
      modifies `log, `statDelivered
      ensures Valid()
      ensures var bodies := FramesFrom(payload, MOLD_HEADER_SIZE, h.msgCount);
              && log == old(log) + M.Accepted(bodies, h.seqNum, nextExpected, recv)
              && seqNum == Wrap64(h.seqNum + |bodies|)
      ensures count == |log| - old(|log|)
    {
      count, seqNum := 0, h.seqNum;
      var cursor, i := MOLD_HEADER_SIZE, 0;
      ghost var bodies := FramesFrom(payload, cursor, h.msgCount);
      ghost var end := Wrap64(h.seqNum + |bodies|);
      ghost var goal := log + M.Accepted(bodies, seqNum, nextExpected, recv);
      while i < h.msgCount && cursor + 2 <= |payload|
        invariant 0 <= i <= h.msgCount && 0 <= cursor
        invariant Walking(payload, cursor, h.msgCount - i, log, seqNum, nextExpected, recv, goal, end)
        invariant count == |log| - old(|log|) && statDelivered == |log|
        decreases h.msgCount - i
      {
        WalkStep(payload, cursor, h.msgCount - i, log, seqNum, nextExpected, recv, goal, end);
        var msgLen := Be16(payload, cursor);
        cursor := cursor + 2;
        if cursor + msgLen > |payload| {
          return;
        }
        var n := Emit(payload[cursor..cursor + msgLen], seqNum, recv);
        count := count + n;
        cursor := cursor + msgLen;
        seqNum := Wrap64(seqNum + 1);
        i := i + 1;
      }
      WalkEnds(payload, cursor, h.msgCount - i, log, seqNum, nextExpected, recv, goal, end);
    }

    /** Hands one message on unless its number has already been delivered. */
    method Emit(body: seq<byte>, at: u64, recv: u64) returns (n: int)
      requires statDelivered == |log|
      modifies `log, `statDelivered
      ensures log == Logged(old(log), body, at, nextExpected, recv)
      ensures n == |log| - old(|log|) && statDelivered == |log|
    {
      n := 0;
      if at >= nextExpected {
        log := log + [M.Delivery(at, body, recv)];
        n := 1;
        statDelivered := statDelivered + 1;
      }
    }

    /** Hands on every buffered packet that has become the next one. */
    method FlushBuffer() returns (count: int)
      requires Valid()
      modifies this, slots
      ensures Valid()
      ensures View() == M.Flush(old(View()))
      ensures count == |log| - old(|log|)
    {
      count := 0;
      while true
        invariant Valid()
        invariant M.Flush(View()) == M.Flush(old(View()))
        invariant count == |log| - old(|log|)
        decreases M.Occupied(slots[..])
      {
        ghost var before := View();
        var i := nextExpected % M.CAPACITY;
        var slot := slots[i];
        if !slot.Held? || slot.seqNum != nextExpected {
          break;
        }
        M.OccupiedAfterFree(slots[..], i);
        var h := MoldHeader(session, slot.seqNum, slot.msgCount);
        var packet := SerialiseHeader(h) + slot.data;
        assert packet[MOLD_HEADER_SIZE..] == slot.data;
        var n := DeliverPacket(h, packet, slot.recv);
        count := count + n;
        slots[i] := M.Empty;
        assert View() == M.FlushOne(before);
      }
    }
  }
}
