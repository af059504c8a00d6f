/** What a replay hands on. The reader loads each frame over what its buffer held before and trusts the
    UDP length, so the bytes after a frame that was captured short are those of earlier frames. */
module PcapReplay {
  import opened Bytes
  import opened Pcap

  // ----- The reader's buffer -----

  type FrameBuffer = b: seq<byte> | |b| == FRAME_BUFFER_SIZE witness seq(FRAME_BUFFER_SIZE, _ => 0)

  function Loaded(buf: FrameBuffer, frame: Frame): FrameBuffer {
    frame + buf[|frame|..]
  }

  function HandedOn(buf: FrameBuffer, udp: Udp): seq<byte>
    requires udp.End() <= FRAME_BUFFER_SIZE
  {
    buf[udp.offset..udp.End()]
  }

  /** A buffer filled with one byte. */
  function Filled(b: byte): FrameBuffer {
    seq(FRAME_BUFFER_SIZE, _ => b)
  }

  lemma HeldPayload(buf: FrameBuffer, frame: Frame, udp: Udp)
    requires udp.End() <= |frame|
    ensures HandedOn(Loaded(buf, frame), udp) == PayloadOf(frame, udp)
  {
  }

  /** When exactly the bytes handed on are those of the frame: when it holds as many as its UDP header
      says. Otherwise they depend on what the buffer held before. */
  lemma OwnBytesExactly(frame: Frame, udp: Udp)
    requires udp.offset <= |frame| && udp.End() <= FRAME_BUFFER_SIZE
    ensures (forall a: FrameBuffer, b: FrameBuffer ::
               HandedOn(Loaded(a, frame), udp) == HandedOn(Loaded(b, frame), udp))
            <==> udp.End() <= |frame|
    ensures udp.End() <= |frame| ==> forall a: FrameBuffer :: HandedOn(Loaded(a, frame), udp) == PayloadOf(frame, udp)
  {
    if udp.End() <= |frame| {
      forall a: FrameBuffer
        ensures HandedOn(Loaded(a, frame), udp) == PayloadOf(frame, udp)
      {
        HeldPayload(a, frame, udp);
      }
    } else {
      StaleByte(Filled(0), frame, udp, |frame|);
      StaleByte(Filled(1), frame, udp, |frame|);
    }
  }

  /** Past the end of the frame the byte handed on is the one the buffer held. */
  lemma StaleByte(buf: FrameBuffer, frame: Frame, udp: Udp, i: nat)
    requires udp.offset <= i < udp.End() <= FRAME_BUFFER_SIZE && |frame| <= i
    ensures HandedOn(Loaded(buf, frame), udp)[i - udp.offset] == buf[i]
  {
  }

  /** When exactly an added tag leaves the payload handed on as it was, whatever the buffer held: when
      the frame holds it. Otherwise the tag moves which old bytes are handed on. */
  lemma TagKeepsPayloadExactly(frame: Frame, control: u16, udp: Udp)
    requires 12 <= |frame| <= FRAME_BUFFER_SIZE - 4 && (|frame| >= 14 ==> Be16(frame, 12) != ETH_TYPE_VLAN)
    requires ExtractUdp(frame) == Some(udp) && udp.End() <= FRAME_BUFFER_SIZE - 4
    ensures (forall a: FrameBuffer ::
               HandedOn(Loaded(a, Tagged(frame, control)), Shifted(udp)) == HandedOn(Loaded(a, frame), udp))
            <==> udp.End() <= |frame|
  {
    if udp.End() <= |frame| {
      TagShiftsExtraction(frame, control);
      forall a: FrameBuffer
        ensures HandedOn(Loaded(a, Tagged(frame, control)), Shifted(udp)) == HandedOn(Loaded(a, frame), udp)
      {
        HeldPayload(a, frame, udp);
        HeldPayload(a, Tagged(frame, control), Shifted(udp));
      }
    } else {
      var a: FrameBuffer := Filled(0)[|frame| := 1];
      TagMovesByte(a, frame, control, udp);
    }
  }

  /** One buffer is enough to see it: the byte after the frame differs from the one a tag further on. */
  lemma TagMovesByte(buf: FrameBuffer, frame: Frame, control: u16, udp: Udp)
    requires 12 <= |frame| <= FRAME_BUFFER_SIZE - 4
    requires udp.offset <= |frame| < udp.End() <= FRAME_BUFFER_SIZE - 4 && buf[|frame|] != buf[|frame| + 4]
    ensures HandedOn(Loaded(buf, Tagged(frame, control)), Shifted(udp)) != HandedOn(Loaded(buf, frame), udp)
  {
    StaleByte(buf, frame, udp, |frame|);
    StaleByte(buf, Tagged(frame, control), Shifted(udp), |frame| + 4);
  }

  // ----- The record loop -----

  datatype Packet = Packet(payload: seq<byte>, port: u16, tsNs: u64)

  function TimeNs(sec: u32, usec: u32): u64 {
    (sec * MICROS + usec) * 1000
  }

  /** The UDP payload a record is replayed for, if any; a filter port of 0 accepts every port. */
  function Wanted(r: Record, filter: u16): Option<Udp> {
    if r.Oversized? || ExtractUdp(r.frame).None? then None
    else
      var udp := ExtractUdp(r.frame).value;
      if filter != 0 && udp.port != filter then None else Some(udp)
  }

  /** The UDP length stays inside the reader's buffer. */
  predicate RecordInBounds(r: Record, filter: u16) {
    Wanted(r, filter).Some? ==> Wanted(r, filter).value.End() <= FRAME_BUFFER_SIZE
  }

  predicate InBounds(records: seq<Record>, filter: u16) {
    forall i :: 0 <= i < |records| ==> RecordInBounds(records[i], filter)
  }

  /** The record's frame holds all of its payload. */
  predicate Whole(r: Record, filter: u16) {
    Wanted(r, filter).Some? ==> Wanted(r, filter).value.End() <= |r.frame|
  }

  predicate AllWhole(records: seq<Record>, filter: u16) {
    forall i :: 0 <= i < |records| ==> Whole(records[i], filter)
  }

  lemma WholeIsInBounds(records: seq<Record>, filter: u16)
    requires AllWhole(records, filter)
    ensures InBounds(records, filter)
  {
    forall i | 0 <= i < |records|
      ensures RecordInBounds(records[i], filter)
    {
      assert Whole(records[i], filter);
    }
  }

  /** The packet handed on for a record just loaded. */
  function PacketOf(r: Record, filter: u16, buf: FrameBuffer): Option<Packet>
    requires RecordInBounds(r, filter)
  {
    match Wanted(r, filter)
    case None => None
    case Some(udp) => Some(Packet(HandedOn(buf, udp), udp.port, TimeNs(r.sec, r.usec)))
  }

  /** What a replay hands on, and its counters. */
  datatype Replayed = Replayed(packets: seq<Packet>, read: nat, udp: nat, nonUdp: nat, truncated: nat)

  const Nothing := Replayed([], 0, 0, 0, 0)

  /** One more record with the packet found in it. */
  function After(done: Replayed, oversized: bool, packet: Option<Packet>): Replayed {
    if oversized then done.(truncated := done.truncated + 1)
    else if packet.None? then done.(read := done.read + 1, nonUdp := done.nonUdp + 1)
    else done.(packets := done.packets + [packet.value], read := done.read + 1, udp := done.udp + 1)
  }

  /** In the middle of a replay: what the buffer holds and what was handed on. */
  datatype Reader = Reader(buf: FrameBuffer, done: Replayed)

  function ReadNext(rd: Reader, r: Record, filter: u16): Reader
    requires RecordInBounds(r, filter)
  {
    if r.Oversized? then rd.(done := After(rd.done, true, None))
    else
      var buf := Loaded(rd.buf, r.frame);
      Reader(buf, After(rd.done, false, PacketOf(r, filter, buf)))
  }

  /** The records in order, from a buffer that holds anything. */
  function ReadAll(records: seq<Record>, filter: u16, start: FrameBuffer): Reader
    requires InBounds(records, filter)
  {
    if records == [] then Reader(start, Nothing)
    else
      var n := |records| - 1;
      ReadNext(ReadAll(records[..n], filter, start), records[n], filter)
  }

  function ReadFile(file: seq<byte>, filter: u16, start: FrameBuffer): Replayed
    requires InBounds(RecordsOf(file), filter)
  {
    ReadAll(RecordsOf(file), filter, start).done
  }

  // ----- Counters and the port filter -----

  /** The packets to one port. */
  function ToPort(packets: seq<Packet>, port: u16): seq<Packet> {
    if packets == [] then []
    else
      var last := packets[|packets| - 1];
      ToPort(packets[..|packets| - 1], port) + if last.port == port then [last] else []
  }

  lemma FilterNarrows(records: seq<Record>, filter: u16)
    requires InBounds(records, 0)
    ensures InBounds(records, filter)
  {
    forall i | 0 <= i < |records|
      ensures RecordInBounds(records[i], filter)
    {
      assert RecordInBounds(records[i], 0);
    }
  }

  lemma ToPortOfMore(packets: seq<Packet>, p: Packet, port: u16)
    ensures ToPort(packets + [p], port) == ToPort(packets, port) + if p.port == port then [p] else []
  {
    assert (packets + [p])[..|packets|] == packets;
  }

  /** A filter port only selects: what is handed on is what goes to that port of what is handed on
      without one. */
  lemma {:induction false} FilterSelectsPort(records: seq<Record>, filter: u16, start: FrameBuffer)
    requires InBounds(records, 0) && filter != 0
    ensures InBounds(records, filter)
    ensures ReadAll(records, filter, start).buf == ReadAll(records, 0, start).buf
    ensures ReadAll(records, filter, start).done.packets == ToPort(ReadAll(records, 0, start).done.packets, filter)
  {
    FilterNarrows(records, filter);
    if records != [] {
      var n := |records| - 1;
      FilterSelectsPort(records[..n], filter, start);
      OneMoreToPort(ReadAll(records[..n], filter, start), ReadAll(records[..n], 0, start), records[n], filter);
    }
  }

  lemma OneMoreToPort(some: Reader, every: Reader, r: Record, filter: u16)
    requires RecordInBounds(r, 0) && RecordInBounds(r, filter) && filter != 0
    requires some.buf == every.buf && some.done.packets == ToPort(every.done.packets, filter)
    ensures ReadNext(some, r, filter).buf == ReadNext(every, r, 0).buf
    ensures ReadNext(some, r, filter).done.packets == ToPort(ReadNext(every, r, 0).done.packets, filter)
  {
    if Wanted(r, 0).Some? {
      ToPortOfMore(every.done.packets, PacketOf(r, 0, Loaded(every.buf, r.frame)).value, filter);
    }
  }

  /** Records with a UDP payload. */
  function WithUdp(records: seq<Record>): nat {
    if records == [] then 0
    else
      var r := records[|records| - 1];
      WithUdp(records[..|records| - 1]) + if r.Captured? && ExtractUdp(r.frame).Some? then 1 else 0
  }

  /** Without a filter every UDP payload is handed on. */
  lemma {:induction false} NoFilterTakesAll(records: seq<Record>, start: FrameBuffer)
    requires InBounds(records, 0)
    ensures |ReadAll(records, 0, start).done.packets| == WithUdp(records)
  {
    if records != [] {
      NoFilterTakesAll(records[..|records| - 1], start);
    }
  }

  /** Records too long for the buffer. */
  function Skipped(records: seq<Record>): nat {
    if records == [] then 0
    else Skipped(records[..|records| - 1]) + if records[|records| - 1].Oversized? then 1 else 0
  }

  /** The counters of a replay: oversized records, the others, the packets handed on, and the rest. */
  lemma {:induction false} CountersOfReplay(records: seq<Record>, filter: u16, start: FrameBuffer)
    requires InBounds(records, filter)
    ensures var done := ReadAll(records, filter, start).done;
            && done.truncated == Skipped(records)
            && done.read == |records| - Skipped(records)
            && done.udp == |done.packets|
            && done.nonUdp == done.read - done.udp
  {
    if records != [] {
      CountersOfReplay(records[..|records| - 1], filter, start);
    }
  }

  // ----- Frames that hold their payloads -----

  function OwnPacket(r: Record, filter: u16): Option<Packet>
    requires Whole(r, filter)
  {
    match Wanted(r, filter)
    case None => None
    case Some(udp) => Some(Packet(PayloadOf(r.frame, udp), udp.port, TimeNs(r.sec, r.usec)))
  }

  /** What the records stand for by themselves. */
  function OwnPackets(records: seq<Record>, filter: u16): Replayed
    requires AllWhole(records, filter)
  {
    if records == [] then Nothing
    else
      var n := |records| - 1;
      After(OwnPackets(records[..n], filter), records[n].Oversized?, OwnPacket(records[n], filter))
  }

  /** If every frame holds its payload, a replay hands on exactly what the file stands for, whatever the
      buffer held. */
  lemma {:induction false} WholeFramesReadTrue(records: seq<Record>, filter: u16, start: FrameBuffer)
    requires AllWhole(records, filter)
    ensures InBounds(records, filter) && ReadAll(records, filter, start).done == OwnPackets(records, filter)
  {
    WholeIsInBounds(records, filter);
    if records != [] {
      var n := |records| - 1;
      var r := records[n];
      WholeFramesReadTrue(records[..n], filter, start);
      assert Whole(r, filter);
      if Wanted(r, filter).Some? {
        HeldPayload(ReadAll(records[..n], filter, start).buf, r.frame, Wanted(r, filter).value);
      }
    }
  }

  // ----- When a replay depends on the file alone -----

  /** How much of the buffer the records have overwritten. */
  function Reach(records: seq<Record>): (n: nat)
    ensures n <= FRAME_BUFFER_SIZE
  {
    if records == [] then 0
    else
      var r, before := records[|records| - 1], Reach(records[..|records| - 1]);
      if r.Captured? && |r.frame| > before then |r.frame| else before
  }

  /** Up to the longest frame so far the buffer is the file's, beyond it is what it was at the start. */
  lemma {:induction false} BufferOf(records: seq<Record>, filter: u16, a: FrameBuffer, b: FrameBuffer)
    requires InBounds(records, filter)
    ensures var n := Reach(records);
            && ReadAll(records, filter, a).buf[n..] == a[n..]
            && ReadAll(records, filter, a).buf[..n] == ReadAll(records, filter, b).buf[..n]
  {
    if records != [] {
      var n := |records| - 1;
      BufferOf(records[..n], filter, a, b);
      if records[n].Captured? {
        LoadedOver(ReadAll(records[..n], filter, a).buf, ReadAll(records[..n], filter, b).buf, records[n].frame,
                   Reach(records[..n]), a);
      }
    }
  }

  /** Loading a frame over two buffers that agree on their first n bytes. */
  lemma LoadedOver(x: FrameBuffer, y: FrameBuffer, frame: Frame, n: nat, start: FrameBuffer)
    requires n <= FRAME_BUFFER_SIZE && x[n..] == start[n..] && x[..n] == y[..n]
    ensures var m := if |frame| > n then |frame| else n;
            Loaded(x, frame)[m..] == start[m..] && Loaded(x, frame)[..m] == Loaded(y, frame)[..m]
  {
    var m := if |frame| > n then |frame| else n;
    forall i | m <= i < FRAME_BUFFER_SIZE
      ensures Loaded(x, frame)[i] == start[i]
    {
      assert x[i] == x[n..][i - n] == start[n..][i - n];
    }
    forall i | 0 <= i < m
      ensures Loaded(x, frame)[i] == Loaded(y, frame)[i]
    {
      if i >= |frame| {
        assert x[i] == x[..n][i] == y[..n][i] == y[i];
      }
    }
  }

  /** The records up to and including i have filled what record i hands on. */
  predicate FilledBefore(records: seq<Record>, filter: u16, i: nat)
    requires i < |records|
  {
    Wanted(records[i], filter).Some? ==> Wanted(records[i], filter).value.End() <= Reach(records[..i + 1])
  }

  predicate AllFilled(records: seq<Record>, filter: u16) {
    forall i :: 0 <= i < |records| ==> FilledBefore(records, filter, i)
  }

  lemma FrontFilled(records: seq<Record>, filter: u16, n: nat)
    requires AllFilled(records, filter) && n <= |records|
    ensures AllFilled(records[..n], filter)
  {
    forall i | 0 <= i < n
      ensures FilledBefore(records[..n], filter, i)
    {
      assert records[..n][..i + 1] == records[..i + 1] && FilledBefore(records, filter, i);
    }
  }

  lemma {:induction false} FilledReadsSame(records: seq<Record>, filter: u16, a: FrameBuffer, b: FrameBuffer)
    requires InBounds(records, filter) && AllFilled(records, filter)
    ensures ReadAll(records, filter, a).done == ReadAll(records, filter, b).done
  {
    if records != [] {
      var n := |records| - 1;
      FrontFilled(records, filter, n);
      FilledReadsSame(records[..n], filter, a, b);
      FilledReadNext(records, filter, a, b);
    }
  }

  lemma FilledReadNext(records: seq<Record>, filter: u16, a: FrameBuffer, b: FrameBuffer)
    requires InBounds(records, filter) && records != [] && FilledBefore(records, filter, |records| - 1)
    requires ReadAll(records[..|records| - 1], filter, a).done == ReadAll(records[..|records| - 1], filter, b).done
    ensures ReadAll(records, filter, a).done == ReadAll(records, filter, b).done
  {
    var n := |records| - 1;
    assert records[..n + 1] == records;
    BufferOf(records, filter, a, b);
    if Wanted(records[n], filter).Some? {
      SameSlice(ReadAll(records, filter, a).buf, ReadAll(records, filter, b).buf, Reach(records),
                Wanted(records[n], filter).value);
    }
  }

  lemma SameSlice(a: FrameBuffer, b: FrameBuffer, n: nat, udp: Udp)
    requires udp.End() <= n <= FRAME_BUFFER_SIZE && a[..n] == b[..n]
    ensures HandedOn(a, udp) == HandedOn(b, udp)
  {
    assert HandedOn(a, udp) == a[..n][udp.offset..udp.End()];
    assert HandedOn(b, udp) == b[..n][udp.offset..udp.End()];
  }

  /** Later records only add packets. */
  lemma {:induction false} PacketsGrow(records: seq<Record>, filter: u16, start: FrameBuffer, n: nat)
    requires InBounds(records, filter) && n <= |records|
    ensures ReadAll(records[..n], filter, start).done.packets <= ReadAll(records, filter, start).done.packets
    decreases |records|
  {
    if n == |records| {
      assert records[..n] == records;
    } else {
      var last := |records| - 1;
      assert records[..last][..n] == records[..n];
      PacketsGrow(records[..last], filter, start, n);
    }
  }

  /** There are as many packets whatever the buffer held. */
  lemma {:induction false} SameNumber(records: seq<Record>, filter: u16, a: FrameBuffer, b: FrameBuffer)
    requires InBounds(records, filter)
    ensures |ReadAll(records, filter, a).done.packets| == |ReadAll(records, filter, b).done.packets|
  {
    if records != [] {
      SameNumber(records[..|records| - 1], filter, a, b);
    }
  }

  /** The last byte handed on for an unfilled record is what the buffer held at the start. */
  lemma UnfilledByte(records: seq<Record>, filter: u16, start: FrameBuffer, i: nat)
    requires InBounds(records, filter) && i < |records| && !FilledBefore(records, filter, i)
    ensures var udp := Wanted(records[i], filter).value;
            var packets := ReadAll(records[..i + 1], filter, start).done.packets;
            && |packets| == |ReadAll(records[..i], filter, start).done.packets| + 1
            && udp.offset < udp.End() == udp.offset + |packets[|packets| - 1].payload|
            && packets[|packets| - 1].payload[udp.length - 1] == start[udp.End() - 1]
  {
    var upTo := records[..i + 1];
    assert upTo[..i] == records[..i] && upTo[i] == records[i];
    BufferOf(upTo, filter, start, start);
    var udp := Wanted(records[i], filter).value;
    ByteBeyond(ReadAll(upTo, filter, start).buf, start, Reach(upTo), udp.End() - 1);
  }

  lemma ByteBeyond(buf: FrameBuffer, start: FrameBuffer, n: nat, i: nat)
    requires n <= i < FRAME_BUFFER_SIZE && buf[n..] == start[n..]
    ensures buf[i] == start[i]
  {
    assert buf[i] == buf[n..][i - n] == start[n..][i - n];
  }

  /** When exactly what a replay hands on depends on the file alone, and not on what the buffer held at
      the start: when each payload ends within the longest frame read so far. */
  lemma DependsOnFileAloneExactly(records: seq<Record>, filter: u16)
    requires InBounds(records, filter)
    ensures (forall a: FrameBuffer, b: FrameBuffer ::
               ReadAll(records, filter, a).done == ReadAll(records, filter, b).done)
            <==> AllFilled(records, filter)
  {
    if i :| 0 <= i < |records| && !FilledBefore(records, filter, i) {
      var a, b := Filled(0), Filled(1);
      UnfilledByte(records, filter, a, i);
      UnfilledByte(records, filter, b, i);
      SameNumber(records[..i], filter, a, b);
      PacketsGrow(records, filter, a, i + 1);
      PacketsGrow(records, filter, b, i + 1);
      var k := |ReadAll(records[..i], filter, a).done.packets|;
      assert ReadAll(records, filter, a).done.packets[k] != ReadAll(records, filter, b).done.packets[k];
    } else {
      forall a: FrameBuffer, b: FrameBuffer
        ensures ReadAll(records, filter, a).done == ReadAll(records, filter, b).done
      {
        FilledReadsSame(records, filter, a, b);
      }
    }
  }

  // ----- Byte order and tags -----

  /** The byte order of the headers changes nothing, even where old bytes are handed on. */
  lemma OrderChangesNothing(order: ByteOrder, order': ByteOrder, records: seq<FrameRecord>, filter: u16,
                            start: FrameBuffer)
    requires Storable(records) && InBounds(AllStored(records), filter)
    ensures RecordsOf(FileBytes(order, records)) == RecordsOf(FileBytes(order', records)) == AllStored(records)
    ensures ReadFile(FileBytes(order, records), filter, start) == ReadFile(FileBytes(order', records), filter, start)
  {
    FileReadBack(order, records);
    FileReadBack(order', records);
  }

  /** The same record, but for an 802.1Q tag put into a frame that had none. */
  ghost predicate OnlyTagAdded(a: FrameRecord, b: FrameRecord) {
    || a == b
    || (&& 12 <= |a.frame| <= FRAME_BUFFER_SIZE - 4
        && (|a.frame| >= 14 ==> Be16(a.frame, 12) != ETH_TYPE_VLAN)
        && exists control :: b == a.(frame := Tagged(a.frame, control)))
  }

  lemma TagKeepsOwnPacket(a: FrameRecord, b: FrameRecord, filter: u16)
    requires OnlyTagAdded(a, b) && Whole(Stored(a), filter)
    ensures Whole(Stored(b), filter) && OwnPacket(Stored(a), filter) == OwnPacket(Stored(b), filter)
    ensures Stored(a).Oversized? == Stored(b).Oversized?
  {
    if a != b {
      var control :| b == a.(frame := Tagged(a.frame, control));
      TagShiftsExtraction(a.frame, control);
    }
  }

  lemma TagsKeepWhole(records: seq<FrameRecord>, others: seq<FrameRecord>, filter: u16)
    requires |records| == |others| && forall i :: 0 <= i < |records| ==> OnlyTagAdded(records[i], others[i])
    requires AllWhole(AllStored(records), filter)
    ensures AllWhole(AllStored(others), filter)
  {
    forall i | 0 <= i < |records|
      ensures Whole(AllStored(others)[i], filter)
    {
      assert Whole(AllStored(records)[i], filter);
      TagKeepsOwnPacket(records[i], others[i], filter);
    }
  }

  lemma StoredFront(records: seq<FrameRecord>, n: nat)
    requires n <= |records|
    ensures AllStored(records)[..n] == AllStored(records[..n])
  {
  }

  /** One more record on both sides. */
  lemma OwnPacketsMore(a: seq<Record>, b: seq<Record>, filter: u16)
    requires a != [] && b != [] && AllWhole(a, filter) && AllWhole(b, filter)
    requires AllWhole(a[..|a| - 1], filter) && AllWhole(b[..|b| - 1], filter)
    requires OwnPackets(a[..|a| - 1], filter) == OwnPackets(b[..|b| - 1], filter)
    requires var x, y := a[|a| - 1], b[|b| - 1];
             OwnPacket(x, filter) == OwnPacket(y, filter) && x.Oversized? == y.Oversized?
    ensures OwnPackets(a, filter) == OwnPackets(b, filter)
  {
  }

  lemma {:induction false} TagsKeepOwnPackets(records: seq<FrameRecord>, others: seq<FrameRecord>, filter: u16)
    requires |records| == |others| && forall i :: 0 <= i < |records| ==> OnlyTagAdded(records[i], others[i])
    requires AllWhole(AllStored(records), filter) && AllWhole(AllStored(others), filter)
    ensures OwnPackets(AllStored(others), filter) == OwnPackets(AllStored(records), filter)
  {
    if records != [] {
      var n := |records| - 1;
      StoredFront(records, n);
      StoredFront(others, n);
      TagsKeepOwnPackets(records[..n], others[..n], filter);
      assert Whole(AllStored(records)[n], filter);
      TagKeepsOwnPacket(records[n], others[n], filter);
      OwnPacketsMore(AllStored(records), AllStored(others), filter);
    }
  }

  /** If every frame holds its payload, neither the byte order of the headers, nor added tags, nor what
      the buffer held change what a replay hands on. */
  lemma ReplayIgnoresOrderAndTags(order: ByteOrder, order': ByteOrder, records: seq<FrameRecord>,
                                  others: seq<FrameRecord>, filter: u16, start: FrameBuffer, start': FrameBuffer)
    requires Storable(records) && Storable(others) && AllWhole(AllStored(records), filter)
    requires |records| == |others| && forall i :: 0 <= i < |records| ==> OnlyTagAdded(records[i], others[i])
    ensures InBounds(RecordsOf(FileBytes(order, records)), filter)
    ensures InBounds(RecordsOf(FileBytes(order', others)), filter)
    ensures ReadFile(FileBytes(order, records), filter, start) == ReadFile(FileBytes(order', others), filter, start')
  {
    FileReadBack(order, records);
    FileReadBack(order', others);
    TagsKeepWhole(records, others, filter);
    TagsKeepOwnPackets(records, others, filter);
    WholeFramesReadTrue(AllStored(records), filter, start);
    WholeFramesReadTrue(AllStored(others), filter, start');
  }

  /** Without that condition it fails on a capture of two frames. The second is cut shorter than its UDP
      length says, so the bytes after it are those of the first; a tag moves which of them are handed
      on. */
  lemma TagMovesStaleBytes(first: Record, short: Record, tagged: Record, control: u16, filter: u16,
                           start: FrameBuffer)
    requires first.Captured? && RecordInBounds(first, filter)
    requires short.Captured? && 12 <= |short.frame| <= FRAME_BUFFER_SIZE - 4
    requires tagged == short.(frame := Tagged(short.frame, control))
    requires |short.frame| >= 14 ==> Be16(short.frame, 12) != ETH_TYPE_VLAN
    requires Wanted(short, filter).Some?
    requires |short.frame| < Wanted(short, filter).value.End() <= FRAME_BUFFER_SIZE - 4
    requires |first.frame| >= |short.frame| + 5 && first.frame[|short.frame|] != first.frame[|short.frame| + 4]
    ensures InBounds([first, short], filter) && InBounds([first, tagged], filter)
    ensures ReadAll([first, short], filter, start).done.packets != ReadAll([first, tagged], filter, start).done.packets
  {
    var udp := Wanted(short, filter).value;
    TagShiftsExtraction(short.frame, control);
    assert Wanted(tagged, filter) == Some(Shifted(udp));
    var buf := Loaded(start, first.frame);
    TagMovesByte(buf, short.frame, control, udp);
    SecondPacket(first, short, filter, start);
    SecondPacket(first, tagged, filter, start);
  }

  lemma SecondPacket(first: Record, second: Record, filter: u16, start: FrameBuffer)
    requires first.Captured? && RecordInBounds(first, filter)
    requires second.Captured? && RecordInBounds(second, filter) && Wanted(second, filter).Some?
    ensures InBounds([first, second], filter)
    ensures var packets := ReadAll([first, second], filter, start).done.packets;
            && |packets| > 0
            && packets[|packets| - 1].payload
               == HandedOn(Loaded(Loaded(start, first.frame), second.frame), Wanted(second, filter).value)
  {
    assert [first, second][..1] == [first] && [first][..0] == [];
    assert ReadAll([first], filter, start) == ReadNext(Reader(start, Nothing), first, filter);
  }
}
