/** Writing captures and replaying them into a gap buffer. */
module PcapFiles {
  import opened Bytes
  import opened Pcap
  import opened PcapReplay
  import M = GapModel
  import GapBuffer
  import opened GapAuthenticity

  const FEED_PORT := 15001
  const HEADERS_SIZE := 42
  const MAX_PAYLOAD := 65493

  type Payload = s: seq<byte> | |s| < U16_MOD

  // ----- The writer -----

  function EthHeader(): (s: seq<byte>)
    ensures |s| == 14
  {
    seq(6, _ => 255) + seq(6, _ => 0) + [8, 0]
  }

  function IpHeader(ipLen: u16): (s: seq<byte>)
    ensures |s| == 20
  {
    [0x45, 0] + ToBE(ipLen, 2) + ToBE(0, 2) + ToBE(0, 2) + [64, PROTO_UDP] + ToBE(0, 2)
    + [192, 168, 0, 1] + [239, 1, 1, 1]
  }

  function UdpHeader(udpLen: u16): (s: seq<byte>)
    ensures |s| == 8
  {
    ToBE(FEED_PORT, 2) + ToBE(FEED_PORT, 2) + ToBE(udpLen, 2) + ToBE(0, 2)
  }

  // The three lengths are 16-bit sums and wrap around.
  function UdpLen(payload: Payload): u16 { (8 + |payload|) % U16_MOD }

  function IpLen(payload: Payload): u16 { (20 + UdpLen(payload)) % U16_MOD }

  function FrameLen(payload: Payload): (n: u16)
    ensures n <= HEADERS_SIZE + |payload|
  {
    (14 + IpLen(payload)) % U16_MOD
  }

  function FullFrame(payload: Payload): (s: seq<byte>)
    ensures |s| == HEADERS_SIZE + |payload|
  {
    EthHeader() + IpHeader(IpLen(payload)) + UdpHeader(UdpLen(payload)) + payload
  }

  /** The bytes of the frame that reach the file. */
  function WrittenFrame(payload: Payload): (s: seq<byte>)
    ensures |s| < U16_MOD
  {
    FullFrame(payload)[..FrameLen(payload)]
  }

  function WrittenRecord(tsUs: u64, payload: Payload): FrameRecord {
    FrameRecord(tsUs / MICROS % U32_MOD, tsUs % MICROS, WrittenFrame(payload))
  }

  datatype Sent = Sent(tsUs: u64, payload: Payload)

  function WrittenRecords(sent: seq<Sent>): (records: seq<FrameRecord>)
    ensures Storable(records)
  {
    seq(|sent|, i requires 0 <= i < |sent| => WrittenRecord(sent[i].tsUs, sent[i].payload))
  }

  function WrittenFile(sent: seq<Sent>): seq<byte> {
    FileBytes(Little, WrittenRecords(sent))
  }

  // ----- What a written packet reads back as -----

  /** Header bytes the reader looks at, by their place in the headers. */
  lemma HeaderBytes(ipLen: u16, udpLen: u16)
    ensures EthHeader()[12..14] == [8, 0] && IpHeader(ipLen)[0] == 0x45 && IpHeader(ipLen)[9] == PROTO_UDP
    ensures UdpHeader(udpLen)[2..4] == ToBE(FEED_PORT, 2) && UdpHeader(udpLen)[4..6] == ToBE(udpLen, 2)
  {
  }

  /** The same bytes, by their place in the frame. */
  lemma FrameBytes(eth: seq<byte>, ip: seq<byte>, udp: seq<byte>, payload: seq<byte>)
    requires |eth| == 14 && |ip| == 20 && |udp| == 8
    ensures var frame := eth + ip + udp + payload;
            && frame[12..14] == eth[12..14] && frame[14] == ip[0] && frame[23] == ip[9]
            && frame[36..38] == udp[2..4] && frame[38..40] == udp[4..6] && frame[HEADERS_SIZE..] == payload
  {
  }

  lemma HeaderFields(payload: Payload)
    ensures var frame := FullFrame(payload);
            && Be16(frame, 12) == ETH_TYPE_IPV4 && frame[14] == 0x45 && frame[23] == PROTO_UDP
            && Be16(frame, 36) == FEED_PORT && Be16(frame, 38) == UdpLen(payload)
            && frame[HEADERS_SIZE..] == payload
  {
    var frame := FullFrame(payload);
    Pow256Values();
    HeaderBytes(IpLen(payload), UdpLen(payload));
    FrameBytes(EthHeader(), IpHeader(IpLen(payload)), UdpHeader(UdpLen(payload)), payload);
    assert FromBE([8, 0]) == 0x0800 by { assert [8, 0][..1] == [8]; assert FromBE([8]) == 8; }
    ReadBack(frame, 36, FEED_PORT, 2);
    ReadBack(frame, 38, UdpLen(payload), 2);
  }

  /** Exactly the payloads that fit one 16-bit frame length are read back; for a longer one the length
      wraps, the frame is cut inside its headers, and the reader skips it. */
  lemma ExtractedExactlyIfFits(payload: Payload)
    ensures var frame := WrittenFrame(payload);
            && (ExtractUdp(frame).Some? <==> |payload| <= MAX_PAYLOAD)
            && (|payload| <= MAX_PAYLOAD ==>
                  && ExtractUdp(frame) == Some(Udp(HEADERS_SIZE, |payload|, FEED_PORT))
                  && |frame| == HEADERS_SIZE + |payload|
                  && PayloadOf(frame, ExtractUdp(frame).value) == payload)
  {
    if |payload| <= MAX_PAYLOAD {
      FittingPayload(payload, WrittenFrame(payload));
    } else {
      OverlongPayload(payload);
    }
  }

  lemma OverlongPayload(payload: Payload)
    requires |payload| > MAX_PAYLOAD
    ensures ExtractUdp(WrittenFrame(payload)).None?
  {
    HeaderFields(payload);
    CutShort(FullFrame(payload), WrittenFrame(payload));
  }

  /** Below the limit the lengths do not wrap. */
  lemma FittingFrame(payload: Payload)
    requires |payload| <= MAX_PAYLOAD
    ensures WrittenFrame(payload) == FullFrame(payload) && UdpLen(payload) == |payload| + 8
  {
    assert FrameLen(payload) == HEADERS_SIZE + |payload|;
  }

  lemma FittingPayload(payload: Payload, frame: seq<byte>)
    requires |payload| <= MAX_PAYLOAD && frame == WrittenFrame(payload)
    ensures |frame| == HEADERS_SIZE + |payload|
    ensures ExtractUdp(frame) == Some(Udp(HEADERS_SIZE, |payload|, FEED_PORT))
    ensures PayloadOf(frame, Udp(HEADERS_SIZE, |payload|, FEED_PORT)) == payload
  {
    FittingFrame(payload);
    HeaderFields(payload);
    WholeFrame(frame, |payload|);
  }

  /** A frame with plain headers and a true UDP length yields what follows them. */
  lemma WholeFrame(frame: seq<byte>, n: nat)
    requires |frame| == HEADERS_SIZE + n && n + 8 < U16_MOD
    requires Be16(frame, 12) == ETH_TYPE_IPV4 && frame[14] == 0x45 && frame[23] == PROTO_UDP
    requires Be16(frame, 36) == FEED_PORT && Be16(frame, 38) == n + 8
    ensures ExtractUdp(frame) == Some(Udp(HEADERS_SIZE, n, FEED_PORT))
    ensures PayloadOf(frame, Udp(HEADERS_SIZE, n, FEED_PORT)) == frame[HEADERS_SIZE..]
  {
    assert ExtractIp(frame, 14) == Some(Udp(HEADERS_SIZE, n, FEED_PORT));
  }

  /** A frame that ends before its 42nd byte yields nothing. */
  lemma CutShort(full: seq<byte>, frame: seq<byte>)
    requires |full| >= HEADERS_SIZE && frame <= full && |frame| < HEADERS_SIZE
    requires Be16(full, 12) == ETH_TYPE_IPV4 && full[14] == 0x45
    ensures ExtractUdp(frame).None?
  {
    if |frame| >= 14 {
      assert frame[12..14] == full[12..14];
      if |frame| > 14 {
        assert frame[14] == full[14];
      }
    }
  }

  /** What a reader makes of one written packet. */
  function ReadAs(s: Sent): Option<Packet> {
    if |s.payload| <= MAX_PAYLOAD then
      Some(Packet(s.payload, FEED_PORT, TimeNs(s.tsUs / MICROS % U32_MOD, s.tsUs % MICROS)))
    else None
  }

  function ReadAllAs(sent: seq<Sent>): Replayed {
    if sent == [] then Nothing
    else After(ReadAllAs(sent[..|sent| - 1]), false, ReadAs(sent[|sent| - 1]))
  }

  lemma WrittenPacket(s: Sent)
    ensures var r := Stored(WrittenRecord(s.tsUs, s.payload));
            r.Captured? && Whole(r, 0) && OwnPacket(r, 0) == ReadAs(s)
  {
    ExtractedExactlyIfFits(s.payload);
  }

  lemma {:induction false} WrittenOutcome(sent: seq<Sent>)
    ensures var records := AllStored(WrittenRecords(sent));
            AllWhole(records, 0) && OwnPackets(records, 0) == ReadAllAs(sent)
  {
    var records := AllStored(WrittenRecords(sent));
    forall i | 0 <= i < |records|
      ensures Whole(records[i], 0)
    {
      WrittenPacket(sent[i]);
    }
    if sent != [] {
      var n := |sent| - 1;
      WrittenPacket(sent[n]);
      WrittenOutcome(sent[..n]);
      assert records[..n] == AllStored(WrittenRecords(sent[..n]));
    }
  }

  /** Write then read, for every list of packets and whatever the reader's buffer held: each that fits
      comes back with its payload, the feed port and its time, in order; longer ones are counted as
      skipped. */
  lemma WriteThenRead(sent: seq<Sent>, start: FrameBuffer)
    ensures InBounds(RecordsOf(WrittenFile(sent)), 0)
    ensures ReadFile(WrittenFile(sent), 0, start) == ReadAllAs(sent)
  {
    FileReadBack(Little, WrittenRecords(sent));
    WrittenOutcome(sent);
    WholeFramesReadTrue(AllStored(WrittenRecords(sent)), 0, start);
  }

  predicate FitsFile(s: Sent) {
    |s.payload| <= MAX_PAYLOAD && s.tsUs / MICROS < U32_MOD
  }

  /** The packets received are those sent, in order, with their times in nanoseconds. */
  ghost predicate AllArrive(sent: seq<Sent>, packets: seq<Packet>) {
    && |packets| == |sent|
    && forall i :: 0 <= i < |sent| ==>
         && packets[i].payload == sent[i].payload && packets[i].port == FEED_PORT
         && packets[i].tsNs == sent[i].tsUs * 1000
  }

  lemma {:induction false} ReadsBackAll(sent: seq<Sent>)
    requires forall i :: 0 <= i < |sent| ==> FitsFile(sent[i])
    ensures AllArrive(sent, ReadAllAs(sent).packets)
  {
    if sent != [] {
      var last := sent[|sent| - 1];
      assert FitsFile(last);
      assert last.tsUs / MICROS * MICROS + last.tsUs % MICROS == last.tsUs;
      ReadsBackAll(sent[..|sent| - 1]);
    }
  }

  /** The round trip: with payloads and times that fit, nothing is lost or changed. */
  lemma RoundTrip(sent: seq<Sent>, start: FrameBuffer)
    requires forall i :: 0 <= i < |sent| ==> FitsFile(sent[i])
    ensures InBounds(RecordsOf(WrittenFile(sent)), 0)
    ensures AllArrive(sent, ReadFile(WrittenFile(sent), 0, start).packets)
  {
    WriteThenRead(sent, start);
    ReadsBackAll(sent);
  }

  /** The headers survive the cut. */
  lemma SnappedHeaders(whole: seq<byte>, frame: seq<byte>, n: nat)
    requires |whole| == HEADERS_SIZE + n && n + 8 < U16_MOD && frame <= whole && |frame| >= HEADERS_SIZE
    requires Be16(whole, 12) == ETH_TYPE_IPV4 && whole[14] == 0x45 && whole[23] == PROTO_UDP
    requires Be16(whole, 36) == FEED_PORT && Be16(whole, 38) == n + 8
    ensures ExtractUdp(frame) == Some(Udp(HEADERS_SIZE, n, FEED_PORT))
  {
    ShiftedBe16(whole, frame, 12, 0);
    ShiftedBe16(whole, frame, 36, 0);
    ShiftedBe16(whole, frame, 38, 0);
    assert ExtractIp(frame, 14) == Some(Udp(HEADERS_SIZE, n, FEED_PORT));
  }

  /** A packet captured with a snap length: the reader hands on its first bytes and then what its buffer
      held before, up to the length the packet was sent with. */
  lemma SnappedReadsStaleBytes(payload: Payload, snap: nat, buf: FrameBuffer)
    requires |payload| <= MAX_PAYLOAD && HEADERS_SIZE <= snap < HEADERS_SIZE + |payload|
    ensures var frame := FullFrame(payload)[..snap];
            var udp := Udp(HEADERS_SIZE, |payload|, FEED_PORT);
            && ExtractUdp(frame) == Some(udp) && udp.End() > |frame|
            && HandedOn(Loaded(buf, frame), udp)
               == payload[..snap - HEADERS_SIZE] + buf[snap..HEADERS_SIZE + |payload|]
  {
    var whole := FullFrame(payload);
    FittingFrame(payload);
    HeaderFields(payload);
    SnappedHeaders(whole, whole[..snap], |payload|);
    SnappedSlice(buf, whole[..snap], |payload|);
    assert whole[..snap][HEADERS_SIZE..] == whole[HEADERS_SIZE..][..snap - HEADERS_SIZE];
  }

  lemma SnappedSlice(buf: FrameBuffer, frame: Frame, n: nat)
    requires HEADERS_SIZE <= |frame| < HEADERS_SIZE + n <= FRAME_BUFFER_SIZE
    ensures Loaded(buf, frame)[HEADERS_SIZE..HEADERS_SIZE + n]
         == frame[HEADERS_SIZE..] + buf[|frame|..HEADERS_SIZE + n]
  {
  }

  lemma {:induction false} AppendBytes(order: ByteOrder, records: seq<FrameRecord>, r: FrameRecord)
    requires Storable(records) && |r.frame| < U32_MOD
    ensures Storable(records + [r])
    ensures RecordsBytes(order, records + [r]) == RecordsBytes(order, records) + RecordBytes(order, r)
  {
    if records == [] {
      assert [] + [r] == [r] && [r][1..] == [];
      assert RecordsBytes(order, [r]) == RecordBytes(order, r) + [];
    } else {
      assert (records + [r])[1..] == records[1..] + [r];
      AppendBytes(order, records[1..], r);
      AppendIsAssociative(RecordBytes(order, records[0]), RecordsBytes(order, records[1..]), RecordBytes(order, r));
    }
  }

  /** Writing one more packet appends its record to the file. */
  lemma AppendRecord(sent: seq<Sent>, s: Sent)
    ensures WrittenFile(sent + [s]) == WrittenFile(sent) + RecordBytes(Little, WrittenRecord(s.tsUs, s.payload))
  {
    assert WrittenRecords(sent + [s]) == WrittenRecords(sent) + [WrittenRecord(s.tsUs, s.payload)];
    AppendBytes(Little, WrittenRecords(sent), WrittenRecord(s.tsUs, s.payload));
  }

  class PcapWriter {
    var file: seq<byte>
    var packetsWritten: nat
    ghost var sent: seq<Sent>

    ghost predicate Valid()
      reads this
    {
      file == WrittenFile(sent) && packetsWritten == |sent|
    }

    constructor ()
      ensures Valid() && sent == []
    {
      file, packetsWritten, sent := GlobalHeader(Little), 0, [];
    }

    /** Copies bytes into the frame buffer at p and moves p past them. */
    static method Put(frame: array<byte>, p: nat, bytes: seq<byte>) returns (end: nat)
      requires p + |bytes| <= frame.Length
      modifies frame
      ensures end == p + |bytes| && frame[..end] == old(frame[..p]) + bytes
    {
      end := p;
      for i := 0 to |bytes|
        invariant end == p + i
        invariant frame[..end] == old(frame[..p]) + bytes[..i]
      {
        frame[end] := bytes[i];
        end := end + 1;
      }
    }

    /** Ethernet, IP and UDP headers and the payload, one after the other; the frame length wraps. */
    static method BuildFrame(payload: Payload) returns (frame: array<byte>, frameLen: u16)
      ensures fresh(frame) && frame.Length >= HEADERS_SIZE + |payload| && frameLen == FrameLen(payload)
      ensures frame[..HEADERS_SIZE + |payload|] == FullFrame(payload)
    {
      var udpLen := (8 + |payload|) % U16_MOD;
      var ipLen := (20 + udpLen) % U16_MOD;
      frameLen := (14 + ipLen) % U16_MOD;
      frame := new byte[14 + 20 + 8 + 65535](_ => 0);
      PutAll(frame, EthHeader(), IpHeader(ipLen), UdpHeader(udpLen), payload);
    }

    /** Four parts written through one moving position. */
    static method PutAll(frame: array<byte>, eth: seq<byte>, ip: seq<byte>, udp: seq<byte>, payload: seq<byte>)
      requires |eth| + |ip| + |udp| + |payload| <= frame.Length
      modifies frame
      ensures frame[..|eth| + |ip| + |udp| + |payload|] == eth + ip + udp + payload
    {
      var p := Put(frame, 0, eth);
      p := Put(frame, p, ip);
      p := Put(frame, p, udp);
      p := Put(frame, p, payload);
    }

    method WritePacket(tsUs: u64, payload: Payload)
      requires Valid()
      modifies this
      ensures Valid() && sent == old(sent) + [Sent(tsUs, payload)]
    {
      var frame, frameLen := BuildFrame(payload);
      var record := RecordHeader(Little, tsUs / MICROS % U32_MOD, tsUs % MICROS, frameLen) + frame[..frameLen];
      assert frame[..frameLen] == FullFrame(payload)[..frameLen];
      assert record == RecordBytes(Little, WrittenRecord(tsUs, payload));
      AppendRecord(sent, Sent(tsUs, payload));
      file := file + record;
      packetsWritten := packetsWritten + 1;
      sent := sent + [Sent(tsUs, payload)];
    }
  }

  // ----- Replay into a gap buffer -----

  /** Handing the extracted packets to a gap buffer, one by one. */
  ghost function IngestAll(cfg: M.Config, st: M.State, packets: seq<Packet>): M.State
    decreases |packets|
  {
    if packets == [] then st
    else
      var last := packets[|packets| - 1];
      M.Ingest(cfg, IngestAll(cfg, st, packets[..|packets| - 1]), last.payload, last.tsNs)
  }

  function AsEvents(packets: seq<Packet>): seq<M.Event> {
    seq(|packets|, i requires 0 <= i < |packets| => M.Datagram(packets[i].payload, packets[i].tsNs))
  }

  /** Replaying into a fresh buffer is the run that receives those packets live. */
  lemma {:induction false} ReplayIsRun(cfg: M.Config, packets: seq<Packet>)
    ensures IngestAll(cfg, M.Init(cfg), packets) == M.Run(cfg, AsEvents(packets))
    decreases |packets|
  {
    if packets != [] {
      ReplayIsRun(cfg, packets[..|packets| - 1]);
      assert AsEvents(packets)[..|packets| - 1] == AsEvents(packets[..|packets| - 1]);
    }
  }

  /** The packets of a capture as a receiver would have met them live. */
  function LiveEvents(sent: seq<Sent>): seq<M.Event> {
    seq(|sent|, i requires 0 <= i < |sent| => M.Datagram(sent[i].payload, Wrap64(sent[i].tsUs * 1000)))
  }

  lemma ArrivedAsLive(sent: seq<Sent>, packets: seq<Packet>)
    requires AllArrive(sent, packets)
    ensures AsEvents(packets) == LiveEvents(sent)
  {
    forall i | 0 <= i < |sent|
      ensures AsEvents(packets)[i] == LiveEvents(sent)[i]
    {
      assert packets[i].tsNs == Wrap64(sent[i].tsUs * 1000);
    }
  }

  /** Replaying a capture into a fresh buffer is the run that received the same packets live. */
  lemma CaptureReplaysAsLive(cfg: M.Config, sent: seq<Sent>, start: FrameBuffer)
    requires forall i :: 0 <= i < |sent| ==> FitsFile(sent[i])
    ensures InBounds(RecordsOf(WrittenFile(sent)), 0)
    ensures IngestAll(cfg, M.Init(cfg), ReadFile(WrittenFile(sent), 0, start).packets) == M.Run(cfg, LiveEvents(sent))
  {
    RoundTrip(sent, start);
    var packets := ReadFile(WrittenFile(sent), 0, start).packets;
    ArrivedAsLive(sent, packets);
    ReplayIsRun(cfg, packets);
  }

  datatype ReplayStats = ReplayStats(
    packetsRead: nat, udpPackets: nat, nonUdpSkipped: nat, truncatedSkipped: nat, messagesIngested: nat)

  /** The counters agree with what has been read. */
  predicate Tallies(stats: ReplayStats, done: Replayed) {
    && stats.packetsRead == done.read && stats.udpPackets == done.udp
    && stats.nonUdpSkipped == done.nonUdp && stats.truncatedSkipped == done.truncated
  }

  lemma ReadOneMore(done: seq<Record>, r: Record, filter: u16, start: FrameBuffer)
    requires InBounds(done + [r], filter)
    ensures InBounds(done, filter) && RecordInBounds(r, filter)
    ensures ReadAll(done + [r], filter, start) == ReadNext(ReadAll(done, filter, start), r, filter)
  {
    assert (done + [r])[..|done|] == done && (done + [r])[|done|] == r;
    FrontInBounds(done, [r], filter);
  }

  lemma IngestOneMore(cfg: M.Config, start: M.State, packets: seq<Packet>, p: Packet)
    ensures IngestAll(cfg, start, packets + [p]) == M.Ingest(cfg, IngestAll(cfg, start, packets), p.payload, p.tsNs)
  {
    assert (packets + [p])[..|packets|] == packets;
  }

  /** Reads a file and hands each extracted payload to the gap buffer. The frame buffer starts with
      whatever its memory held, here called `start`. */
  method Replay(file: seq<byte>, gapBuf: GapBuffer.GapBuffer, filter: u16)
    returns (stats: ReplayStats, ghost start: FrameBuffer)
    requires gapBuf.Valid() && InBounds(RecordsOf(file), filter)
    modifies gapBuf, gapBuf.slots
    ensures gapBuf.Valid() && Tallies(stats, ReadFile(file, filter, start))
    ensures gapBuf.View() == IngestAll(gapBuf.cfg, old(gapBuf.View()), ReadFile(file, filter, start).packets)
    ensures stats.messagesIngested == |gapBuf.log| - |old(gapBuf.log)|
  {
    var frameBuf := new byte[FRAME_BUFFER_SIZE];
    start := frameBuf[..];
    stats := ReplayStats(0, 0, 0, 0, 0);
    if |file| < GLOBAL_HEADER_SIZE {
      return;
    }
    var magic := Field(file, 0, false);
    var swap := magic == MAGIC_SWAPPED;
    if magic != MAGIC && !swap {
      return;
    }
    stats := ReplayRecords(file, swap, gapBuf, filter, frameBuf);
  }

  /** The record loop. */
  method ReplayRecords(file: seq<byte>, swap: bool, gapBuf: GapBuffer.GapBuffer, filter: u16,
                       frameBuf: array<byte>)
    returns (stats: ReplayStats)
    requires gapBuf.Valid() && frameBuf.Length == FRAME_BUFFER_SIZE
    requires InBounds(ReadRecords(file, GLOBAL_HEADER_SIZE, swap), filter)
    modifies gapBuf, gapBuf.slots, frameBuf
    ensures gapBuf.Valid()
    ensures var read := ReadAll(ReadRecords(file, GLOBAL_HEADER_SIZE, swap), filter, old(frameBuf[..])).done;
            Tallies(stats, read) && gapBuf.View() == IngestAll(gapBuf.cfg, old(gapBuf.View()), read.packets)
    ensures stats.messagesIngested == |gapBuf.log| - |old(gapBuf.log)|
  {
    stats := ReplayStats(0, 0, 0, 0, 0);
    ghost var start, held := gapBuf.View(), frameBuf[..];
    var cursor := GLOBAL_HEADER_SIZE;
    ghost var whole := ReadRecords(file, cursor, swap);
    ghost var done: seq<Record>, rd := [], Reader(held, Nothing);
    while Readable(file, cursor, swap)
      invariant gapBuf.Valid()
      invariant done + ReadRecords(file, cursor, swap) == whole && InBounds(done, filter)
      invariant rd == ReadAll(done, filter, held) && frameBuf[..] == rd.buf
      invariant Tallies(stats, rd.done)
      invariant gapBuf.View() == IngestAll(gapBuf.cfg, start, rd.done.packets)
      invariant stats.messagesIngested == |gapBuf.log| - |old(gapBuf.log)|
      decreases |file| - cursor
    {
      var r := RecordAt(file, cursor, swap);
      RecordRead(file, cursor, swap, done, whole, filter);
      ReadOneMore(done, r, filter, held);
      stats := ReplayRecord(r, gapBuf, filter, frameBuf, stats, start, rd);
      rd := ReadNext(rd, r, filter);
      cursor := cursor + RECORD_HEADER_SIZE + Included(file, cursor, swap);
      done := done + [r];
    }
    assert ReadRecords(file, cursor, swap) == [];
    assert done == whole;
  }

  /** One record moves from what lies ahead to what was read. */
  lemma RecordRead(file: seq<byte>, at: nat, swap: bool, done: seq<Record>, whole: seq<Record>, filter: u16)
    requires Readable(file, at, swap) && done + ReadRecords(file, at, swap) == whole && InBounds(whole, filter)
    ensures done + [RecordAt(file, at, swap)]
            + ReadRecords(file, at + RECORD_HEADER_SIZE + Included(file, at, swap), swap) == whole
    ensures InBounds(done + [RecordAt(file, at, swap)], filter)
  {
    var r := RecordAt(file, at, swap);
    var rest := ReadRecords(file, at + RECORD_HEADER_SIZE + Included(file, at, swap), swap);
    MoveOne(done, r, rest);
    FrontInBounds(done + [r], rest, filter);
  }

  lemma MoveOne(done: seq<Record>, r: Record, rest: seq<Record>)
    ensures done + ([r] + rest) == done + [r] + rest
  {
  }

  lemma FrontInBounds(front: seq<Record>, rest: seq<Record>, filter: u16)
    requires InBounds(front + rest, filter)
    ensures InBounds(front, filter)
  {
    forall i | 0 <= i < |front|
      ensures RecordInBounds(front[i], filter)
    {
      assert (front + rest)[i] == front[i];
    }
  }

  /** The frame overwrites the front of the buffer. */
  method Load(frameBuf: array<byte>, frame: Frame)
    requires frameBuf.Length == FRAME_BUFFER_SIZE
    modifies frameBuf
    ensures frameBuf[..] == Loaded(old(frameBuf[..]), frame)
  {
    forall i | 0 <= i < |frame| {
      frameBuf[i] := frame[i];
    }
  }

  /** One record: skipped if oversized, else loaded, and its payload, if any, goes to the gap buffer. */
  method ReplayRecord(r: Record, gapBuf: GapBuffer.GapBuffer, filter: u16, frameBuf: array<byte>,
                      before: ReplayStats, ghost start: M.State, ghost rd: Reader)
    returns (stats: ReplayStats)
    requires gapBuf.Valid() && Tallies(before, rd.done) && RecordInBounds(r, filter)
    requires frameBuf.Length == FRAME_BUFFER_SIZE && frameBuf[..] == rd.buf
    requires gapBuf.View() == IngestAll(gapBuf.cfg, start, rd.done.packets)
    modifies gapBuf, gapBuf.slots, frameBuf
    ensures gapBuf.Valid()
    ensures var after := ReadNext(rd, r, filter);
            && frameBuf[..] == after.buf && Tallies(stats, after.done)
            && gapBuf.View() == IngestAll(gapBuf.cfg, start, after.done.packets)
    ensures stats.messagesIngested - before.messagesIngested == |gapBuf.log| - |old(gapBuf.log)|
  {
    if r.Oversized? {
      return before.(truncatedSkipped := before.truncatedSkipped + 1);
    }
    Load(frameBuf, r.frame);
    stats := before.(packetsRead := before.packetsRead + 1);
    var wanted := Wanted(r, filter);
    if wanted.None? {
      return stats.(nonUdpSkipped := stats.nonUdpSkipped + 1);
    }
    var udp := wanted.value;
    stats := stats.(udpPackets := stats.udpPackets + 1);
    var payload, tsNs := frameBuf[udp.offset..udp.End()], TimeNs(r.sec, r.usec);
    ghost var packet := Packet(payload, udp.port, tsNs);
    assert ReadNext(rd, r, filter).done.packets == rd.done.packets + [packet];
    IngestOneMore(gapBuf.cfg, start, rd.done.packets, packet);
    IngestNeverShrinks(gapBuf.cfg, gapBuf.View(), payload, tsNs);
    var ingested := gapBuf.Ingest(payload, tsNs);
    if ingested > 0 {
      stats := stats.(messagesIngested := stats.messagesIngested + ingested);
    }
  }
}
