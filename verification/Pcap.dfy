/** Capture files: the records a reader finds, whatever the byte order of the file's headers, and where
    a frame's UDP payload lies. */
module Pcap {
  import opened Bytes

  const MAGIC := 0xa1b2c3d4
  const MAGIC_SWAPPED := 0xd4c3b2a1
  const GLOBAL_HEADER_SIZE := 24
  const RECORD_HEADER_SIZE := 16
  const FRAME_BUFFER_SIZE := 65551
  const ETH_TYPE_IPV4 := 0x0800
  const ETH_TYPE_VLAN := 0x8100
  const PROTO_UDP := 17
  const MICROS := 1_000_000

  // ----- Extraction of one UDP payload from an Ethernet frame -----

  /** Where a UDP payload sits in a frame, how long its header says it is, and its destination port. */
  datatype Udp = Udp(offset: nat, length: u16, port: u16) {
    function End(): nat { offset + length }
  }

  /** IPv4 from `at`: protocol, header length, then UDP. */
  function ExtractIp(frame: seq<byte>, at: nat): (r: Option<Udp>)
    requires at <= |frame|
    ensures r.Some? ==> at + 8 <= r.value.offset <= |frame|
  {
    var remaining := |frame| - at;
    if remaining < 20 then None
    else
      var ihl := frame[at] % 16 * 4;
      if frame[at + 9] != PROTO_UDP || remaining < ihl + 8 then None
      else
        var udp := at + ihl;
        var udpLen := Be16(frame, udp + 4);
        if udpLen < 8 then None else Some(Udp(udp + 8, udpLen - 8, Be16(frame, udp + 2)))
  }

  function ExtractUdp(frame: seq<byte>): (r: Option<Udp>)
    ensures r.Some? ==> 22 <= r.value.offset <= |frame|
  {
    if |frame| < 14 then None
    else
      var etherType := Be16(frame, 12);
      if etherType == ETH_TYPE_VLAN then
        if |frame| < 18 || Be16(frame, 16) != ETH_TYPE_IPV4 then None else ExtractIp(frame, 18)
      else if etherType != ETH_TYPE_IPV4 then None
      else ExtractIp(frame, 14)
  }

  /** The payload bytes of a frame that holds them all. */
  function PayloadOf(frame: seq<byte>, udp: Udp): seq<byte>
    requires udp.End() <= |frame|
  {
    frame[udp.offset..udp.End()]
  }

  /** The same payload, four bytes further on. */
  function Shifted(udp: Udp): Udp {
    udp.(offset := udp.offset + 4)
  }

  /** A frame with an 802.1Q tag after the two addresses. */
  function Tagged(frame: seq<byte>, control: u16): seq<byte>
    requires |frame| >= 12
  {
    frame[..12] + ToBE(ETH_TYPE_VLAN, 2) + ToBE(control, 2) + frame[12..]
  }

  lemma ShiftedBe16(a: seq<byte>, b: seq<byte>, at: nat, shift: nat)
    requires at + 2 <= |a| && at + shift + 2 <= |b| && a[at..at + 2] == b[at + shift..at + shift + 2]
    ensures Be16(a, at) == Be16(b, at + shift)
  {
  }

  lemma ShiftedIp(a: seq<byte>, b: seq<byte>, at: nat, shift: nat)
    requires at <= |a| && |b| == |a| + shift && a[at..] == b[at + shift..]
    ensures match ExtractIp(a, at)
            case None => ExtractIp(b, at + shift).None?
            case Some(udp) => ExtractIp(b, at + shift) == Some(udp.(offset := udp.offset + shift))
  {
    if |a| - at >= 20 {
      assert a[at] == a[at..][0] == b[at + shift..][0] == b[at + shift];
      assert a[at + 9] == a[at..][9] == b[at + shift..][9] == b[at + shift + 9];
      var ihl := a[at] % 16 * 4;
      if |a| - at >= ihl + 8 {
        assert a[at + ihl + 4..at + ihl + 6] == a[at..][ihl + 4..ihl + 6];
        assert b[at + shift + ihl + 4..at + shift + ihl + 6] == b[at + shift..][ihl + 4..ihl + 6];
        assert a[at + ihl + 2..at + ihl + 4] == a[at..][ihl + 2..ihl + 4];
        assert b[at + shift + ihl + 2..at + shift + ihl + 4] == b[at + shift..][ihl + 2..ihl + 4];
        ShiftedBe16(a, b, at + ihl + 4, shift);
        ShiftedBe16(a, b, at + ihl + 2, shift);
      }
    }
  }

  /** Tagging an untagged frame shifts what is extracted from it by the tag, and changes nothing else:
      neither the port, nor the length, nor a payload the frame holds. */
  lemma TagShiftsExtraction(frame: seq<byte>, control: u16)
    requires |frame| >= 12 && (|frame| >= 14 ==> Be16(frame, 12) != ETH_TYPE_VLAN)
    ensures var tagged := Tagged(frame, control);
            match ExtractUdp(frame)
            case None => ExtractUdp(tagged).None?
            case Some(udp) =>
              && ExtractUdp(tagged) == Some(Shifted(udp))
              && (udp.End() <= |frame| ==> PayloadOf(tagged, Shifted(udp)) == PayloadOf(frame, udp))
  {
    var tagged := Tagged(frame, control);
    Pow256Values();
    assert tagged[12..14] == ToBE(ETH_TYPE_VLAN, 2);
    ReadBack(tagged, 12, ETH_TYPE_VLAN, 2);
    if |frame| >= 14 {
      assert tagged[16..18] == frame[12..14];
      ShiftedBe16(frame, tagged, 12, 4);
      assert tagged[18..] == frame[14..];
      ShiftedIp(frame, tagged, 14, 4);
      if ExtractUdp(frame).Some? && ExtractUdp(frame).value.End() <= |frame| {
        SlicesAgree(frame, tagged, ExtractUdp(frame).value);
      }
    }
  }

  lemma SlicesAgree(frame: seq<byte>, tagged: seq<byte>, udp: Udp)
    requires 14 <= udp.offset && udp.End() <= |frame| && |tagged| == |frame| + 4 && tagged[18..] == frame[14..]
    ensures PayloadOf(tagged, Shifted(udp)) == PayloadOf(frame, udp)
  {
    SliceOfTail(frame, 14, udp.offset - 14, udp.length);
    SliceOfTail(tagged, 18, udp.offset - 14, udp.length);
  }

  lemma SliceOfTail(s: seq<byte>, k: nat, from: nat, n: nat)
    requires k + from + n <= |s|
    ensures s[k..][from..from + n] == s[k + from..k + from + n]
  {
  }

  // ----- Frames laid out field by field -----

  /** An Ethernet frame: two addresses, an 802.1Q tag or none, the type and what it carries. */
  function Ethernet(addresses: seq<byte>, tag: Option<u16>, etherType: u16, carried: seq<byte>): seq<byte> {
    addresses + (if tag.Some? then ToBE(ETH_TYPE_VLAN, 2) + ToBE(tag.value, 2) else [])
    + ToBE(etherType, 2) + carried
  }

  /** A UDP datagram: ports, length, checksum and what follows. */
  function UdpBytes(src: u16, dst: u16, length: u16, checksum: u16, rest: seq<byte>): seq<byte> {
    ToBE(src, 2) + ToBE(dst, 2) + ToBE(length, 2) + ToBE(checksum, 2) + rest
  }

  lemma UdpFields(src: u16, dst: u16, length: u16, checksum: u16, rest: seq<byte>)
    ensures var udp := UdpBytes(src, dst, length, checksum, rest);
            |udp| == 8 + |rest| && Be16(udp, 2) == dst && Be16(udp, 4) == length
  {
    var udp := UdpBytes(src, dst, length, checksum, rest);
    Pow256Values();
    assert udp[2..4] == ToBE(dst, 2) && udp[4..6] == ToBE(length, 2);
    ReadBack(udp, 2, dst, 2);
    ReadBack(udp, 4, length, 2);
  }

  /** IPv4 with a header of any length, options included, carrying UDP or anything else. */
  lemma ExtractsIpExactly(frame: seq<byte>, at: nat, header: seq<byte>, udp: seq<byte>)
    requires at <= |frame| && frame[at..] == header + udp && |udp| >= 8
    requires |header| >= 20 && |header| == header[0] % 16 * 4
    ensures ExtractIp(frame, at)
         == if header[9] == 17 && Be16(udp, 4) >= 8
            then Some(Udp(at + |header| + 8, Be16(udp, 4) - 8, Be16(udp, 2))) else None
  {
    var rest := frame[at..];
    assert frame[at] == rest[0] == header[0] && frame[at + 9] == rest[9] == header[9];
    var k := at + |header|;
    TailOfTail(frame, at, header, udp);
    SliceOfTail(frame, k, 2, 2);
    SliceOfTail(frame, k, 4, 2);
    ShiftedBe16(udp, frame, 2, k);
    ShiftedBe16(udp, frame, 4, k);
  }

  lemma TailOfTail(frame: seq<byte>, at: nat, header: seq<byte>, udp: seq<byte>)
    requires at <= |frame| && frame[at..] == header + udp
    ensures at + |header| <= |frame| && frame[at + |header|..] == udp
  {
    assert frame[at + |header|..] == frame[at..][|header|..];
  }

  /** What exactly is extracted from a frame, tagged or not, whose IPv4 header may have options: the
      payload of UDP over IPv4 with a length of at least its header, and nothing of any other type,
      protocol or shorter length. */
  lemma ExtractsExactly(addresses: seq<byte>, tag: Option<u16>, etherType: u16, header: seq<byte>,
                        src: u16, dst: u16, length: u16, checksum: u16, rest: seq<byte>)
    requires |addresses| == 12 && (tag.None? ==> etherType != ETH_TYPE_VLAN)
    requires |header| >= 20 && |header| == header[0] % 16 * 4
    ensures var frame := Ethernet(addresses, tag, etherType, header + UdpBytes(src, dst, length, checksum, rest));
            var at := if tag.Some? then 18 else 14;
            ExtractUdp(frame)
            == if etherType == 0x0800 && header[9] == 17 && length >= 8
               then Some(Udp(at + |header| + 8, length - 8, dst)) else None
  {
    var udp := UdpBytes(src, dst, length, checksum, rest);
    var frame := Ethernet(addresses, tag, etherType, header + udp);
    var at := if tag.Some? then 18 else 14;
    UdpFields(src, dst, length, checksum, rest);
    EthernetFields(addresses, tag, etherType, header + udp);
    ExtractsIpExactly(frame, at, header, udp);
  }

  lemma EthernetFields(addresses: seq<byte>, tag: Option<u16>, etherType: u16, carried: seq<byte>)
    requires |addresses| == 12
    ensures var frame := Ethernet(addresses, tag, etherType, carried);
            if tag.Some? then
              && |frame| >= 18 && Be16(frame, 12) == ETH_TYPE_VLAN && Be16(frame, 16) == etherType
              && frame[18..] == carried
            else |frame| >= 14 && Be16(frame, 12) == etherType && frame[14..] == carried
  {
    var frame := Ethernet(addresses, tag, etherType, carried);
    Pow256Values();
    if tag.Some? {
      assert frame[12..14] == ToBE(ETH_TYPE_VLAN, 2) && frame[16..18] == ToBE(etherType, 2);
      ReadBack(frame, 12, ETH_TYPE_VLAN, 2);
      ReadBack(frame, 16, etherType, 2);
    } else {
      assert frame[12..14] == ToBE(etherType, 2);
      ReadBack(frame, 12, etherType, 2);
    }
  }

  /** From the front of a frame the same is extracted, if it holds the UDP header and 20 bytes of IPv4, and
      else nothing. */
  lemma ExtractsFromFront(frame: seq<byte>, k: nat)
    requires k <= |frame| && ExtractUdp(frame).Some?
    ensures ExtractUdp(frame[..k])
         == if k >= ExtractUdp(frame).value.offset && k >= (if Be16(frame, 12) == ETH_TYPE_VLAN then 38 else 34)
            then ExtractUdp(frame) else None
  {
    var front := frame[..k];
    if k >= 14 {
      ShiftedBe16(front, frame, 12, 0);
      if Be16(frame, 12) == ETH_TYPE_VLAN {
        if k >= 18 {
          ShiftedBe16(front, frame, 16, 0);
          IpFromFront(frame, k, 18);
        }
      } else {
        IpFromFront(frame, k, 14);
      }
    }
  }

  lemma IpFromFront(frame: seq<byte>, k: nat, at: nat)
    requires at <= k <= |frame| && ExtractIp(frame, at).Some?
    ensures ExtractIp(frame[..k], at) == if k >= ExtractIp(frame, at).value.offset && k >= at + 20
                                         then ExtractIp(frame, at) else None
  {
    var front := frame[..k];
    var udp := at + frame[at] % 16 * 4;
    if k >= at + 20 && k >= udp + 8 {
      ShiftedBe16(front, frame, udp + 2, 0);
      ShiftedBe16(front, frame, udp + 4, 0);
    }
  }

  // ----- Records -----

  /** A frame the reader's buffer can hold. */
  type Frame = f: seq<byte> | |f| <= FRAME_BUFFER_SIZE witness []

  /** A record of a capture: a frame with its time, or one too long for the reader's buffer. */
  datatype Record = Captured(sec: u32, usec: u32, frame: Frame) | Oversized

  function Swap32(v: u32): u32 {
    FromBEBound(ToLE(v, 4));
    Pow256Values();
    FromBE(ToLE(v, 4))
  }

  /** A 32-bit header field as the little-endian host loads it, swapped if the file calls for it. */
  function Field(data: seq<byte>, at: nat, swap: bool): u32
    requires at + 4 <= |data|
  {
    FromLEBound(data[at..at + 4]);
    Pow256Values();
    var v: u32 := FromLE(data[at..at + 4]);
    if swap then Swap32(v) else v
  }

  /** The length the record at `at` claims for its frame. */
  function Included(file: seq<byte>, at: nat, swap: bool): u32
    requires at + RECORD_HEADER_SIZE <= |file|
  {
    Field(file, at + 8, swap)
  }

  /** The record is oversized and will be skipped, or its frame is all there. */
  predicate Readable(file: seq<byte>, at: nat, swap: bool) {
    at + RECORD_HEADER_SIZE <= |file|
    && (Included(file, at, swap) > FRAME_BUFFER_SIZE
        || at + RECORD_HEADER_SIZE + Included(file, at, swap) <= |file|)
  }

  function RecordAt(file: seq<byte>, at: nat, swap: bool): Record
    requires Readable(file, at, swap)
  {
    var frame := at + RECORD_HEADER_SIZE;
    var included := Included(file, at, swap);
    if included > FRAME_BUFFER_SIZE then Oversized
    else Captured(Field(file, at, swap), Field(file, at + 4, swap), file[frame..frame + included])
  }

  /** The record loop from a position in the file: oversized records are skipped, even past the end,
      and a record cut short ends the replay. */
  function ReadRecords(file: seq<byte>, at: nat, swap: bool): seq<Record>
    decreases |file| - at
  {
    if !Readable(file, at, swap) then []
    else [RecordAt(file, at, swap)] + ReadRecords(file, at + RECORD_HEADER_SIZE + Included(file, at, swap), swap)
  }

  function RecordsOf(file: seq<byte>): seq<Record> {
    if |file| < GLOBAL_HEADER_SIZE then []
    else
      var magic := Field(file, 0, false);
      if magic == MAGIC || magic == MAGIC_SWAPPED then ReadRecords(file, GLOBAL_HEADER_SIZE, magic == MAGIC_SWAPPED)
      else []
  }

  // ----- Files on hosts of either byte order -----

  datatype ByteOrder = Little | Big

  function Number(order: ByteOrder, v: nat, n: nat): (s: seq<byte>)
    ensures |s| == n
  {
    if order.Little? then ToLE(v, n) else ToBE(v, n)
  }

  function GlobalHeader(order: ByteOrder): (s: seq<byte>)
    ensures |s| == GLOBAL_HEADER_SIZE
  {
    Number(order, MAGIC, 4) + Number(order, 2, 2) + Number(order, 4, 2) + Number(order, 0, 4)
    + Number(order, 0, 4) + Number(order, 65535, 4) + Number(order, 1, 4)
  }

  datatype FrameRecord = FrameRecord(sec: u32, usec: u32, frame: seq<byte>)

  function RecordHeader(order: ByteOrder, sec: u32, usec: u32, length: u32): (s: seq<byte>)
    ensures |s| == RECORD_HEADER_SIZE
  {
    Number(order, sec, 4) + Number(order, usec, 4) + Number(order, length, 4) + Number(order, length, 4)
  }

  function RecordBytes(order: ByteOrder, r: FrameRecord): seq<byte>
    requires |r.frame| < U32_MOD
  {
    RecordHeader(order, r.sec, r.usec, |r.frame|) + r.frame
  }

  ghost predicate Storable(records: seq<FrameRecord>) {
    forall i :: 0 <= i < |records| ==> |records[i].frame| < U32_MOD
  }

  function RecordsBytes(order: ByteOrder, records: seq<FrameRecord>): seq<byte>
    requires Storable(records)
  {
    if records == [] then [] else RecordBytes(order, records[0]) + RecordsBytes(order, records[1..])
  }

  function FileBytes(order: ByteOrder, records: seq<FrameRecord>): seq<byte>
    requires Storable(records)
  {
    GlobalHeader(order) + RecordsBytes(order, records)
  }

  /** The record a stored frame is read back as. */
  function Stored(r: FrameRecord): Record {
    if |r.frame| > FRAME_BUFFER_SIZE then Oversized else Captured(r.sec, r.usec, r.frame)
  }

  function AllStored(records: seq<FrameRecord>): seq<Record> {
    seq(|records|, i requires 0 <= i < |records| => Stored(records[i]))
  }

  lemma SwapIsBigEndian(s: seq<byte>)
    requires |s| == 4
    ensures FromLE(s) < U32_MOD && Swap32(FromLE(s)) == FromBE(s)
  {
    FromLEBound(s);
    Pow256Values();
    ToFromLE(s);
  }

  /** A field written in either byte order reads back the same. */
  lemma FieldReadBack(order: ByteOrder, data: seq<byte>, at: nat, v: u32)
    requires at + 4 <= |data| && data[at..at + 4] == Number(order, v, 4)
    ensures Field(data, at, order.Big?) == v
  {
    Pow256Values();
    if order.Little? {
      FromToLE(v, 4);
    } else {
      FromToBE(v, 4);
      SwapIsBigEndian(data[at..at + 4]);
    }
  }

  /** Where the four header fields and the frame of a record lie in the file. */
  lemma HeaderSlices(before: seq<byte>, a: seq<byte>, b: seq<byte>, c: seq<byte>, d: seq<byte>,
                     frame: seq<byte>, rest: seq<byte>)
    requires |a| == |b| == |c| == |d| == 4
    ensures var file := before + a + b + c + d + frame + rest;
            var at := |before|;
            && file[at..at + 4] == a && file[at + 4..at + 8] == b && file[at + 8..at + 12] == c
            && file[at + 16..at + 16 + |frame|] == frame
  {
  }

  lemma HeaderFieldsAt(order: ByteOrder, file: seq<byte>, at: nat, sec: u32, usec: u32, length: u32)
    requires at + RECORD_HEADER_SIZE <= |file|
    requires file[at..at + 4] == Number(order, sec, 4) && file[at + 4..at + 8] == Number(order, usec, 4)
    requires file[at + 8..at + 12] == Number(order, length, 4)
    ensures Field(file, at, order.Big?) == sec && Field(file, at + 4, order.Big?) == usec
    ensures Included(file, at, order.Big?) == length
  {
    FieldReadBack(order, file, at, sec);
    FieldReadBack(order, file, at + 4, usec);
    FieldReadBack(order, file, at + 8, length);
  }

  /** A record whose header fields and frame are in place reads as what was stored. */
  lemma RecordInPlace(file: seq<byte>, at: nat, swap: bool, r: FrameRecord)
    requires |r.frame| < U32_MOD && at + RECORD_HEADER_SIZE + |r.frame| <= |file|
    requires Field(file, at, swap) == r.sec && Field(file, at + 4, swap) == r.usec
    requires Included(file, at, swap) == |r.frame|
    requires file[at + RECORD_HEADER_SIZE..at + RECORD_HEADER_SIZE + |r.frame|] == r.frame
    ensures Readable(file, at, swap) && RecordAt(file, at, swap) == Stored(r)
  {
  }

  lemma RecordReadBack(order: ByteOrder, file: seq<byte>, before: seq<byte>, r: FrameRecord, rest: seq<byte>)
    requires |r.frame| < U32_MOD && file == before + RecordBytes(order, r) + rest
    ensures && Readable(file, |before|, order.Big?) && Included(file, |before|, order.Big?) == |r.frame|
            && RecordAt(file, |before|, order.Big?) == Stored(r)
  {
    var sec, usec, length := Number(order, r.sec, 4), Number(order, r.usec, 4), Number(order, |r.frame|, 4);
    assert file == before + sec + usec + length + length + r.frame + rest;
    RecordSlicesBack(order, file, before, sec, usec, length, r, rest);
    RecordInPlace(file, |before|, order.Big?, r);
  }

  lemma RecordSlicesBack(order: ByteOrder, file: seq<byte>, before: seq<byte>, sec: seq<byte>, usec: seq<byte>,
                         length: seq<byte>, r: FrameRecord, rest: seq<byte>)
    requires |r.frame| < U32_MOD && file == before + sec + usec + length + length + r.frame + rest
    requires sec == Number(order, r.sec, 4) && usec == Number(order, r.usec, 4)
    requires length == Number(order, |r.frame|, 4)
    ensures var at := |before|;
            && at + RECORD_HEADER_SIZE + |r.frame| <= |file|
            && Field(file, at, order.Big?) == r.sec && Field(file, at + 4, order.Big?) == r.usec
            && Included(file, at, order.Big?) == |r.frame|
            && file[at + RECORD_HEADER_SIZE..at + RECORD_HEADER_SIZE + |r.frame|] == r.frame
  {
    HeaderSlices(before, sec, usec, length, length, r.frame, rest);
    HeaderFieldsAt(order, file, |before|, r.sec, r.usec, |r.frame|);
  }

  /** One step of the record loop. */
  lemma ReadOne(file: seq<byte>, at: nat, swap: bool, r: Record, next: nat)
    requires Readable(file, at, swap) && RecordAt(file, at, swap) == r
    requires next == at + RECORD_HEADER_SIZE + Included(file, at, swap)
    ensures ReadRecords(file, at, swap) == [r] + ReadRecords(file, next, swap)
  {
  }

  lemma StoredFirst(records: seq<FrameRecord>)
    requires records != []
    ensures AllStored(records) == [Stored(records[0])] + AllStored(records[1..])
  {
  }

  lemma {:induction false} RecordsReadBack(order: ByteOrder, file: seq<byte>, before: seq<byte>,
                                           records: seq<FrameRecord>)
    requires Storable(records) && file == before + RecordsBytes(order, records)
    ensures ReadRecords(file, |before|, order.Big?) == AllStored(records)
    decreases |records|
  {
    if records == [] {
      assert |file| == |before| && !Readable(file, |before|, order.Big?);
    } else {
      var first, rest := RecordBytes(order, records[0]), RecordsBytes(order, records[1..]);
      var next := before + first;
      assert file == next + rest by {
        AppendIsAssociative(before, first, rest);
      }
      RecordReadBack(order, file, before, records[0], rest);
      ReadOne(file, |before|, order.Big?, Stored(records[0]), |next|);
      RecordsReadBack(order, file, next, records[1..]);
      StoredFirst(records);
    }
  }

  /** The magic number tells the byte order. */
  lemma MagicReadBack(order: ByteOrder, file: seq<byte>)
    requires |file| >= 4 && file[0..4] == Number(order, MAGIC, 4)
    ensures Field(file, 0, false) == (if order.Big? then MAGIC_SWAPPED else MAGIC)
  {
    Pow256Values();
    if order.Little? {
      FieldReadBack(order, file, 0, MAGIC);
    } else {
      BigMagic();
    }
  }

  lemma BigMagic()
    ensures FromLE(ToBE(MAGIC, 4)) == MAGIC_SWAPPED
  {
    assert ToBE(MAGIC, 4) == [0xa1, 0xb2, 0xc3, 0xd4] by {
      assert ToBE(0xa1b2c3, 3) == [0xa1, 0xb2, 0xc3] by {
        assert ToBE(0xa1b2, 2) == [0xa1, 0xb2] by {
          assert ToBE(0xa1, 1) == [0xa1];
        }
      }
    }
    assert FromLE([0xd4]) == 0xd4;
    assert FromLE([0xc3, 0xd4]) == 0xd4c3 by { assert [0xc3, 0xd4][1..] == [0xd4]; }
    assert FromLE([0xb2, 0xc3, 0xd4]) == 0xd4c3b2 by { assert [0xb2, 0xc3, 0xd4][1..] == [0xc3, 0xd4]; }
    assert [0xa1, 0xb2, 0xc3, 0xd4][1..] == [0xb2, 0xc3, 0xd4];
  }

  /** A capture file means the same whichever byte order its headers were written in. */
  lemma FileReadBack(order: ByteOrder, records: seq<FrameRecord>)
    requires Storable(records)
    ensures RecordsOf(FileBytes(order, records)) == AllStored(records)
  {
    var file := FileBytes(order, records);
    assert file[0..4] == GlobalHeader(order)[0..4] == Number(order, MAGIC, 4);
    MagicReadBack(order, file);
    RecordsReadBack(order, file, GlobalHeader(order), records);
  }

  /** Whatever follows them in the file, whole records are read; they come first. */
  lemma {:induction false} RecordsReadFirst(order: ByteOrder, file: seq<byte>, before: seq<byte>,
                                            records: seq<FrameRecord>, rest: seq<byte>)
    requires Storable(records) && file == before + (RecordsBytes(order, records) + rest)
    ensures AllStored(records) <= ReadRecords(file, |before|, order.Big?)
    decreases |records|
  {
    if records == [] {
      assert AllStored(records) == [];
    } else {
      var first, more := RecordBytes(order, records[0]), RecordsBytes(order, records[1..]);
      var next := before + first;
      AppendIsAssociative(first, more, rest);
      AppendIsAssociative(before, first, more + rest);
      RecordReadBack(order, file, before, records[0], more + rest);
      ReadOne(file, |before|, order.Big?, Stored(records[0]), |next|);
      RecordsReadFirst(order, file, next, records[1..], rest);
      StoredFirst(records);
      LongerPrefix([Stored(records[0])], AllStored(records[1..]), ReadRecords(file, |next|, order.Big?));
    }
  }

  lemma LongerPrefix(head: seq<Record>, a: seq<Record>, b: seq<Record>)
    requires a <= b
    ensures head + a <= head + b
  {
  }

  /** A capture cut short, or with more after it, reads as its whole records, in either byte order, and
      then what its end allows. */
  lemma CutFileReadsWholeRecords(order: ByteOrder, records: seq<FrameRecord>, rest: seq<byte>)
    requires Storable(records)
    ensures AllStored(records) <= RecordsOf(FileBytes(order, records) + rest)
  {
    var file := FileBytes(order, records) + rest;
    assert file[0..4] == GlobalHeader(order)[0..4] == Number(order, MAGIC, 4);
    MagicReadBack(order, file);
    AppendIsAssociative(GlobalHeader(order), RecordsBytes(order, records), rest);
    RecordsReadFirst(order, file, GlobalHeader(order), records, rest);
  }

  /** A record whose header or frame is cut short ends the replay: nothing of it is read. */
  lemma CutRecordEndsReplay(order: ByteOrder, file: seq<byte>, r: FrameRecord, k: nat)
    requires |r.frame| <= FRAME_BUFFER_SIZE && k < |RecordBytes(order, r)|
    requires |file| >= k && file[|file| - k..] == RecordBytes(order, r)[..k]
    ensures ReadRecords(file, |file| - k, order.Big?) == []
  {
    if k >= RECORD_HEADER_SIZE {
      LengthInHeader(order, r);
      LengthInPlace(file, |file| - k, RecordBytes(order, r), k);
      FieldReadBack(order, file, |file| - k + 8, |r.frame|);
    }
  }

  lemma LengthInHeader(order: ByteOrder, r: FrameRecord)
    requires |r.frame| < U32_MOD
    ensures |RecordBytes(order, r)| == RECORD_HEADER_SIZE + |r.frame|
    ensures RecordBytes(order, r)[8..12] == Number(order, |r.frame|, 4)
  {
    var sec, usec, length := Number(order, r.sec, 4), Number(order, r.usec, 4), Number(order, |r.frame|, 4);
    HeaderSlices([], sec, usec, length, length, r.frame, []);
    assert RecordBytes(order, r) == [] + sec + usec + length + length + r.frame + [];
  }

  lemma LengthInPlace(file: seq<byte>, at: nat, bytes: seq<byte>, k: nat)
    requires RECORD_HEADER_SIZE <= k <= |bytes| && at + k == |file| && file[at..] == bytes[..k]
    ensures file[at + 8..at + 12] == bytes[8..12]
  {
    SliceOfTail(file, at, 8, 4);
    SliceOfFront(bytes, k, 8, 4);
  }

  lemma SliceOfFront(s: seq<byte>, k: nat, from: nat, n: nat)
    requires from + n <= k <= |s|
    ensures s[..k][from..from + n] == s[from..from + n]
  {
  }

  /** A file that is too short or starts with neither byte order's magic number holds no records. */
  lemma OtherFilesReadNothing(file: seq<byte>)
    requires |file| < GLOBAL_HEADER_SIZE || (file[0..4] != ToLE(MAGIC, 4) && file[0..4] != ToBE(MAGIC, 4))
    ensures RecordsOf(file) == []
  {
    if |file| >= GLOBAL_HEADER_SIZE {
      var magic := file[0..4];
      ToFromLE(magic);
      ToFromLE(ToBE(MAGIC, 4));
      BigMagic();
    }
  }
}
