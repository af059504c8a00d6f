/** MoldUDP64 framing: the 20-byte header and the walk over length-prefixed messages. */
module Wire {
  import opened Bytes

  const MOLD_HEADER_SIZE := 20
  const SESSION_SIZE := 10

  type Session = s: seq<byte> | |s| == SESSION_SIZE witness seq(SESSION_SIZE, _ => 32)

  datatype MoldHeader = MoldHeader(session: Session, seqNum: u64, msgCount: u16)

  function ParseHeader(buf: seq<byte>): Option<MoldHeader> {
    if |buf| < MOLD_HEADER_SIZE then None
    else Some(MoldHeader(buf[..10], Be64(buf, 10), Be16(buf, 18)))
  }

  function SerialiseHeader(h: MoldHeader): (buf: seq<byte>)
    ensures |buf| == MOLD_HEADER_SIZE
  {
    h.session + ToBE(h.seqNum, 8) + ToBE(h.msgCount, 2)
  }

  lemma HeaderRoundTrip(h: MoldHeader, rest: seq<byte>)
    ensures ParseHeader(SerialiseHeader(h) + rest) == Some(h)
  {
    var buf := SerialiseHeader(h) + rest;
    Pow256Values();
    assert buf[..10] == h.session;
    assert buf[10..18] == ToBE(h.seqNum, 8);
    assert buf[18..20] == ToBE(h.msgCount, 2);
    ReadBack(buf, 10, h.seqNum, 8);
    ReadBack(buf, 18, h.msgCount, 2);
  }

  lemma ParseThenSerialise(buf: seq<byte>)
    requires ParseHeader(buf).Some?
    ensures SerialiseHeader(ParseHeader(buf).value) == buf[..MOLD_HEADER_SIZE]
  {
    ToFromBE(buf[10..18]);
    ToFromBE(buf[18..20]);
  }

  /** The bodies a receiver walks out of the bytes after the header, at most `count` of them;
      the walk stops at the first message that does not fit. */
  function Frames(data: seq<byte>, count: nat): (bodies: seq<seq<byte>>)
    ensures |bodies| <= count
    ensures 2 * |bodies| <= |data|
    decreases count
  {
    if count == 0 || |data| < 2 then []
    else
      var n := Be16(data, 0);
      if |data| < 2 + n then [] else [data[2..2 + n]] + Frames(data[2 + n..], count - 1)
  }

  /** A sender's encoding of a list of message bodies. */
  function EncodeBodies(bodies: seq<seq<byte>>): seq<byte> {
    if bodies == [] then []
    else ToBE(|bodies[0]|, 2) + bodies[0] + EncodeBodies(bodies[1..])
  }

  ghost predicate Sendable(bodies: seq<seq<byte>>) {
    forall i :: 0 <= i < |bodies| ==> |bodies[i]| < U16_MOD
  }

  /** One step of the walk over bytes that start with an encoded body. */
  lemma FramesHead(body: seq<byte>, rest: seq<byte>, count: nat)
    requires |body| < U16_MOD && count > 0
    ensures Frames(ToBE(|body|, 2) + body + rest, count) == [body] + Frames(rest, count - 1)
  {
    var data := ToBE(|body|, 2) + body + rest;
    Pow256Values();
    assert data[0..2] == ToBE(|body|, 2);
    ReadBack(data, 0, |body|, 2);
    assert data[2..2 + |body|] == body;
    assert data[2 + |body|..] == rest;
  }

  lemma {:induction false} FramingRoundTrip(bodies: seq<seq<byte>>, rest: seq<byte>)
    requires Sendable(bodies)
    ensures Frames(EncodeBodies(bodies) + rest, |bodies|) == bodies
  {
    if bodies != [] {
      var tail := EncodeBodies(bodies[1..]) + rest;
      assert EncodeBodies(bodies) + rest == ToBE(|bodies[0]|, 2) + bodies[0] + tail;
      FramesHead(bodies[0], tail, |bodies|);
      FramingRoundTrip(bodies[1..], rest);
      assert [bodies[0]] + bodies[1..] == bodies;
    }
  }

  lemma AfterHeader(header: seq<byte>, data: seq<byte>)
    ensures (header + data)[|header|..] == data + []
  {
  }

  /** A whole datagram: header and messages are read back exactly. */
  lemma PacketRoundTrip(session: Session, first: u64, bodies: seq<seq<byte>>)
    requires Sendable(bodies) && |bodies| < U16_MOD
    ensures var packet := SerialiseHeader(MoldHeader(session, first, |bodies|)) + EncodeBodies(bodies);
            && ParseHeader(packet) == Some(MoldHeader(session, first, |bodies|))
            && Frames(packet[MOLD_HEADER_SIZE..], |bodies|) == bodies
  {
    var h := MoldHeader(session, first, |bodies|);
    var packet := SerialiseHeader(h) + EncodeBodies(bodies);
    HeaderRoundTrip(h, EncodeBodies(bodies));
    AfterHeader(SerialiseHeader(h), EncodeBodies(bodies));
    FramingRoundTrip(bodies, []);
  }

  /** One step of the walk, with its parts named. */
  lemma FramesUnfold(data: seq<byte>, count: nat, n: nat, body: seq<byte>, rest: seq<byte>)
    requires count > 0 && |data| >= 2 + n && Be16(data, 0) == n && body == data[2..2 + n] && rest == data[2 + n..]
    ensures Frames(data, count) == [body] + Frames(rest, count - 1)
  {
  }

  /** No whole message starts at `at`. */
  predicate NoMessageAt(data: seq<byte>, at: nat) {
    at + 2 > |data| || at + 2 + Be16(data, at) > |data|
  }

  lemma NothingThere(data: seq<byte>, count: nat)
    requires count == 0 || NoMessageAt(data, 0)
    ensures Frames(data, count) == [] && EncodeBodies(Frames(data, count)) == []
  {
  }

  lemma PartsOfCut(data: seq<byte>, cut: seq<byte>, n: nat)
    requires cut <= data && 2 + n <= |cut|
    ensures Be16(cut, 0) == Be16(data, 0) && cut[2..2 + n] == data[2..2 + n] && cut[2 + n..] <= data[2 + n..]
  {
    assert cut[0..2] == data[0..2];
  }

  lemma SameHead(head: seq<seq<byte>>, a: seq<seq<byte>>, b: seq<seq<byte>>)
    requires a <= b
    ensures head + a <= head + b
  {
  }

  /** Two walks from the same head. */
  lemma CutStep(data: seq<byte>, cut: seq<byte>, count: nat)
    requires cut <= data && count > 0 && !NoMessageAt(cut, 0)
    ensures var n: nat := Be16(cut, 0);
            && cut[2 + n..] <= data[2 + n..]
            && Frames(cut, count) == [data[2..2 + n]] + Frames(cut[2 + n..], count - 1)
            && Frames(data, count) == [data[2..2 + n]] + Frames(data[2 + n..], count - 1)
  {
    var n: nat := Be16(cut, 0);
    PartsOfCut(data, cut, n);
    FramesUnfold(data, count, n, data[2..2 + n], data[2 + n..]);
    FramesUnfold(cut, count, n, data[2..2 + n], cut[2 + n..]);
  }

  lemma {:induction false} FramesOfCut(data: seq<byte>, cut: seq<byte>, count: nat)
    requires cut <= data
    ensures Frames(cut, count) <= Frames(data, count)
    decreases count
  {
    if count == 0 || NoMessageAt(cut, 0) {
      NothingThere(cut, count);
    } else {
      var n: nat := Be16(cut, 0);
      assert |data| >= 2 + n && cut[2 + n..] <= data[2 + n..] by {
        PartsOfCut(data, cut, n);
      }
      var body, cutRest, rest := data[2..2 + n], cut[2 + n..], data[2 + n..];
      calc {
        Frames(cut, count);
        { CutStep(data, cut, count); }
        [body] + Frames(cutRest, count - 1);
      <= {
          FramesOfCut(rest, cutRest, count - 1);
          SameHead([body], Frames(cutRest, count - 1), Frames(rest, count - 1));
        }
        [body] + Frames(rest, count - 1);
      == { CutStep(data, cut, count); }
        Frames(data, count);
      }
    }
  }

  /** Cutting the bytes short can only drop messages from the end. */
  lemma FramesOfPrefix(data: seq<byte>, k: nat, count: nat)
    requires k <= |data|
    ensures Frames(data[..k], count) <= Frames(data, count)
  {
    FramesOfCut(data, data[..k], count);
  }

  /** Conversely, what the walk returns is what a sender would have encoded there. */
  lemma {:induction false} FramesReEncode(data: seq<byte>, count: nat)
    ensures EncodeBodies(Frames(data, count)) <= data
    decreases count
  {
    if Frames(data, count) != [] {
      var n: nat := Be16(data, 0);
      var body, rest := data[2..2 + n], data[2 + n..];
      FramesUnfold(data, count, n, body, rest);
      FramesReEncode(rest, count - 1);
      ReEncodeStep(data, n, body, rest, Frames(rest, count - 1));
    }
  }

  lemma ReEncodeStep(data: seq<byte>, n: nat, body: seq<byte>, rest: seq<byte>, tail: seq<seq<byte>>)
    requires 2 + n <= |data| && Be16(data, 0) == n && body == data[2..2 + n] && rest == data[2 + n..]
    requires EncodeBodies(tail) <= rest
    ensures EncodeBodies([body] + tail) <= data
  {
    HeadReEncodes(data, n);
    EncodeHead(body, tail);
    PrefixAfter(data, 2 + n, EncodeBodies(tail));
  }

  /** The length prefix and body as a sender writes them are the bytes they were read from. */
  lemma HeadReEncodes(data: seq<byte>, n: nat)
    requires 2 + n <= |data| && Be16(data, 0) == n
    ensures ToBE(n, 2) + data[2..2 + n] == data[..2 + n]
  {
    ToFromBE(data[0..2]);
    assert data[..2 + n] == data[0..2] + data[2..2 + n];
  }

  lemma EncodeHead(body: seq<byte>, tail: seq<seq<byte>>)
    ensures EncodeBodies([body] + tail) == ToBE(|body|, 2) + body + EncodeBodies(tail)
  {
    assert ([body] + tail)[1..] == tail;
  }

  lemma PrefixAfter(data: seq<byte>, k: nat, tail: seq<byte>)
    requires k <= |data| && tail <= data[k..]
    ensures data[..k] + tail <= data
  {
  }

  lemma NoMessageFurtherOn(data: seq<byte>, k: nat, at: nat)
    requires k <= |data| && NoMessageAt(data[k..], at)
    ensures NoMessageAt(data, k + at)
  {
    if k + at + 2 <= |data| {
      assert data[k..][at..at + 2] == data[k + at..k + at + 2];
    }
  }

  lemma EncodedHead(data: seq<byte>, count: nat, n: nat, body: seq<byte>, rest: seq<byte>)
    requires count > 0 && |data| >= 2 + n && Be16(data, 0) == n && body == data[2..2 + n] && rest == data[2 + n..]
    ensures |Frames(data, count)| == 1 + |Frames(rest, count - 1)|
    ensures |EncodeBodies(Frames(data, count))| == 2 + n + |EncodeBodies(Frames(rest, count - 1))|
  {
    FramesUnfold(data, count, n, body, rest);
    EncodeHead(body, Frames(rest, count - 1));
  }

  /** How many bytes the messages found took. */
  function Taken(data: seq<byte>, count: nat): nat {
    |EncodeBodies(Frames(data, count))|
  }

  /** One message further on. */
  lemma StopsFurtherOn(data: seq<byte>, count: nat, n: nat, rest: seq<byte>)
    requires count > 0 && |data| >= 2 + n && Be16(data, 0) == n && rest == data[2 + n..]
    requires |Frames(rest, count - 1)| < count - 1 ==> NoMessageAt(rest, Taken(rest, count - 1))
    ensures |Frames(data, count)| < count ==> NoMessageAt(data, Taken(data, count))
  {
    EncodedHead(data, count, n, data[2..2 + n], rest);
    var used := Taken(rest, count - 1);
    if |Frames(data, count)| < count {
      NoMessageFurtherOn(data, 2 + n, used);
      assert Taken(data, count) == 2 + n + used;
    }
  }

  /** The walk stops early only where no whole message is left. */
  lemma {:induction false} FramesStopOnlyThere(data: seq<byte>, count: nat)
    ensures |Frames(data, count)| < count ==> NoMessageAt(data, Taken(data, count))
    decreases count
  {
    if count == 0 || NoMessageAt(data, 0) {
      NothingThere(data, count);
    } else {
      var n: nat := Be16(data, 0);
      FramesStopOnlyThere(data[2 + n..], count - 1);
      StopsFurtherOn(data, count, n, data[2 + n..]);
    }
  }
}
