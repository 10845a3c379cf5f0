/** A whole TCP session of a Teltonika tracker: recognising the connection, splitting the stream,
    acknowledging every packet. */
module Session {
  import opened Bytes
  import opened TcpStream
  import Codec7
  import Crc16
  import Codec8
  import CountedFrame

  // ----- handshake and acknowledgements -------------------------------------------------

  /** What a tracker opens its connection with. */
  function Handshake(id: seq<byte>): (h: seq<byte>)
    ensures |h| == |id| + 2
  {
    ToBE(|id| % 0x1_0000, 2) + id
  }

  /** Does a stream whose connection is (not) accepted yet belong to the tracker? */
  predicate IsMyConnection(id: seq<byte>, accepted: bool, buf: seq<byte>) {
    if accepted then true
    else if |buf| < |id| + 2 then false
    else if FromBE(buf[..2]) != |id| % 0x1_0000 then false
    else buf[2..2 + |id|] == id
  }

  predicate IsConnectPacket(id: seq<byte>, data: seq<byte>) {
    if |data| != |id| + 2 then false
    else if FromBE(data[..2]) != |id| % 0x1_0000 then false
    else data[2..] == id
  }

  datatype Answer = Answer(needed: bool, bytes: seq<byte>)

  /** need_answer: a connect packet adds the byte 1 to what is already there, a frame of at least
      15 bytes replaces it by its record count in four bytes. */
  function NeedAnswer(id: seq<byte>, ipValid: bool, data: seq<byte>, before: seq<byte>): Answer {
    if !ipValid then Answer(false, before)
    else if IsConnectPacket(id, data) then Answer(true, before + [1])
    else if |data| >= 15 then Answer(true, [0, 0, 0, data[9]])
    else Answer(false, before)
  }

  lemma PrefixOfTwo(id: seq<byte>, buf: seq<byte>)
    requires |buf| >= |id| + 2
    ensures buf[..|id| + 2] == Handshake(id) <==> FromBE(buf[..2]) == |id| % 0x1_0000 && buf[2..2 + |id|] == id
  {
    assert Pow256(2) == 0x1_0000;
    ToThenFromBE(|id| % 0x1_0000, 2);
    FromThenToBE(buf[..2]);
    hide ToBE, FromBE;
    assert buf[..|id| + 2] == buf[..2] + buf[2..2 + |id|];
    assert Handshake(id)[..2] == ToBE(|id| % 0x1_0000, 2) && Handshake(id)[2..] == id;
    assert buf[..|id| + 2][..2] == buf[..2] && buf[..|id| + 2][2..] == buf[2..2 + |id|];
  }

  /** A new connection is the tracker's exactly when its stream begins with the handshake. */
  lemma MyConnectionExactly(id: seq<byte>, buf: seq<byte>)
    ensures IsMyConnection(id, false, buf) <==> Handshake(id) <= buf
  {
    if |buf| >= |id| + 2 {
      PrefixOfTwo(id, buf);
    }
  }

  lemma ConnectPacketExactly(id: seq<byte>, data: seq<byte>)
    ensures IsConnectPacket(id, data) <==> data == Handshake(id)
  {
    if |data| == |id| + 2 {
      PrefixOfTwo(id, data);
      assert data[..|id| + 2] == data;
    }
  }

  /** Nothing is answered without a valid address; a handshake adds the byte 1 to what is already
      there, and any other packet of 15 bytes or more replaces it by the packet's tenth byte. */
  lemma AnswerExactly(id: seq<byte>, ipValid: bool, data: seq<byte>, before: seq<byte>)
    ensures var a := NeedAnswer(id, ipValid, data, before);
            && (a.needed <==> ipValid && (data == Handshake(id) || |data| >= 15))
            && (!a.needed ==> a.bytes == before)
            && (a.needed && data == Handshake(id) ==> a.bytes == before + [1])
            && (a.needed && data != Handshake(id) ==> a.bytes == [0, 0, 0, data[9]])
  {
    ConnectPacketExactly(id, data);
    hide IsConnectPacket, Handshake;
  }

  // ----- a session --------------------------------------------------------------------

  /** Whether the tracker has claimed the connection, and the state of its stream. */
  datatype SessionState = SessionState(claimed: bool, stream: StreamState)
  datatype Arrival = Arrival(packets: seq<seq<byte>>, state: SessionState, overrun: bool)

  /** do_read_connection: until the tracker is recognised the bytes only pile up. */
  function Arrive(id: seq<byte>, s: SessionState, chunk: seq<byte>): Arrival {
    var stream := s.stream.(buffer := s.stream.buffer + chunk);
    if s.claimed || IsMyConnection(id, stream.accepted, stream.buffer) then
      var r := Split(id, stream);
      Arrival(r.packets, SessionState(true, r.state), r.overrun)
    else Arrival([], SessionState(false, stream), false)
  }

  function Run(id: seq<byte>, chunks: seq<seq<byte>>): Arrival {
    if chunks == [] then Arrival([], SessionState(false, FRESH), false)
    else
      var n := |chunks| - 1;
      var before := Run(id, chunks[..n]);
      var last := Arrive(id, before.state, chunks[n]);
      Arrival(before.packets + last.packets, last.state, last.overrun)
  }

  /** The session when all these bytes arrive at once. */
  function Whole(id: seq<byte>, all: seq<byte>): Arrival {
    if Handshake(id) <= all then
      var r := Feed(id, FRESH, all);
      Arrival(r.packets, SessionState(true, r.state), r.overrun)
    else Arrival([], SessionState(false, StreamState(false, all)), false)
  }

  lemma ClaimedArrive(id: seq<byte>, before: seq<byte>, chunk: seq<byte>)
    requires Handshake(id) <= before
    ensures var first := Whole(id, before);
            var last := Arrive(id, first.state, chunk);
            Whole(id, before + chunk) == Arrival(first.packets + last.packets, last.state, last.overrun)
  {
    hide Split, Handshake, IsMyConnection;
    FeedInTwoSteps(id, FRESH, before, chunk);
    assert Handshake(id) <= before + chunk;
  }

  lemma UnclaimedArrive(id: seq<byte>, before: seq<byte>, chunk: seq<byte>)
    requires !(Handshake(id) <= before)
    ensures Arrive(id, SessionState(false, StreamState(false, before)), chunk) == Whole(id, before + chunk)
  {
    MyConnectionExactly(id, before + chunk);
    hide Split, Handshake, IsMyConnection;
    assert FRESH.(buffer := FRESH.buffer + (before + chunk)) == StreamState(false, before + chunk) by {
      assert [] + (before + chunk) == before + chunk;
    }
  }

  /** A session depends only on the bytes that arrived, not on how they were cut up; nothing
      happens unless they begin with the handshake. */
  lemma {:induction false} RunDependsOnBytes(id: seq<byte>, chunks: seq<seq<byte>>)
    ensures Run(id, chunks) == Whole(id, Flatten(chunks))
  {
    hide Handshake, Flatten, Arrive, Whole;
    if chunks == [] {
      NothingArrived(id);
    } else {
      var n := |chunks| - 1;
      var before, chunk := Flatten(chunks[..n]), chunks[n];
      RunDependsOnBytes(id, chunks[..n]);
      FlattenSnoc(chunks[..n], chunk);
      assert chunks == chunks[..n] + [chunk];
      ArriveOnWhole(id, before, chunk);
    }
  }

  lemma NothingArrived(id: seq<byte>)
    ensures Whole(id, Flatten([])) == Arrival([], SessionState(false, FRESH), false)
  {
  }

  lemma ArriveOnWhole(id: seq<byte>, before: seq<byte>, chunk: seq<byte>)
    ensures var first := Whole(id, before);
            var last := Arrive(id, first.state, chunk);
            Whole(id, before + chunk) == Arrival(first.packets + last.packets, last.state, last.overrun)
  {
    hide Handshake, Arrive;
    if Handshake(id) <= before {
      ClaimedArrive(id, before, chunk);
    } else {
      UnclaimedArrive(id, before, chunk);
      assert [] + Whole(id, before + chunk).packets == Whole(id, before + chunk).packets;
    }
  }

  // ----- what is said over a whole session --------------------------------------------------

  /** What the splitter promises of each frame it delivers. */
  ghost predicate IsDelivered(p: seq<byte>) {
    && 12 <= |p| < 0x8000_0000 && p[..4] == PREAMBLE
    && p == Wrap(p[8..|p| - 4], p[|p| - 4..])
    && Guards(p[|p| - 4..], p[8..|p| - 4])
  }

  ghost predicate AllDelivered(ps: seq<seq<byte>>) {
    forall k | 0 <= k < |ps| :: IsDelivered(ps[k])
  }

  lemma CutIsDelivered(buf: seq<byte>)
    requires NextCut(buf).Frame? && NextCut(buf).valid
    ensures IsDelivered(NextCut(buf).bytes)
  {
    CutShape(buf);
    hide NextCut, Wrap, Guards;
    var p := NextCut(buf).bytes;
    WrapLayout(p[8..|p| - 4], p[|p| - 4..]);
    assert p[..4] == p[0..4];
  }

  lemma {:induction false} FramesAreDelivered(buf: seq<byte>)
    ensures AllDelivered(Frames(buf).packets)
    decreases |buf|
  {
    hide NextCut, IsDelivered;
    var cut := NextCut(buf);
    if cut.Frame? {
      FramesAreDelivered(cut.rest);
      if cut.valid {
        CutIsDelivered(buf);
      }
    }
  }

  /** A delivered frame can be mistaken for a connect packet only by a tracker whose id is a
      positive multiple of 65536 bytes long and is itself the rest of a valid frame. */
  lemma ConfusionExactly(id: seq<byte>, p: seq<byte>)
    requires IsDelivered(p)
    ensures IsConnectPacket(id, p) <==> |id| % 0x1_0000 == 0 && p == [0, 0] + id
    ensures IsConnectPacket(id, p) ==> |id| >= 0x1_0000
  {
    ConnectPacketExactly(id, p);
    HandshakeStart(id);
    hide ToBE, FromBE, Wrap, Guards, Handshake, IsConnectPacket;
    assert p[..2] == p[..4][..2] == [0, 0];
    if p == Handshake(id) {
      assert p == [0, 0] + id;
    }
  }

  /** The handshake begins with two zeros only if the length of the id does not fit. */
  lemma HandshakeStart(id: seq<byte>)
    ensures Handshake(id)[2..] == id && Handshake(id) == Handshake(id)[..2] + id
    ensures Handshake(id)[..2] == [0, 0] <==> |id| % 0x1_0000 == 0
  {
    var n := |id| % 0x1_0000;
    assert ToBE(0, 2) == ToBE(0, 1) + [0] && ToBE(0, 1) == [0];
    assert Pow256(2) == 0x1_0000;
    ToThenFromBE(n, 2);
    ToThenFromBE(0, 2);
    hide ToBE, FromBE;
    assert Handshake(id)[..2] == ToBE(n, 2);
  }

  /** Such an id exists: 65536 bytes that continue an intact frame of zeros. */
  lemma LongIdIsConfused() returns (id: seq<byte>, p: seq<byte>)
    ensures |id| == 0x1_0000 && IsDelivered(p) && IsConnectPacket(id, p)
  {
    var payload: seq<byte> := seq(0xFFF6, _ => 0);
    var trailer: seq<byte> := [0, 0, 0, 0];
    p := Wrap(payload, trailer);
    WrapLayout(payload, trailer);
    Crc16.ZerosHaveZeroCrc(payload);
    assert Guards(trailer, payload) by {
      Crc16.ZeroField();
    }
    hide Wrap, Guards, Crc16.Of, IsConnectPacket;
    assert p[..4] == p[0..4] == PREAMBLE;
    assert p[|p| - 4..] == trailer && p[8..|p| - 4] == payload;
    id := p[2..];
    assert p == [0, 0] + id by {
      assert p[0] == p[..4][0] && p[1] == p[..4][1];
    }
    ConfusionExactly(id, p);
  }

  /** The handshake is answered by the byte 1; every later packet is a frame, is never taken for
      a handshake, and is answered by its declared record count, which no parser exceeds. */
  ghost predicate ProtocolKept(id: seq<byte>, ps: seq<seq<byte>>) {
    && (ps != [] ==> ps[0] == Handshake(id) && NeedAnswer(id, true, ps[0], []) == Answer(true, [1]))
    && forall k | 1 <= k < |ps| :: FrameAnswered(id, ps[k])
  }

  ghost predicate FrameAnswered(id: seq<byte>, p: seq<byte>) {
    && IsDelivered(p)
    && !IsConnectPacket(id, p)
    && NeedAnswer(id, true, p, []) == (if |p| >= 15 then Answer(true, [0, 0, 0, p[9]]) else Answer(false, []))
    && (|p| >= 15 ==> |Codec7.ParseFrame(p).records| <= p[9] && |Codec8.ParseFrame(p).records| <= p[9])
  }

  lemma DeliveredFrameIsAnswered(id: seq<byte>, p: seq<byte>)
    requires IsDelivered(p) && |id| < 0x1_0000
    ensures FrameAnswered(id, p)
  {
    ConfusionExactly(id, p);
    hide Wrap, Guards, Codec7.RecordsFrom, Codec8.RecordsFrom, IsConnectPacket;
  }

  lemma FrameIsNoHandshake(id: seq<byte>, payload: seq<byte>, trailer: seq<byte>)
    requires |id| < 0x1_0000 && |trailer| == 4
    ensures !IsConnectPacket(id, Wrap(payload, trailer))
  {
    var p := Wrap(payload, trailer);
    ConnectPacketExactly(id, p);
    HandshakeStart(id);
    WrapLayout(payload, trailer);
    hide Wrap, Handshake, IsConnectPacket;
    assert p[..2] == p[0..4][..2] == [0, 0];
  }

  /** A frame of records built by a tracker is acknowledged with exactly the records parsed. */
  lemma SentRecordsAreAcknowledged(id: seq<byte>, rs: seq<Codec7.Sent>, trailer: seq<byte>)
    requires |rs| < 256 && (forall r | r in rs :: r.Legal()) && |trailer| == 4
    requires |id| < 0x1_0000
    ensures var p := Wrap(Codec7.Payload(rs), trailer);
            && |Codec7.ParseFrame(p).records| == |rs|
            && NeedAnswer(id, true, p, []) == Answer(true, [0, 0, 0, |rs|])
  {
    Codec7.FrameReadsBack(rs, trailer);
    CountedFrame.Layout(7, |rs|, Codec7.EncodeAll(rs), trailer);
    FrameIsNoHandshake(id, Codec7.Payload(rs), trailer);
    hide Wrap, Codec7.ParseFrame, Codec7.EncodeAll, IsConnectPacket, CountedFrame.CountedPayload;
  }

  lemma SentFmRecordsAreAcknowledged(id: seq<byte>, rs: seq<Codec8.Sent>, trailer: seq<byte>)
    requires |rs| < 256 && (forall r | r in rs :: r.Legal()) && |trailer| == 4
    requires |id| < 0x1_0000
    ensures var p := Wrap(Codec8.Payload(rs), trailer);
            && |Codec8.ParseFrame(p).records| == |rs|
            && NeedAnswer(id, true, p, []) == Answer(true, [0, 0, 0, |rs|])
  {
    Codec8.FrameReadsBack(rs, trailer);
    CountedFrame.Layout(8, |rs|, Codec8.EncodeAll(rs), trailer);
    FrameIsNoHandshake(id, Codec8.Payload(rs), trailer);
    hide Wrap, Codec8.ParseFrame, Codec8.EncodeAll, IsConnectPacket, CountedFrame.CountedPayload;
  }

  lemma ParsedFromFrame(p: seq<byte>)
    requires |p| >= 15
    ensures |Codec7.ParseFrame(p).records| == p[9] <==>
            p[9] == 0 || (Codec7.IsCodec7(p) && Codec7.RecordsEnd(p, 10, p[9]) <= |p| - 5)
    ensures |Codec8.ParseFrame(p).records| == p[9] <==>
            p[9] == 0 || (Codec8.IsCodec8(p) && Codec8.RecordsEnd(p, 10, p[9]) <= |p| - 5)
  {
    hide Codec7.RecordsEnd, Codec8.RecordsEnd, Codec7.RecordsFrom, Codec8.RecordsFrom;
    if Codec7.IsCodec7(p) {
      Codec7.ParsedExactly(p, 10, |p| - 5, p[9]);
    }
    if Codec8.IsCodec8(p) {
      Codec8.ParsedExactly(p, 10, |p| - 5, p[9]);
    }
  }

  /** A delivered frame of 15 bytes or more is acknowledged with more records than were parsed
      exactly when it announces some and is of another codec, or too short to be looked into, or
      the lengths of the announced records do not fit in front of its last five bytes. */
  lemma OverstatedExactly(id: seq<byte>, p: seq<byte>)
    requires IsDelivered(p) && |id| < 0x1_0000 && |p| >= 15
    ensures NeedAnswer(id, true, p, []).bytes[3] > |Codec7.ParseFrame(p).records| <==>
            p[9] > 0 && !(Codec7.IsCodec7(p) && Codec7.RecordsEnd(p, 10, p[9]) <= |p| - 5)
    ensures NeedAnswer(id, true, p, []).bytes[3] > |Codec8.ParseFrame(p).records| <==>
            p[9] > 0 && !(Codec8.IsCodec8(p) && Codec8.RecordsEnd(p, 10, p[9]) <= |p| - 5)
  {
    hide IsDelivered, IsConnectPacket, NeedAnswer, Codec7.RecordsEnd, Codec8.RecordsEnd;
    hide Codec7.ParseFrame, Codec8.ParseFrame;
    DeliveredFrameIsAnswered(id, p);
    ParsedFromFrame(p);
  }

  lemma FirstFeed(id: seq<byte>, buf: seq<byte>)
    requires Handshake(id) <= buf
    ensures Feed(id, FRESH, buf).packets == [Handshake(id)] + Frames(buf[|id| + 2..]).packets
  {
    hide Frames;
    assert FRESH.(buffer := FRESH.buffer + buf) == StreamState(false, buf);
    assert buf[..|id| + 2] == Handshake(id);
  }

  lemma HandshakeIsAnswered(id: seq<byte>)
    ensures NeedAnswer(id, true, Handshake(id), []) == Answer(true, [1])
  {
    ConnectPacketExactly(id, Handshake(id));
    assert [] + [1] == [1];
  }

  lemma FramesKeepProtocol(id: seq<byte>, ps: seq<seq<byte>>)
    requires |id| < 0x1_0000 && AllDelivered(ps)
    ensures ProtocolKept(id, [Handshake(id)] + ps)
  {
    HandshakeIsAnswered(id);
    hide NeedAnswer, IsConnectPacket, Handshake, IsDelivered, FrameAnswered;
    var all := [Handshake(id)] + ps;
    forall k | 1 <= k < |all|
      ensures FrameAnswered(id, all[k])
    {
      assert all[k] == ps[k - 1];
      DeliveredFrameIsAnswered(id, ps[k - 1]);
    }
  }

  lemma SilenceKeepsProtocol(id: seq<byte>)
    ensures ProtocolKept(id, [])
  {
  }

  /** The protocol over whole runs, however the stream is cut into arrivals. */
  lemma SessionKeepsProtocol(id: seq<byte>, chunks: seq<seq<byte>>)
    requires |id| < 0x1_0000
    ensures ProtocolKept(id, Run(id, chunks).packets)
    ensures Run(id, chunks).packets != [] <==> Handshake(id) <= Flatten(chunks)
  {
    RunDependsOnBytes(id, chunks);
    hide Run, Feed, Handshake, ProtocolKept, Frames, IsDelivered, Flatten;
    if Handshake(id) <= Flatten(chunks) {
      var rest := Flatten(chunks)[|id| + 2..];
      FirstFeed(id, Flatten(chunks));
      FramesAreDelivered(rest);
      FramesKeepProtocol(id, Frames(rest).packets);
    } else {
      SilenceKeepsProtocol(id);
    }
  }

  // ----- the driver loop ------------------------------------------------------------------------

  /** The answers written for the packets, in order. */
  function Answers(id: seq<byte>, packets: seq<seq<byte>>): seq<seq<byte>> {
    if packets == [] then []
    else
      var n := |packets| - 1;
      var a := NeedAnswer(id, true, packets[n], []);
      Answers(id, packets[..n]) + if a.needed then [a.bytes] else []
  }

  method IsMyConnectionOf(tracker: Tracker, con: Connection) returns (mine: bool)
    ensures mine == IsMyConnection(tracker.deviceId, tracker.acceptedStream == con, con.readBuffer)
  {
    var buf, id := con.readBuffer, tracker.deviceId;
    if tracker.acceptedStream == con {
      return true;
    }
    if |buf| < |id| + 2 {
      return false;
    }
    var len := FromBE(buf[..2]);
    if len != |id| % 0x1_0000 {
      return false;
    }
    return buf[2..2 + |id|] == id;
  }

  method NeedAnswerOf(tracker: Tracker, ipValid: bool, data: seq<byte>, before: seq<byte>)
    returns (needed: bool, answer: seq<byte>)
    ensures Answer(needed, answer) == NeedAnswer(tracker.deviceId, ipValid, data, before)
  {
    answer := before;
    if !ipValid {
      return false, answer;
    }
    if IsConnectPacket(tracker.deviceId, data) {
      answer := answer + [1];
      return true, answer;
    }
    if |data| >= 15 {
      var numRecord := data[9];
      answer := [];
      answer := answer + [0];
      answer := answer + [0];
      answer := answer + [0];
      answer := answer + [numRecord];
      return true, answer;
    }
    return false, answer;
  }

  /** Bytes arrive on a connection that only this tracker can claim. */
  method DoReadConnection(tracker: Tracker, con: Connection, chunk: seq<byte>)
    returns (packets: seq<seq<byte>>, answers: seq<seq<byte>>, overrun: bool)
    modifies tracker, con
    ensures Arrival(packets, SessionState(tracker.current == con, tracker.State(con)), overrun) ==
            Arrive(tracker.deviceId, old(SessionState(tracker.current == con, tracker.State(con))), chunk)
    ensures answers == Answers(tracker.deviceId, packets)
  {
    hide Split, IsMyConnection, NeedAnswer;
    packets, answers, overrun := [], [], false;
    con.Read(chunk);
    if tracker.current != con {
      var mine := IsMyConnectionOf(tracker, con);
      if !mine {
        return;
      }
      tracker.current := con;
    }
    packets, overrun := tracker.SplitTcpStream();
    ghost var state := tracker.State(con);
    var i := 0;
    while i < |packets|
      invariant tracker.current == con && tracker.State(con) == state
      invariant i <= |packets| && answers == Answers(tracker.deviceId, packets[..i])
    {
      var needed, answer := NeedAnswerOf(tracker, true, packets[i], []);
      if needed {
        answers := answers + [answer];
      }
      assert packets[..i + 1][..i] == packets[..i];
      i := i + 1;
    }
    assert packets[..i] == packets;
  }
}
