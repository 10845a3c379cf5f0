/** Cutting a Teltonika TCP stream into a handshake packet and CRC-protected frames.

    A frame is four zero bytes, a four-byte length, that many payload bytes and a four-byte
    checksum field of which only the low half is looked at. */
module TcpStream {
  import opened Bytes
  import opened Division
  import Crc16

  // ----- one frame ----------------------------------------------------------

  const TWO_TO_THE_32 := 0x1_0000_0000

  /** The four length bytes of a frame that starts at `at`. */
  function LengthField(buf: seq<byte>, at: nat): nat
    requires at + 8 <= |buf|
  {
    FromBE(buf[at + 4..at + 8])
  }

  /** The size of the whole frame as the source computes it: twelve is added in 32-bit unsigned
      arithmetic and the sum is compared as a signed int. */
  function FrameSize(field: nat): int {
    Signed((field + 12) % TWO_TO_THE_32, TWO_TO_THE_32)
  }

  predicate CrcMatches(frame: seq<byte>)
    requires |frame| >= 12
  {
    Crc16.FromField(frame[|frame| - 2], frame[|frame| - 1]) == Crc16.Of(frame[8..|frame| - 4])
  }

  datatype Cut =
    | Incomplete
      // the announced size makes the source read outside its buffer; what then happens is undefined
    | Overrun
    | Frame(bytes: seq<byte>, valid: bool, rest: seq<byte>)

  /** What one pass of the loop does with the bytes after the handshake. */
  function NextCut(buf: seq<byte>): (cut: Cut)
    ensures cut.Frame? ==> |cut.rest| < |buf|
  {
    var at := FindZeros(buf, 4);
    if |buf| - at < 12 then Incomplete
    else
      var size := FrameSize(LengthField(buf, at));
      if |buf| - at < size then Incomplete
      else if size < 12 then Overrun
      else
        var frame := buf[at..at + size];
        Frame(frame, CrcMatches(frame), buf[at + size..])
  }

  // ----- a whole buffer -----------------------------------------------------

  /** What is taken off the front of a buffer: the packets, the bytes left, and whether the loop
      stopped because of an overrun. */
  datatype Scan = Scan(packets: seq<seq<byte>>, rest: seq<byte>, overrun: bool) {

    /** This scan when `earlier` was taken off before it. */
    function Behind(earlier: seq<seq<byte>>): Scan {
      this.(packets := earlier + packets)
    }

    lemma BehindTwice(a: seq<seq<byte>>, b: seq<seq<byte>>)
      ensures Behind(b).Behind(a) == Behind(a + b)
    {
      assert a + (b + packets) == a + b + packets;
    }
  }

  function Frames(buf: seq<byte>): Scan
    decreases |buf|
  {
    match NextCut(buf)
    case Incomplete => Scan([], buf, false)
    case Overrun => Scan([], buf, true)
    case Frame(bytes, valid, rest) => Frames(rest).Behind(if valid then [bytes] else [])
  }

  datatype StreamState = StreamState(accepted: bool, buffer: seq<byte>)
  datatype SplitResult = SplitResult(packets: seq<seq<byte>>, state: StreamState, overrun: bool) {

    function Behind(earlier: seq<seq<byte>>): SplitResult {
      this.(packets := earlier + packets)
    }

    lemma BehindTwice(a: seq<seq<byte>>, b: seq<seq<byte>>)
      ensures Behind(b).Behind(a) == Behind(a + b)
    {
      assert a + (b + packets) == a + b + packets;
    }

    lemma BehindNothing()
      ensures Behind([]) == this
    {
      assert [] + packets == packets;
    }
  }

  /** split_tcp_stream: the first |id| + 2 bytes are the handshake, whatever they are. */
  function Split(id: seq<byte>, state: StreamState): SplitResult {
    var n := |id| + 2;
    if state.accepted then Accepted(Frames(state.buffer))
    else if |state.buffer| < n then SplitResult([], state, false)
    else Accepted(Frames(state.buffer[n..]).Behind([state.buffer[..n]]))
  }

  function Accepted(scan: Scan): SplitResult {
    SplitResult(scan.packets, StreamState(true, scan.rest), scan.overrun)
  }

  /** One arrival: the bytes are appended to the read buffer and the splitter is called. */
  function Feed(id: seq<byte>, state: StreamState, chunk: seq<byte>): SplitResult {
    Split(id, state.(buffer := state.buffer + chunk))
  }

  /** The arrivals one after the other. */
  function FeedAll(id: seq<byte>, state: StreamState, chunks: seq<seq<byte>>): SplitResult {
    if chunks == [] then SplitResult([], state, false)
    else
      var n := |chunks| - 1;
      var before := FeedAll(id, state, chunks[..n]);
      var last := Feed(id, before.state, chunks[n]);
      SplitResult(before.packets + last.packets, last.state, last.overrun)
  }

  const FRESH := StreamState(false, [])

  // ----- chunking independence ------------------------------------------------

  /** Once a pass has decided, bytes that arrive later cannot change the decision. */
  lemma CutIsStable(buf: seq<byte>, more: seq<byte>)
    ensures var cut := NextCut(buf);
            !cut.Incomplete? ==> NextCut(buf + more) == if cut.Frame? then cut.(rest := cut.rest + more) else cut
  {
    hide FindZeros, CrcMatches, FromBE, FrameSize;
    var at := FindZeros(buf, 4);
    if |buf| - at >= 12 {
      FindZerosStable(buf, more, 4);
      assert (buf + more)[at + 4..at + 8] == buf[at + 4..at + 8];
      var size := FrameSize(LengthField(buf, at));
      if 12 <= size <= |buf| - at {
        assert (buf + more)[at..at + size] == buf[at..at + size];
        assert (buf + more)[at + size..] == buf[at + size..] + more;
      }
    }
  }

  /** Scanning everything at once is scanning a part, then what is left together with the rest. */
  lemma {:induction false} FramesInTwoSteps(buf: seq<byte>, more: seq<byte>)
    ensures var first := Frames(buf);
            var second := Frames(first.rest + more);
            Frames(buf + more) == second.Behind(first.packets)
    decreases |buf|
  {
    hide NextCut;
    var cut := NextCut(buf);
    CutIsStable(buf, more);
    if cut.Frame? {
      FramesInTwoSteps(cut.rest, more);
      var later := Frames(cut.rest);
      Frames(later.rest + more).BehindTwice(if cut.valid then [cut.bytes] else [], later.packets);
    }
  }

  lemma FeedInTwoSteps(id: seq<byte>, state: StreamState, a: seq<byte>, b: seq<byte>)
    ensures var first := Feed(id, state, a);
            var second := Feed(id, first.state, b);
            Feed(id, state, a + b) == SplitResult(first.packets + second.packets, second.state, second.overrun)
  {
    hide Frames;
    var n := |id| + 2;
    var buf := state.buffer + a;
    assert state.buffer + (a + b) == buf + b;
    if state.accepted {
      FramesInTwoSteps(buf, b);
    } else if |buf| >= n {
      var first := Frames(buf[n..]);
      assert (buf + b)[..n] == buf[..n] && (buf + b)[n..] == buf[n..] + b;
      FramesInTwoSteps(buf[n..], b);
      Frames(first.rest + b).BehindTwice([buf[..n]], first.packets);
    } else {
      assert state.(buffer := buf).buffer + b == buf + b;
    }
  }

  /** However a stream is cut into arrivals, the packets, the leftover and the outcome are those
      of one arrival of the whole stream. */
  lemma {:induction false} ChunkingIndependence(id: seq<byte>, chunks: seq<seq<byte>>)
    ensures FeedAll(id, FRESH, chunks) == Feed(id, FRESH, Flatten(chunks))
  {
    if chunks != [] {
      var n := |chunks| - 1;
      ChunkingIndependence(id, chunks[..n]);
      FlattenSnoc(chunks[..n], chunks[n]);
      assert chunks == chunks[..n] + [chunks[n]];
      FeedInTwoSteps(id, FRESH, Flatten(chunks[..n]), chunks[n]);
    }
  }

  // ----- what frames look like --------------------------------------------------

  const PREAMBLE: seq<byte> := [0, 0, 0, 0]

  /** The frame that carries this payload and this checksum field. */
  function Wrap(payload: seq<byte>, trailer: seq<byte>): seq<byte> {
    PREAMBLE + ToBE(|payload|, 4) + payload + trailer
  }

  lemma WrapLayout(payload: seq<byte>, trailer: seq<byte>)
    requires |trailer| == 4
    ensures var frame := Wrap(payload, trailer);
            && |frame| == |payload| + 12
            && frame[0..4] == PREAMBLE && frame[8..8 + |payload|] == payload && frame[8 + |payload|..] == trailer
  {
    hide ToBE;
  }

  ghost predicate Guards(trailer: seq<byte>, payload: seq<byte>) {
    |trailer| == 4 && Crc16.FromField(trailer[2], trailer[3]) == Crc16.Of(payload)
  }

  /** The largest length field for which the 32-bit size computation is right. */
  const FIELD_LIMIT := 0x8000_0000 - 12

  lemma SizeIsExactBelowLimit(field: nat)
    requires field < TWO_TO_THE_32
    ensures field < FIELD_LIMIT ==> FrameSize(field) == field + 12
    ensures field >= FIELD_LIMIT ==> FrameSize(field) < 12
  {
  }

  lemma FieldIs32Bits(field: seq<byte>)
    requires |field| == 4
    ensures FromBE(field) < TWO_TO_THE_32
  {
    FromBEBound(field);
    assert Pow256(4) == TWO_TO_THE_32;
  }

  /** The loop reads outside its buffer exactly when it meets a length field of 2^31 - 12 or more. */
  lemma OverrunExactly(buf: seq<byte>)
    ensures var at := FindZeros(buf, 4);
            NextCut(buf).Overrun? <==> |buf| - at >= 12 && LengthField(buf, at) >= FIELD_LIMIT
  {
    hide FindZeros, CrcMatches, FromBE;
    var at := FindZeros(buf, 4);
    if |buf| - at >= 12 {
      FieldIs32Bits(buf[at + 4..at + 8]);
      SizeIsExactBelowLimit(LengthField(buf, at));
    }
  }

  /** Whatever is cut off is a wrapped payload that started at the first four zeros; only bytes
      before them are skipped. */
  lemma CutShape(buf: seq<byte>)
    requires NextCut(buf).Frame?
    ensures var cut, at := NextCut(buf), FindZeros(buf, 4);
            && buf == buf[..at] + cut.bytes + cut.rest
            && 12 <= |cut.bytes| < 0x8000_0000
            && var payload, trailer := cut.bytes[8..|cut.bytes| - 4], cut.bytes[|cut.bytes| - 4..];
            && cut.bytes == Wrap(payload, trailer)
            && (cut.valid <==> Guards(trailer, payload))
  {
    hide FindZeros, FromBE, ToBE;
    var cut, at := NextCut(buf), FindZeros(buf, 4);
    var field := buf[at + 4..at + 8];
    FieldIs32Bits(field);
    SizeIsExactBelowLimit(FromBE(field));
    FromThenToBE(field);
    assert ZerosAt(buf, 4, at);
    SliceShape(buf, at, |cut.bytes|);
  }

  lemma SliceShape(buf: seq<byte>, at: nat, size: nat)
    requires at + size <= |buf| && size >= 12 && ZerosAt(buf, 4, at)
    requires ToBE(size - 12, 4) == buf[at + 4..at + 8]
    ensures var frame := buf[at..at + size];
            && buf == buf[..at] + frame + buf[at + size..]
            && frame == Wrap(frame[8..size - 4], frame[size - 4..])
  {
    hide ToBE;
    var frame := buf[at..at + size];
    assert frame[..4] == PREAMBLE;
    SliceOfSlice(buf, at, size, 4, 8);
    assert frame == frame[..4] + frame[4..8] + frame[8..size - 4] + frame[size - 4..];
  }

  /** A wrapped payload at the head of the buffer is what is cut off next. */
  lemma HeadFrameIsCut(payload: seq<byte>, trailer: seq<byte>, rest: seq<byte>)
    requires |payload| < FIELD_LIMIT && |trailer| == 4
    ensures NextCut(Wrap(payload, trailer) + rest) == Frame(Wrap(payload, trailer), Guards(trailer, payload), rest)
  {
    hide FromBE, ToBE;
    var frame := Wrap(payload, trailer);
    var buf := frame + rest;
    assert ZerosAt(buf, 4, 0);
    assert FindZeros(buf, 4) == 0;
    assert buf[4..8] == ToBE(|payload|, 4);
    assert Pow256(4) == TWO_TO_THE_32;
    ToThenFromBE(|payload|, 4);
    SizeIsExactBelowLimit(|payload|);
    assert buf[0..|frame|] == frame && buf[|frame|..] == rest;
    assert frame[8..|frame| - 4] == payload;
  }

  lemma HeadFrameIsScanned(payload: seq<byte>, trailer: seq<byte>, rest: seq<byte>)
    requires |payload| < FIELD_LIMIT && |trailer| == 4
    ensures Frames(Wrap(payload, trailer) + rest)
         == Frames(rest).Behind(if Guards(trailer, payload) then [Wrap(payload, trailer)] else [])
  {
    HeadFrameIsCut(payload, trailer, rest);
    hide NextCut, Wrap, Guards;
  }

  /** Error detection and resynchronisation: a frame whose payload was damaged within sixteen
      consecutive bits is dropped, and the intact frame right behind it is still delivered. */
  lemma DamagedFrameIsDropped(sent: seq<byte>, received: seq<byte>, trailer: seq<byte>, at: nat,
                              payload: seq<byte>, trailer': seq<byte>, rest: seq<byte>)
    requires |sent| < FIELD_LIMIT && Guards(trailer, sent)
    requires received != sent && AgreeOutside(Bits(sent), Bits(received), at, 16)
    requires |payload| < FIELD_LIMIT && Guards(trailer', payload)
    ensures Frames(Wrap(received, trailer) + (Wrap(payload, trailer') + rest))
         == Frames(rest).Behind([Wrap(payload, trailer')])
  {
    assert |received| == |sent|;
    Crc16.DetectsBurst(sent, received, at);
    assert !Guards(trailer, received);
    HeadFrameIsScanned(received, trailer, Wrap(payload, trailer') + rest);
    HeadFrameIsScanned(payload, trailer', rest);
    hide Frames, Wrap;
    var scan := Frames(Wrap(payload, trailer') + rest);
    assert [] + scan.packets == scan.packets;
  }

  /** The same for damage to any two adjacent payload bytes. */
  lemma TwoDamagedBytesAreDropped(sent: seq<byte>, received: seq<byte>, trailer: seq<byte>, at: nat,
                                  payload: seq<byte>, trailer': seq<byte>, rest: seq<byte>)
    requires |sent| < FIELD_LIMIT && Guards(trailer, sent)
    requires received != sent && |received| == |sent|
    requires forall t | 0 <= t < |sent| && !(at <= t < at + 2) :: sent[t] == received[t]
    requires |payload| < FIELD_LIMIT && Guards(trailer', payload)
    ensures Frames(Wrap(received, trailer) + (Wrap(payload, trailer') + rest))
         == Frames(rest).Behind([Wrap(payload, trailer')])
  {
    AdjacentBytesAreABurst(sent, received, at, 2);
    DamagedFrameIsDropped(sent, received, trailer, 8 * at, payload, trailer', rest);
  }

  /** The first pass over a stream that is not yet accepted. */
  lemma HandshakeFirst(id: seq<byte>, buf: seq<byte>, packets: seq<seq<byte>>)
    ensures Split(id, StreamState(false, buf)).Behind(packets) ==
            if |buf| < |id| + 2 then SplitResult(packets, StreamState(false, buf), false)
            else Split(id, StreamState(true, buf[|id| + 2..])).Behind(packets + [buf[..|id| + 2]])
  {
    var n := |id| + 2;
    if |buf| < n {
      assert packets + [] == packets;
    } else {
      Split(id, StreamState(true, buf[n..])).BehindTwice(packets, [buf[..n]]);
    }
  }

  /** Every later pass. */
  lemma FrameNext(id: seq<byte>, buf: seq<byte>, packets: seq<seq<byte>>)
    ensures var cut := NextCut(buf);
            Split(id, StreamState(true, buf)).Behind(packets) ==
            if cut.Frame? then
              Split(id, StreamState(true, cut.rest)).Behind(if cut.valid then packets + [cut.bytes] else packets)
            else SplitResult(packets, StreamState(true, buf), cut.Overrun?)
  {
    var cut := NextCut(buf);
    hide NextCut;
    if cut.Frame? {
      Split(id, StreamState(true, cut.rest)).BehindTwice(packets, if cut.valid then [cut.bytes] else []);
      assert packets + [] == packets;
    } else {
      assert packets + [] == packets;
    }
  }

  /** The tests of one pass, in the order the loop makes them. */
  lemma PassCases(buf: seq<byte>, at: nat, size: int)
    requires at == FindZeros(buf, 4)
    requires |buf| - at >= 12 ==> size == FrameSize(LengthField(buf, at))
    ensures |buf| - at < 12 ==> NextCut(buf).Incomplete?
    ensures |buf| - at >= 12 && |buf| - at < size ==> NextCut(buf).Incomplete?
    ensures |buf| - at >= 12 && |buf| - at >= size && size < 12 ==> NextCut(buf).Overrun?
    ensures |buf| - at >= size >= 12 ==>
              var frame := buf[at..at + size];
              NextCut(buf) == Frame(frame,
                                    Crc16.FromField(frame[size - 2], frame[size - 1]) == Crc16.Of(frame[8..size - 4]),
                                    buf[at + size..])
  {
    hide FindZeros, LengthField, FrameSize, Crc16.Of, Crc16.FromField;
  }

  // ----- the splitter itself ------------------------------------------------------

  class Connection {
    var readBuffer: seq<byte>

    constructor ()
      ensures readBuffer == []
    {
      readBuffer := [];
    }

    method Read(chunk: seq<byte>)
      modifies this
      ensures readBuffer == old(readBuffer) + chunk
    {
      readBuffer := readBuffer + chunk;
    }
  }

  class Tracker {
    const deviceId: seq<byte>
    var current: Connection?
    var acceptedStream: Connection?

    constructor (id: seq<byte>, connection: Connection?)
      ensures deviceId == id && current == connection && acceptedStream == null
    {
      deviceId, current, acceptedStream := id, connection, null;
    }

    function State(connection: Connection): StreamState
      reads this, connection
    {
      StreamState(acceptedStream == connection, connection.readBuffer)
    }

    method SplitTcpStream() returns (packets: seq<seq<byte>>, overrun: bool)
      modifies this`acceptedStream, current
      ensures current == null ==> packets == [] && !overrun && acceptedStream == old(acceptedStream)
      ensures current != null ==>
                SplitResult(packets, State(current), overrun) == Split(deviceId, old(State(current)))
    {
      hide Split, SplitResult.Behind, FindZeros, NextCut, LengthField, FrameSize, Crc16.Of, Crc16.FromField;
      packets, overrun := [], false;
      if current == null {
        return;
      }
      var con := current;
      ghost var expected := Split(deviceId, State(con));
      expected.BehindNothing();
      while true
        invariant current == con && !overrun
        invariant expected == Split(deviceId, State(con)).Behind(packets)
        decreases |con.readBuffer|
      {
        if acceptedStream != con {
          var n := |deviceId| + 2;
          HandshakeFirst(deviceId, con.readBuffer, packets);
          if |con.readBuffer| < n {
            break;
          }
          packets := packets + [con.readBuffer[..n]];
          con.readBuffer := con.readBuffer[n..];
          acceptedStream := con;
        }
        var buf := con.readBuffer;
        FrameNext(deviceId, buf, packets);
        var at := FindZeros(buf, 4);
        PassCases(buf, at, if |buf| - at < 12 then 0 else FrameSize(LengthField(buf, at)));
        if |buf| - at < 12 {
          break;
        }
        var size := FrameSize(LengthField(buf, at));
        if |buf| - at < size {
          break;
        }
        if size < 12 {
          overrun := true;
          break;
        }
        var frame := buf[at..at + size];
        var crc := Crc16.FromField(frame[size - 2], frame[size - 1]);
        var calculated := Crc16.GetCrc(frame[8..size - 4]);
        if crc == calculated {
          packets := packets + [frame];
        }
        con.readBuffer := buf[at + size..];
      }
    }
  }
}
