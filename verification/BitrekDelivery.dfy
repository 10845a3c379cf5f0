/** Whole frames sent one after the other are delivered one by one, and the splitter method. */
module BitrekDelivery {
  import opened Bytes
  import Crc16
  import Division
  import TcpStream
  import opened BitrekStream
  import opened BitrekSplitter

  // ----- whole frames are delivered -------------------------------------------------------

  datatype Item =
    | Answer(data: seq<byte>)
    | Report(payload: seq<byte>, trailer: seq<byte>)

  ghost predicate Legal(item: Item) {
    match item
    case Answer(data) => 0 < |data| < 0x1_0000
    case Report(payload, trailer) => |payload| < TcpStream.FIELD_LIMIT && TcpStream.Guards(trailer, payload)
  }

  function Raw(item: Item): seq<byte> {
    match item
    case Answer(data) => Short(data)
    case Report(payload, trailer) => TcpStream.Wrap(payload, trailer)
  }

  function KindOf(item: Item): Kind {
    if item.Answer? then ShortFrame else LongFrame
  }

  lemma ShortLayout(d: seq<byte>)
    requires 0 < |d| < 0x1_0000
    ensures var frame := Short(d);
            && |frame| == |d| + 6 && frame[0] == 0 && frame[1] == 0
            && frame[2..4] == ToBE(|d|, 2) && frame[4..4 + |d|] == d
            && frame[4 + |d|..] == Crc16.ToField(Crc16.Of(d))
  {
    hide ToBE, Crc16.Of, Crc16.ToField;
    assert |d| % 0x1_0000 == |d|;
    assert d[..|d|] == d;
  }

  lemma LengthReadsBack(d: seq<byte>)
    requires 0 < |d| < 0x1_0000
    ensures FromBE(Short(d)[2..4]) == |d|
    ensures !(Short(d)[2] == 0 && Short(d)[3] == 0)
  {
    ShortLayout(d);
    hide Short;
    assert Pow256(2) == 0x1_0000;
    ToThenFromBE(|d|, 2);
    NonZeroField(Short(d)[2..4]);
  }

  lemma NonZeroField(field: seq<byte>)
    requires |field| == 2 && FromBE(field) > 0
    ensures !(field[0] == 0 && field[1] == 0)
  {
    ZeroBytes(2);
    ToThenFromBE(0, 2);
    assert ToBE(0, 2) == [0, 0] && field != ToBE(0, 2);
  }

  lemma ShortIsValid(d: seq<byte>)
    requires 0 < |d| < 0x1_0000
    ensures |Short(d)| == |d| + 6 && ShortCrcMatches(Short(d))
  {
    ShortLayout(d);
    var f, crc := Short(d), Crc16.Of(d);
    hide Short, Crc16.FromField, Crc16.ToField, Crc16.Of;
    assert f[4..|f| - 2] == d;
    assert [f[|f| - 2], f[|f| - 1]] == Crc16.ToField(crc) by {
      assert f[4 + |d|..] == [f[|f| - 2], f[|f| - 1]];
    }
    Crc16.FieldRoundTrip(crc);
  }

  /** The two zeros come first, and no four zeros begin there. */
  lemma ShortBegins(d: seq<byte>, rest: seq<byte>)
    requires 0 < |d| < 0x1_0000
    ensures var buf := Short(d) + rest;
            FindZeros(buf, 2) == 0 && FindZeros(buf, 4) > 0
  {
    LengthReadsBack(d);
    ShortLayout(d);
    hide Short, FromBE, ToBE;
    var f := Short(d);
    var buf := f + rest;
    assert buf[0] == f[0] && buf[1] == f[1] && buf[2] == f[2] && buf[3] == f[3];
    hide FindZerosFrom;
    FirstZeros(buf);
  }

  lemma FirstZeros(buf: seq<byte>)
    requires |buf| >= 4 && buf[0] == 0 && buf[1] == 0 && !(buf[2] == 0 && buf[3] == 0)
    ensures FindZeros(buf, 2) == 0 && FindZeros(buf, 4) > 0
  {
    assert ZerosAt(buf, 2, 0);
    assert !ZerosAt(buf, 4, 0);
  }

  lemma ShortSizeIs(d: seq<byte>, rest: seq<byte>)
    requires 0 < |d| < 0x1_0000
    ensures ShortSize(Short(d) + rest, 0) == Some(|Short(d)|) && |Short(d)| == |d| + 6
  {
    LengthReadsBack(d);
    ShortLayout(d);
    hide Short, FromBE, ToBE, ShortSize;
    SizeAtHead(Short(d), rest);
  }

  lemma SizeAtHead(f: seq<byte>, rest: seq<byte>)
    requires |f| >= 4
    ensures ShortSize(f + rest, 0) == Some(FromBE(f[2..4]) + 6)
  {
    hide FromBE;
    assert (f + rest)[2..4] == f[2..4];
  }

  lemma ShortHeadIsCut(d: seq<byte>, rest: seq<byte>)
    requires 0 < |d| < 0x1_0000
    ensures NextCut(Short(d) + rest) == Taken(Piece(ShortFrame, [], Short(d), true), rest)
  {
    hide Short, FindZeros, ShortSize, ShortCrcMatches, TcpStream.NextCut;
    ShortIsValid(d);
    ShortBegins(d, rest);
    ShortSizeIs(d, rest);
    var f := Short(d);
    var buf := f + rest;
    assert buf[0..|f|] == f && buf[|f|..] == rest && buf[..0] == [];
  }

  /** A short frame whose payload was damaged within sixteen consecutive bits is dropped whole, and the
      pass goes on behind it. */
  lemma DamagedShortIsDropped(sent: seq<byte>, received: seq<byte>, at: nat, rest: seq<byte>)
    requires 0 < |sent| < 0x1_0000 && received != sent
    requires Division.AgreeOutside(Division.Bits(sent), Division.Bits(received), at, 16)
    ensures var frame := [0, 0] + ToBE(|sent|, 2) + received + Crc16.ToField(Crc16.Of(sent));
            && |received| == |sent| && |frame| == |sent| + 6
            && NextCut(frame + rest) == Taken(Piece(ShortFrame, [], frame, false), rest)
  {
    hide ToBE, FromBE, Crc16.Of, Crc16.ToField, Crc16.FromField, FindZeros, ShortSize, TcpStream.NextCut;
    Crc16.DetectsBurst(sent, received, at);
    var frame := [0, 0] + ToBE(|sent|, 2) + received + Crc16.ToField(Crc16.Of(sent));
    DamagedHead(sent, received, rest);
    DamagedCrc(sent, received);
    var buf := frame + rest;
    assert buf[0..|frame|] == frame && buf[|frame|..] == rest && buf[..0] == [];
  }

  lemma DamagedHead(sent: seq<byte>, received: seq<byte>, rest: seq<byte>)
    requires 0 < |sent| < 0x1_0000 && |received| == |sent|
    ensures var frame := [0, 0] + ToBE(|sent|, 2) + received + Crc16.ToField(Crc16.Of(sent));
            && FindZeros(frame + rest, 2) == 0 && FindZeros(frame + rest, 4) > 0
            && ShortSize(frame + rest, 0) == Some(|sent| + 6)
  {
    hide ToBE, FromBE, Crc16.Of, Crc16.ToField, ShortSize, FindZeros;
    var frame := [0, 0] + ToBE(|sent|, 2) + received + Crc16.ToField(Crc16.Of(sent));
    assert frame[2..4] == ToBE(|sent|, 2);
    assert Pow256(2) == 0x1_0000;
    ToThenFromBE(|sent|, 2);
    NonZeroField(frame[2..4]);
    SizeAtHead(frame, rest);
    assert frame[2..4][0] == (frame + rest)[2] && frame[2..4][1] == (frame + rest)[3];
    FirstZeros(frame + rest);
  }

  lemma DamagedCrc(sent: seq<byte>, received: seq<byte>)
    requires |received| == |sent| && Crc16.Of(received) != Crc16.Of(sent)
    ensures var frame := [0, 0] + ToBE(|sent|, 2) + received + Crc16.ToField(Crc16.Of(sent));
            !ShortCrcMatches(frame)
  {
    hide ToBE, Crc16.Of, Crc16.ToField, Crc16.FromField;
    var field := Crc16.ToField(Crc16.Of(sent));
    var frame := [0, 0] + ToBE(|sent|, 2) + received + field;
    Crc16.FieldRoundTrip(Crc16.Of(sent));
    assert frame[4..|frame| - 2] == received;
    assert frame[|frame| - 2] == field[0] && frame[|frame| - 1] == field[1];
  }

  lemma LongHeadIsCut(payload: seq<byte>, trailer: seq<byte>, rest: seq<byte>)
    requires |payload| < TcpStream.FIELD_LIMIT && TcpStream.Guards(trailer, payload)
    ensures var frame := TcpStream.Wrap(payload, trailer);
            NextCut(frame + rest) == Taken(Piece(LongFrame, [], frame, true), rest)
  {
    TcpStream.HeadFrameIsCut(payload, trailer, rest);
    var frame := TcpStream.Wrap(payload, trailer);
    var buf := frame + rest;
    TcpStream.WrapLayout(payload, trailer);
    hide TcpStream.Wrap, TcpStream.NextCut, FindZerosFrom;
    assert frame[0..4] == [0, 0, 0, 0];
    assert buf[..4] == frame[..4];
    assert forall t | 0 <= t < 4 :: buf[t] == buf[..4][t];
    assert ZerosAt(buf, 4, 0) && ZerosAt(buf, 2, 0);
    assert FindZeros(buf, 2) == 0 && FindZeros(buf, 4) == 0;
    assert buf[..0] == [];
  }

  function PieceOf(item: Item): Piece {
    Piece(KindOf(item), [], Raw(item), true)
  }

  lemma HeadIsCut(item: Item, rest: seq<byte>)
    requires Legal(item)
    ensures NextCut(Raw(item) + rest) == Taken(PieceOf(item), rest)
  {
    if item.Answer? {
      ShortHeadIsCut(item.data, rest);
    } else {
      LongHeadIsCut(item.payload, item.trailer, rest);
    }
  }

  function Stream(items: seq<Item>): seq<byte> {
    if items == [] then [] else Raw(items[0]) + Stream(items[1..])
  }

  function Bare(items: seq<Item>): seq<Piece> {
    if items == [] then [] else [PieceOf(items[0])] + Bare(items[1..])
  }

  /** A stream of whole short and long frames, in any mixture, is taken apart into exactly these
      frames; what follows them is scanned as if it stood alone. */
  lemma {:induction false} FramesAreDelivered(items: seq<Item>, rest: seq<byte>)
    requires forall item | item in items :: Legal(item)
    ensures Pieces(Stream(items) + rest) == Pieces(rest).Behind(Bare(items))
  {
    hide Legal, PieceOf, Raw, NextCut;
    if items == [] {
      assert [] + rest == rest;
      assert [] + Pieces(rest).pieces == Pieces(rest).pieces;
    } else {
      var tail := Stream(items[1..]) + rest;
      assert Stream(items) + rest == Raw(items[0]) + tail;
      HeadIsCut(items[0], tail);
      FramesAreDelivered(items[1..], rest);
      Pieces(rest).BehindTwice([PieceOf(items[0])], Bare(items[1..]));
    }
  }

  function AllRaw(items: seq<Item>): seq<seq<byte>> {
    if items == [] then [] else [Raw(items[0])] + AllRaw(items[1..])
  }

  lemma {:induction false} BarePushed(items: seq<Item>)
    ensures Pushed(Bare(items)) == AllRaw(items)
  {
    hide Raw;
    if items != [] {
      BarePushed(items[1..]);
      PushedFirst(PieceOf(items[0]), Bare(items[1..]));
    }
  }

  /** After any handshake, whole frames come out one packet each, in order, with nothing left. */
  lemma DeliveredExactly(id: seq<byte>, handshake: seq<byte>, items: seq<Item>)
    requires |handshake| == |id| + 2 && forall item | item in items :: Legal(item)
    ensures Split(id, TcpStream.StreamState(false, handshake + Stream(items)))
         == TcpStream.SplitResult([handshake] + AllRaw(items), TcpStream.StreamState(true, []), false)
  {
    hide Legal, Pushed, Stream, Bare, AllRaw, NextCut;
    var n, s := |id| + 2, Stream(items);
    assert (handshake + s)[..n] == handshake && (handshake + s)[n..] == s;
    FramesAreDelivered(items, []);
    assert s + [] == s;
    NothingToCut();
    assert Pieces([]) == Scan([], [], false);
    BarePushed(items);
    assert Bare(items) + [] == Bare(items);
  }

  // ----- the splitter itself ----------------------------------------------------------------

  /** One pass with a short frame in front. */
  lemma ShortNext(id: seq<byte>, buf: seq<byte>, packets: seq<seq<byte>>)
    requires ShortAhead(buf).Some?
    ensures var s, size := FindZeros(buf, 2), ShortAhead(buf).value;
            var frame := buf[s..s + size];
            Split(id, TcpStream.StreamState(true, buf)).Behind(packets) ==
            Split(id, TcpStream.StreamState(true, buf[s + size..])).Behind(
              if ShortCrcMatches(frame) then packets + [frame] else packets)
  {
    hide NextCut, ShortAhead, FindZeros, ShortCrcMatches, Split;
    ShortIsTaken(buf);
    PieceNext(id, buf, packets);
  }

  lemma ShortIsTaken(buf: seq<byte>)
    requires ShortAhead(buf).Some?
    ensures var s, size := FindZeros(buf, 2), ShortAhead(buf).value;
            var frame := buf[s..s + size];
            NextCut(buf) == Taken(Piece(ShortFrame, buf[..s], frame, ShortCrcMatches(frame)), buf[s + size..])
  {
    hide ShortAhead, FindZeros, ShortCrcMatches;
  }

  lemma PieceNext(id: seq<byte>, buf: seq<byte>, packets: seq<seq<byte>>)
    requires NextCut(buf).Taken?
    ensures var cut := NextCut(buf);
            Split(id, TcpStream.StreamState(true, buf)).Behind(packets) ==
            Split(id, TcpStream.StreamState(true, cut.rest)).Behind(
              if cut.piece.valid then packets + [cut.piece.bytes] else packets)
  {
    hide NextCut;
    var cut := NextCut(buf);
    AcceptedBehind(Pieces(cut.rest), [cut.piece]);
  }

  /** Every other pass: the buffer is cut as the Teltonika splitter cuts it. */
  lemma LongNext(id: seq<byte>, buf: seq<byte>, packets: seq<seq<byte>>)
    requires ShortAhead(buf).None?
    ensures var cut := TcpStream.NextCut(buf);
            Split(id, TcpStream.StreamState(true, buf)).Behind(packets) ==
            if cut.Frame? then
              Split(id, TcpStream.StreamState(true, cut.rest)).Behind(
                if cut.valid then packets + [cut.bytes] else packets)
            else TcpStream.SplitResult(packets, TcpStream.StreamState(true, buf), cut.Overrun?)
  {
    hide TcpStream.NextCut, ShortAhead, FindZeros;
    var cut := TcpStream.NextCut(buf);
    if cut.Frame? {
      var piece := NextCut(buf).piece;
      assert NextCut(buf) == Taken(piece, cut.rest) && piece.bytes == cut.bytes && piece.valid == cut.valid;
      hide NextCut;
      PieceNext(id, buf, packets);
    } else {
      assert packets + [] == packets;
    }
  }

  /** The first pass over a stream that is not yet accepted. */
  lemma HandshakeFirst(id: seq<byte>, buf: seq<byte>, packets: seq<seq<byte>>)
    ensures Split(id, TcpStream.StreamState(false, buf)).Behind(packets) ==
            if |buf| < |id| + 2 then TcpStream.SplitResult(packets, TcpStream.StreamState(false, buf), false)
            else Split(id, TcpStream.StreamState(true, buf[|id| + 2..])).Behind(packets + [buf[..|id| + 2]])
  {
    hide Pieces, Pushed;
    var n := |id| + 2;
    if |buf| < n {
      assert packets + [] == packets;
    } else {
      Split(id, TcpStream.StreamState(true, buf[n..])).BehindTwice(packets, [buf[..n]]);
    }
  }

  /** The short frame a pass finds, tested as the loop tests it: only in front of the first four
      zeros, and only when it is complete. */
  method FindShort(buf: seq<byte>, at: nat) returns (s: nat, size: nat)
    requires at == FindZeros(buf, 4)
    ensures s == FindZeros(buf, 2)
    ensures ShortAhead(buf) == if size > 0 then Some(size) else None
  {
    s := FindZeros(buf, 2);
    size := 0;
    if at == |buf| {
      if s != |buf| {
        if s + 4 <= |buf| {
          var len := FromBE(buf[s + 2..s + 4]);
          if s + len + 6 <= |buf| {
            size := len + 6;
          }
        }
      }
    } else {
      if s < at {
        if s + 4 <= |buf| {
          var len := FromBE(buf[s + 2..s + 4]);
          if s + len + 6 <= |buf| {
            size := len + 6;
          }
        }
      }
    }
  }

  method SplitTcpStream(tracker: TcpStream.Tracker) returns (packets: seq<seq<byte>>, overrun: bool)
    modifies tracker`acceptedStream, tracker.current
    ensures tracker.current == null ==>
              packets == [] && !overrun && tracker.acceptedStream == old(tracker.acceptedStream)
    ensures tracker.current != null ==>
              (TcpStream.SplitResult(packets, tracker.State(tracker.current), overrun)
            == Split(tracker.deviceId, old(tracker.State(tracker.current))))
  {
    hide Split, ShortAhead, FindZeros, ShortCrcMatches, TcpStream.SplitResult.Behind, TcpStream.NextCut;
    hide TcpStream.LengthField, TcpStream.FrameSize, Crc16.Of, Crc16.FromField;
    packets, overrun := [], false;
    if tracker.current == null {
      return;
    }
    var con := tracker.current;
    var id := tracker.deviceId;
    ghost var expected := Split(id, tracker.State(con));
    expected.BehindNothing();
    while true
      invariant tracker.current == con && !overrun
      invariant expected == Split(id, tracker.State(con)).Behind(packets)
      decreases |con.readBuffer|
    {
      if tracker.acceptedStream != con {
        var n := |id| + 2;
        HandshakeFirst(id, con.readBuffer, packets);
        if |con.readBuffer| < n {
          break;
        }
        packets := packets + [con.readBuffer[..n]];
        con.readBuffer := con.readBuffer[n..];
        tracker.acceptedStream := con;
      }
      var buf := con.readBuffer;
      var at := FindZeros(buf, 4);
      var s, shortSize := FindShort(buf, at);
      if shortSize > 0 {
        var answer := buf[s..s + shortSize];
        ShortNext(id, buf, packets);
        var ok := CheckShort(answer);
        if ok {
          packets := packets + [answer];
        }
        con.readBuffer := buf[s + shortSize..];
        continue;
      }
      LongNext(id, buf, packets);
      TcpStream.PassCases(buf, at, if |buf| - at < 12 then 0 else TcpStream.FrameSize(TcpStream.LengthField(buf, at)));
      if |buf| - at < 12 {
        break;
      }
      var size := TcpStream.FrameSize(TcpStream.LengthField(buf, at));
      if |buf| - at < size {
        break;
      }
      if size < 12 {
        overrun := true;
        break;
      }
      var frame := buf[at..at + size];
      var crc := Crc16.FromField(frame[size - 2], frame[size - 1]);
      var calculated := Crc16.GetCrc(frame[8..size - 4]);
      if crc == calculated {
        packets := packets + [frame];
      }
      con.readBuffer := buf[at + size..];
    }
  }

  method CheckShort(frame: seq<byte>) returns (ok: bool)
    requires |frame| >= 6
    ensures ok == ShortCrcMatches(frame)
  {
    var calculated := Crc16.GetCrc(frame[4..|frame| - 2]);
    ok := Crc16.FromField(frame[|frame| - 2], frame[|frame| - 1]) == calculated;
  }
}
