/** The Bitrek stream splitter: besides the Teltonika frames it knows short frames of two zero
    bytes, a two-byte length, the payload and a two-byte checksum. */
module BitrekStream {
  import opened Bytes
  import Crc16
  import TcpStream

  // ----- short frames -----------------------------------------------------------------

  /** compute_crc: the size is kept in an unsigned short and the checksum covers that many bytes. */
  function Short(d: seq<byte>): seq<byte> {
    var sz := |d| % 0x1_0000;
    [0, 0] + ToBE(sz, 2) + d + Crc16.ToField(Crc16.Of(d[..sz]))
  }

  predicate ShortCrcMatches(frame: seq<byte>)
    requires |frame| >= 6
  {
    Crc16.FromField(frame[|frame| - 2], frame[|frame| - 1]) == Crc16.Of(frame[4..|frame| - 2])
  }

  method ComputeCrc(d: seq<byte>) returns (result: seq<byte>)
    ensures result == Short(d)
  {
    result := [];
    result := result + [0];
    result := result + [0];
    var sz := |d| % 0x1_0000;
    result := AddUShort(result, sz);
    result := result + d;
    var crc := Crc16.GetCrc(d[..sz]);
    result := result + Crc16.ToField(crc);
    assert [] + [0] + [0] == [0, 0];
  }

  method AddUShort(d: seq<byte>, v: nat) returns (r: seq<byte>)
    requires v < 0x1_0000
    ensures r == d + ToBE(v, 2)
  {
    r := d + [v / 256];
    r := r + [v % 256];
    assert ToBE(v, 2) == ToBE(v / 256, 1) + [v % 256] && ToBE(v / 256, 1) == [v / 256];
  }

  // ----- one pass over the buffer --------------------------------------------------------

  datatype Kind = ShortFrame | LongFrame

  /** A frame taken off the buffer, with the bytes thrown away in front of it. */
  datatype Piece = Piece(kind: Kind, skipped: seq<byte>, bytes: seq<byte>, valid: bool)

  datatype Cut = Incomplete | Overrun | Taken(piece: Piece, rest: seq<byte>)

  /** The size of the short frame at s, if its length bytes have arrived. Without them the source
      reads two bytes behind its data; whatever they are, the frame comes out as too long. */
  function ShortSize(buf: seq<byte>, s: nat): Option<nat> {
    if s + 4 > |buf| then None else Some(FromBE(buf[s + 2..s + 4]) + 6)
  }

  /** A short frame is looked for in front of the first four zeros. */
  function ShortAhead(buf: seq<byte>): (size: Option<nat>)
    ensures size.Some? ==> size.value >= 6 && FindZeros(buf, 2) + size.value <= |buf|
  {
    var at, s := FindZeros(buf, 4), FindZeros(buf, 2);
    var size := ShortSize(buf, s);
    if s < at && size.Some? && s + size.value <= |buf| then size else None
  }

  function NextCut(buf: seq<byte>): (cut: Cut)
    ensures cut.Taken? ==> |cut.rest| < |buf|
  {
    if ShortAhead(buf).Some? then
      var s, size := FindZeros(buf, 2), ShortAhead(buf).value;
      var frame := buf[s..s + size];
      Taken(Piece(ShortFrame, buf[..s], frame, ShortCrcMatches(frame)), buf[s + size..])
    else
      match TcpStream.NextCut(buf)
      case Incomplete => Incomplete
      case Overrun => Overrun
      case Frame(bytes, valid, rest) => Taken(Piece(LongFrame, buf[..FindZeros(buf, 4)], bytes, valid), rest)
  }

  /** Everything a call takes off the buffer. */
  datatype Scan = Scan(pieces: seq<Piece>, rest: seq<byte>, overrun: bool) {

    function Behind(earlier: seq<Piece>): Scan {
      this.(pieces := earlier + pieces)
    }

    lemma BehindTwice(a: seq<Piece>, b: seq<Piece>)
      ensures Behind(b).Behind(a) == Behind(a + b)
    {
      assert a + (b + pieces) == a + b + pieces;
    }
  }

  function Pieces(buf: seq<byte>): Scan
    decreases |buf|
  {
    match NextCut(buf)
    case Incomplete => Scan([], buf, false)
    case Overrun => Scan([], buf, true)
    case Taken(piece, rest) => Pieces(rest).Behind([piece])
  }

  /** The packets pushed for some pieces. */
  function Pushed(pieces: seq<Piece>): seq<seq<byte>> {
    if pieces == [] then [] else PushedFor(pieces[0]) + Pushed(pieces[1..])
  }

  function PushedFor(piece: Piece): seq<seq<byte>> {
    if piece.valid then [piece.bytes] else []
  }

  /** All bytes that left the buffer with some pieces. */
  function Consumed(pieces: seq<Piece>): seq<byte> {
    if pieces == [] then [] else pieces[0].skipped + pieces[0].bytes + Consumed(pieces[1..])
  }

  // ----- accounting ------------------------------------------------------------------------

  ghost predicate IsShortFrame(p: seq<byte>) {
    && 6 < |p| < 0x1_0006 && p[..2] == [0, 0] && p[2..4] == ToBE(|p| - 6, 2) && ShortCrcMatches(p)
  }

  ghost predicate IsLongFrame(p: seq<byte>) {
    && 12 <= |p| < 0x8000_0000
    && p == TcpStream.Wrap(p[8..|p| - 4], p[|p| - 4..]) && TcpStream.Guards(p[|p| - 4..], p[8..|p| - 4])
  }

  ghost predicate IsFrame(p: seq<byte>) {
    IsShortFrame(p) || IsLongFrame(p)
  }

  ghost predicate IsWhole(buf: seq<byte>, piece: Piece, rest: seq<byte>) {
    && buf == piece.skipped + piece.bytes + rest
    && (piece.valid ==> IsFrame(piece.bytes))
  }

  lemma ShortPieceShape(buf: seq<byte>)
    requires ShortAhead(buf).Some?
    ensures NextCut(buf).Taken? && IsWhole(buf, NextCut(buf).piece, NextCut(buf).rest)
  {
    hide ToBE, FromBE, FindZerosFrom, ShortCrcMatches;
    var s, at, size := FindZeros(buf, 2), FindZeros(buf, 4), ShortAhead(buf).value;
    assert ZerosAt(buf, 2, s) && !ZerosAt(buf, 4, s);
    LengthNotZero(buf, s);
    ShortSliceShape(buf, s, size);
    hide ShortAhead, FindZeros, IsShortFrame;
  }

  lemma ShortSliceShape(buf: seq<byte>, s: nat, size: nat)
    requires 6 < size && s + size <= |buf| && ZerosAt(buf, 2, s) && size == FromBE(buf[s + 2..s + 4]) + 6
    ensures var frame := buf[s..s + size];
            && buf == buf[..s] + frame + buf[s + size..]
            && (ShortCrcMatches(frame) ==> IsShortFrame(frame))
  {
    hide ToBE, FromBE, ShortCrcMatches;
    var frame := buf[s..s + size];
    SliceOfSlice(buf, s, size, 0, 2);
    SliceOfSlice(buf, s, size, 2, 4);
    assert frame[..2] == [0, 0];
    FromThenToBE(buf[s + 2..s + 4]);
    FromBEBound(buf[s + 2..s + 4]);
    assert Pow256(2) == 0x1_0000;
  }

  /** In front of four zeros a short frame cannot be empty. */
  lemma LengthNotZero(buf: seq<byte>, s: nat)
    requires s + 4 <= |buf| && ZerosAt(buf, 2, s) && !ZerosAt(buf, 4, s)
    ensures FromBE(buf[s + 2..s + 4]) > 0
  {
    var f := buf[s + 2..s + 4];
    assert f == [buf[s + 2], buf[s + 3]];
    assert f[..1] == [buf[s + 2]];
    assert FromBE(f) == 256 * FromBE([buf[s + 2]]) + buf[s + 3];
    assert FromBE([buf[s + 2]]) == buf[s + 2] by {
      assert [buf[s + 2]][..0] == [];
    }
    if FromBE(f) == 0 {
      assert ZerosAt(buf, 4, s);
      assert false;
    }
  }

  lemma LongPieceShape(buf: seq<byte>)
    requires ShortAhead(buf).None? && NextCut(buf).Taken?
    ensures IsWhole(buf, NextCut(buf).piece, NextCut(buf).rest)
  {
    TcpStream.CutShape(buf);
    hide TcpStream.NextCut, TcpStream.Wrap, TcpStream.Guards, FindZeros;
  }

  lemma PieceShape(buf: seq<byte>)
    requires NextCut(buf).Taken?
    ensures IsWhole(buf, NextCut(buf).piece, NextCut(buf).rest)
  {
    if ShortAhead(buf).Some? {
      ShortPieceShape(buf);
    } else {
      LongPieceShape(buf);
    }
    hide NextCut, ShortAhead, IsShortFrame, IsLongFrame;
  }

  /** Nothing is lost or invented: the frames, the bytes skipped before them and the leftover
      make up the buffer. */
  lemma {:induction false} NothingIsLost(buf: seq<byte>)
    ensures Consumed(Pieces(buf).pieces) + Pieces(buf).rest == buf
    decreases |buf|
  {
    hide NextCut, IsFrame, Consumed;
    var cut := NextCut(buf);
    if cut.Taken? {
      PieceShape(buf);
      NothingIsLost(cut.rest);
      var later := Pieces(cut.rest);
      ConsumedFirst(cut.piece, later.pieces);
      Regroup(cut.piece.skipped + cut.piece.bytes, Consumed(later.pieces), later.rest);
    } else {
      NothingConsumed(buf);
    }
  }

  lemma ConsumedFirst(piece: Piece, pieces: seq<Piece>)
    ensures Consumed([piece] + pieces) == piece.skipped + piece.bytes + Consumed(pieces)
  {
    assert ([piece] + pieces)[1..] == pieces;
  }

  lemma NothingConsumed(buf: seq<byte>)
    ensures Consumed([]) + buf == buf
  {
  }

  /** Every packet pushed is an intact short or long frame. */
  lemma {:induction false} OnlyFramesArePushed(buf: seq<byte>)
    ensures forall p | p in Pushed(Pieces(buf).pieces) :: IsFrame(p)
    decreases |buf|
  {
    hide NextCut, IsFrame;
    var cut := NextCut(buf);
    if cut.Taken? {
      PieceShape(buf);
      OnlyFramesArePushed(cut.rest);
      PushedFirst(cut.piece, Pieces(cut.rest).pieces);
    }
  }

  lemma PushedFirst(piece: Piece, later: seq<Piece>)
    ensures Pushed([piece] + later) == PushedFor(piece) + Pushed(later)
  {
    assert ([piece] + later)[1..] == later;
  }
}
