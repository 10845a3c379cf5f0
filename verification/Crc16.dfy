/** The reflected CRC-16 (polynomial 0xA001, start value 0) that guards Teltonika and Bitrek
    frames. An unsigned short is modelled by its sixteen bits, least significant first. */
module Crc16 {
  import opened Bytes
  import opened Division

  /** 0xA001: bits 0, 13 and 15. */
  const POLYNOMIAL: Word :=
    [true, false, false, false, false, false, false, false, false, false, false, false, false, true, false, true]

  function Update(crc: Word, b: byte): (c: Word)
    requires |crc| == 16
    ensures |c| == 16
  {
    DivideBy(Xor(crc, Padded(BitsOf(b), 16)), POLYNOMIAL, 8)
  }

  /** The checksum of data. */
  function Of(data: seq<byte>): (crc: Word)
    ensures |crc| == 16
  {
    if data == [] then Zero(16) else Update(Of(data[..|data| - 1]), data[|data| - 1])
  }

  method GetCrc(data: seq<byte>) returns (crc: Word)
    ensures crc == Of(data)
  {
    crc := Zero(16);
    var from := 0;
    while from != |data|
      invariant from <= |data| && crc == Of(data[..from])
    {
      crc := Xor(crc, Padded(BitsOf(data[from]), 16));
      ghost var mixed := crc;
      var j := 0;
      while j < 8
        invariant j <= 8 && |crc| == 16 && crc == DivideBy(mixed, POLYNOMIAL, j)
      {
        if crc[0] {
          crc := Xor(Shr(crc, 1), POLYNOMIAL);
        } else {
          crc := Shr(crc, 1);
        }
        j := j + 1;
      }
      assert data[..from + 1][..from] == data[..from];
      from := from + 1;
    }
    assert data[..from] == data;
  }

  /** The byte-wise checksum is the remainder of dividing the message bit by bit. */
  lemma {:induction false} OfIsSerial(data: seq<byte>)
    ensures Of(data) == Serial(Zero(16), Bits(data), POLYNOMIAL)
  {
    if data != [] {
      var n := |data| - 1;
      OfIsSerial(data[..n]);
      SerialConcat(Zero(16), Bits(data[..n]), BitsOf(data[n]), POLYNOMIAL);
      MixThenTurn(Of(data[..n]), BitsOf(data[n]), POLYNOMIAL);
    }
  }

  /** Payloads that differ only within sixteen consecutive bits have the same checksum only
      when they are equal. */
  lemma DetectsBurst(a: seq<byte>, b: seq<byte>, at: nat)
    requires AgreeOutside(Bits(a), Bits(b), at, 16)
    ensures Of(a) == Of(b) <==> a == b
  {
    if a != b {
      if Bits(a) == Bits(b) {
        BitsInjective(a, b);
        assert false;
      }
      SerialDetectsBurst(Zero(16), Bits(a), Bits(b), at, POLYNOMIAL);
      OfIsSerial(a);
      OfIsSerial(b);
    }
  }

  /** In particular two adjacent bytes can be damaged in any way without going unnoticed. */
  lemma DetectsTwoAdjacentBytes(a: seq<byte>, b: seq<byte>, at: nat)
    requires |a| == |b| && forall t | 0 <= t < |a| && !(at <= t < at + 2) :: a[t] == b[t]
    ensures Of(a) == Of(b) <==> a == b
  {
    AdjacentBytesAreABurst(a, b, at, 2);
    DetectsBurst(a, b, 8 * at);
  }

  // ----- the checksum as a field of a frame ---------------------------------

  /** The two bytes of a checksum, high byte first. */
  function ToField(crc: Word): (field: seq<byte>)
    requires |crc| == 16
    ensures |field| == 2
  {
    [ByteOf(crc[8..]), ByteOf(crc[..8])]
  }

  /** The unsigned short with the given high and low byte. */
  function FromField(high: byte, low: byte): (crc: Word)
    ensures |crc| == 16
  {
    BitsOf(low) + BitsOf(high)
  }

  lemma FieldRoundTrip(crc: Word)
    requires |crc| == 16
    ensures FromField(ToField(crc)[0], ToField(crc)[1]) == crc
  {
    assert crc == crc[..8] + crc[8..];
  }

  lemma ZeroField()
    ensures FromField(0, 0) == Zero(16)
  {
    assert BitsOf(0) == Zero(8);
  }

  lemma {:induction false} ZerosHaveZeroCrc(data: seq<byte>)
    requires forall t | 0 <= t < |data| :: data[t] == 0
    ensures Of(data) == Zero(16)
  {
    if data != [] {
      ZerosHaveZeroCrc(data[..|data| - 1]);
      assert BitsOf(0) == Zero(8);
      MixThenTurn(Zero(16), Zero(8), POLYNOMIAL);
      ZeroStaysZero(8);
    }
  }

  lemma {:induction false} ZeroStaysZero(count: nat)
    ensures Serial(Zero(16), Zero(count), POLYNOMIAL) == Zero(16)
  {
    if count > 0 {
      var c := Zero(16);
      assert c[0 := false] == c;
      assert Shr(c, 1) == c;
      assert Zero(count)[1..] == Zero(count - 1);
      ZeroStaysZero(count - 1);
    }
  }

  lemma ByteOfIs(bits: seq<bool>, b: byte)
    requires |bits| == 8 && bits == BitsOf(b)
    ensures ByteOf(bits) == b
  {
    BitsOfInjective(ByteOf(bits), b);
  }

  lemma TopBit()
    ensures BitsOf(0x80) == Zero(7) + [true]
  {
    hide BitsOf;
    BitsAre(0x80);
  }

  lemma FieldBits()
    ensures BitsOf(0xA0) == [false, false, false, false, false, true, false, true]
    ensures BitsOf(0x01) == [true, false, false, false, false, false, false, false]
  {
    hide BitsOf;
    BitsAre(0xA0);
    BitsAre(0x01);
  }

  lemma FirstOne(poly: Word)
    requires |poly| == 16
    ensures Step(Zero(16), true, poly) == poly
  {
    var c := Zero(16)[0 := true];
    assert Shr(c, 1) == Zero(16);
    assert Xor(Zero(16), poly) == poly;
  }

  /** The lone top bit leaves the polynomial behind. */
  lemma LoneBit()
    ensures Of([0x80]) == POLYNOMIAL
  {
    hide POLYNOMIAL, BitsOf, Step;
    TopBit();
    assert Of([0x80]) == Update(Zero(16), 0x80) by {
      assert Of([]) == Zero(16) && [0x80][..0] == [];
    }
    hide Of;
    MixThenTurn(Zero(16), BitsOf(0x80), POLYNOMIAL);
    ZeroStaysZero(7);
    SerialSnoc(Zero(16), Zero(7), true, POLYNOMIAL);
    FirstOne(POLYNOMIAL);
  }

  /** A check value: the message of the single byte 0x80 has checksum 0xA001. */
  lemma CheckValue()
    ensures ToField(Of([0x80])) == [0xA0, 0x01]
  {
    hide Of, BitsOf, ByteOf;
    LoneBit();
    FieldBits();
    assert POLYNOMIAL[8..] == BitsOf(0xA0);
    assert POLYNOMIAL[..8] == BitsOf(0x01);
    hide POLYNOMIAL;
    ByteOfIs(POLYNOMIAL[8..], 0xA0);
    ByteOfIs(POLYNOMIAL[..8], 0x01);
  }
}
