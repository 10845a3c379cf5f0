/** The table-driven CRC-32 of the MegaGps driver, proved equal to the bit-by-bit CRC of
    section 8 of RFC 1952. An unsigned long is modelled by its 32 bits, least significant first. */
module Crc32 {
  import opened Bytes
  import opened Division

  function Nibble(n: nat): (bits: seq<bool>)
    requires n < 16
    ensures |bits| == 4
  {
    LowBits(n, 4)
  }

  /** 0xEDB88320 */
  const POLYNOMIAL: Word :=
    Nibble(0x0) + Nibble(0x2) + Nibble(0x3) + Nibble(0x8) + Nibble(0x8) + Nibble(0xB) + Nibble(0xD) + Nibble(0xE)

  /** 0xFFFFFFFF */
  function Ones(width: nat): (w: Word)
    ensures |w| == width
  {
    seq(width, _ => true)
  }

  const ONES: Word := Ones(32)

  // ----- the reference -------------------------------------------------------

  /** The division register after a message, pre-conditioned with ones. */
  function Register(data: seq<byte>): (crc: Word)
    ensures |crc| == 32
  {
    Serial(ONES, Bits(data), POLYNOMIAL)
  }

  /** The CRC of a message: pre-conditioned with ones, divided bit by bit, complemented. */
  function Rfc1952(data: seq<byte>): (crc: Word)
    ensures |crc| == 32
  {
    Xor(Register(data), ONES)
  }

  // ----- the table -------------------------------------------------------------

  /** What the table holds for the low byte n of the register. */
  function Entry(n: nat): (e: Word)
    ensures |e| == 32
  {
    DivideBy(LowBits(n, 32), POLYNOMIAL, 8)
  }

  lemma {:induction false} LowBitsPadded(n: nat, count: nat, width: nat)
    requires n < Pow2(count) && count <= width
    ensures LowBits(n, width) == Padded(LowBits(n, count), width)
  {
    if width == count {
    } else if count > 0 {
      LowBitsPadded(n / 2, count - 1, width - 1);
    } else {
      LowBitsPadded(0, 0, width - 1);
    }
  }

  /** One table lookup stands for feeding the eight bits of a byte. */
  lemma LookupIsEightBits(crc: Word, b: byte)
    requires |crc| == 32
    ensures var low := ByteOf(Xor(crc[..8], BitsOf(b)));
            Xor(Entry(low), Shr(crc, 8)) == Serial(crc, BitsOf(b), POLYNOMIAL)
  {
    var mixed := Xor(crc, Padded(BitsOf(b), 32));
    var low := Xor(crc[..8], BitsOf(b));
    assert mixed[..8] == low;
    assert Shr(mixed, 8) == Shr(crc, 8);
    MixThenTurn(crc, BitsOf(b), POLYNOMIAL);
    TurnsSplit(mixed, POLYNOMIAL, 8);
    assert Pow2(8) == 256;
    LowBitsPadded(ByteOf(low), 8, 32);
  }

  lemma ReferenceAfterOneMore(data: seq<byte>, b: byte)
    ensures var crc := Register(data);
            Register(data + [b]) == Xor(Entry(ByteOf(Xor(crc[..8], BitsOf(b)))), Shr(crc, 8))
  {
    var more := data + [b];
    assert more[..|more| - 1] == data && more[|more| - 1] == b;
    SerialConcat(ONES, Bits(data), BitsOf(b), POLYNOMIAL);
    LookupIsEightBits(Register(data), b);
  }

  class Crc32State {
    const table: array<Word>
    var crc: Word
    ghost var seen: seq<byte>

    ghost predicate Valid()
      reads this, table
    {
      && table.Length == 256
      && |crc| == 32
      && (forall n: nat | n < 256 :: table[n] == Entry(n))
      && crc == Register(seen)
    }

    /** crc32_init followed by crc32_reset, which every computation starts with. */
    constructor ()
      ensures Valid() && seen == [] && fresh(table)
    {
      table := new Word[256](_ => ONES);
      crc, seen := ONES, [];
      new;
      Init();
      Reset();
    }

    method Init()
      requires table.Length == 256
      modifies table, this`crc
      ensures forall n: nat | n < 256 :: table[n] == Entry(n)
      ensures crc == Entry(255)
    {
      hide Entry;
      var i := 0;
      while i < 256
        invariant i <= 256
        invariant i > 0 ==> crc == Entry(i - 1)
        invariant forall n: nat | n < i :: table[n] == Entry(n)
      {
        Divide8(i);
        table[i] := crc;
        i := i + 1;
      }
    }

    /** The inner loop of Init. */
    method Divide8(i: nat)
      requires i < 256
      modifies this`crc
      ensures crc == Entry(i)
    {
      crc := LowBits(i, 32);
      var j := 0;
      while j < 8
        invariant j <= 8 && |crc| == 32 && crc == DivideBy(LowBits(i, 32), POLYNOMIAL, j)
      {
        crc := if crc[0] then Xor(Shr(crc, 1), POLYNOMIAL) else Shr(crc, 1);
        j := j + 1;
      }
    }

    method Reset()
      requires table.Length == 256 && forall n: nat | n < 256 :: table[n] == Entry(n)
      modifies this`crc, this`seen
      ensures Valid() && seen == []
    {
      crc, seen := ONES, [];
    }

    /** Each value returned is the CRC of everything passed in since the last reset. */
    method Crc32(buf: seq<byte>) returns (r: Word)
      requires Valid()
      modifies this`crc, this`seen
      ensures Valid() && seen == old(seen) + buf
      ensures r == Rfc1952(old(seen) + buf)
    {
      hide Register, Entry, Xor, Shr, ByteOf, BitsOf;
      var at := 0;
      assert seen + buf[..0] == seen;
      while at < |buf|
        invariant at <= |buf| && |crc| == 32 && seen == old(seen)
        invariant crc == Register(seen + buf[..at])
      {
        ReferenceAfterOneMore(seen + buf[..at], buf[at]);
        assert seen + buf[..at] + [buf[at]] == seen + buf[..at + 1];
        var index := ByteOf(Xor(crc[..8], BitsOf(buf[at])));
        crc := Xor(table[index], Shr(crc, 8));
        at := at + 1;
      }
      assert buf[..at] == buf;
      seen := seen + buf;
      r := Xor(crc, ONES);
    }
  }

  /** Two messages that differ only within 32 consecutive bits have different checksums. */
  lemma DetectsBurst(a: seq<byte>, b: seq<byte>, at: nat)
    requires AgreeOutside(Bits(a), Bits(b), at, 32)
    ensures Rfc1952(a) == Rfc1952(b) <==> a == b
  {
    if a != b {
      if Bits(a) == Bits(b) {
        BitsInjective(a, b);
        assert false;
      }
      assert POLYNOMIAL[31] by {
        assert Nibble(0xE)[3];
      }
      SerialDetectsBurst(ONES, Bits(a), Bits(b), at, POLYNOMIAL);
      hide Register, Rfc1952;
      OnlyOnce(a, b);
    }
  }

  /** Complementing the register keeps messages apart. */
  lemma OnlyOnce(a: seq<byte>, b: seq<byte>)
    requires Register(a) != Register(b)
    ensures Rfc1952(a) != Rfc1952(b)
  {
    var x, y := Register(a), Register(b);
    hide Register;
    var k :| 0 <= k < 32 && x[k] != y[k];
    assert Rfc1952(a)[k] != Rfc1952(b)[k];
  }

  // ----- check values --------------------------------------------------------------------------

  /** The register after some set bits have met the ones it began with. */
  lemma {:induction false} OnesMeetOnes(count: nat)
    requires count <= 32
    ensures Serial(ONES, Ones(count), POLYNOMIAL) == Ones(32 - count) + Zero(count)
  {
    hide POLYNOMIAL;
    if count == 0 {
      assert Ones(32) + Zero(0) == ONES && Ones(0) == [];
    } else {
      var n := count - 1;
      OnesMeetOnes(n);
      SerialSnoc(ONES, Ones(n), true, POLYNOMIAL);
      assert Ones(count) == Ones(n) + [true];
      var c := Ones(32 - n) + Zero(n);
      assert c[0];
      assert Step(c, true, POLYNOMIAL) == Shr(c[0 := false], 1) == Ones(32 - count) + Zero(count);
    }
  }

  lemma OnesAreBits(n: nat)
    ensures Bits(seq(n, _ => 255)) == Ones(8 * n)
  {
    if n > 0 {
      hide BitsOf;
      var data: seq<byte> := seq(n, _ => 255);
      OnesAreBits(n - 1);
      assert data[..n - 1] == seq(n - 1, _ => 255);
      EightOnes();
      hide Bits, Ones;
      LastBits(data);
      OnesConcat(8 * (n - 1), 8);
    } else {
      assert Bits([]) == [] && Ones(0) == [];
    }
  }

  lemma EightOnes()
    ensures BitsOf(255) == Ones(8)
  {
    hide BitsOf;
    BitsAre(255);
  }

  lemma OnesConcat(m: nat, n: nat)
    ensures Ones(m) + Ones(n) == Ones(m + n)
  {
  }

  /** Four bytes 0xFF have checksum 0xFFFFFFFF. */
  lemma CheckValueOfOnes()
    ensures Rfc1952([255, 255, 255, 255]) == seq(32, _ => true)
  {
    OnesAreBits(4);
    assert [255, 255, 255, 255] == seq(4, _ => 255);
    OnesMeetOnes(32);
    assert Register([255, 255, 255, 255]) == Zero(32);
    assert Rfc1952([255, 255, 255, 255]) == ONES;
  }

  lemma FirstOne(poly: Word)
    requires |poly| == 32
    ensures Step(Ones(1) + Zero(31), false, poly) == poly
  {
    var c := (Ones(1) + Zero(31))[0 := true];
    assert c == Ones(1) + Zero(31);
    assert Shr(c, 1) == Zero(32);
    assert Xor(Zero(32), poly) == poly;
  }

  lemma LoneZero()
    ensures Bits([255, 255, 255, 127]) == Ones(31) + [false]
  {
    hide BitsOf, Bits, Ones;
    var data: seq<byte> := [255, 255, 255, 127];
    OnesAreBits(3);
    assert data[..3] == seq(3, _ => 255);
    LastBits(data);
    SevenOnes();
    OnesTogether();
  }

  lemma LastBits(data: seq<byte>)
    requires data != []
    ensures Bits(data) == Bits(data[..|data| - 1]) + BitsOf(data[|data| - 1])
  {
  }

  lemma SevenOnes()
    ensures BitsOf(127) == Ones(7) + [false]
  {
    hide BitsOf;
    BitsAre(127);
  }

  lemma OnesTogether()
    ensures Ones(24) + (Ones(7) + [false]) == Ones(31) + [false]
  {
  }

  /** The bytes FF FF FF 7F have checksum 0x12477CDF. */
  lemma CheckValue()
    ensures Rfc1952([255, 255, 255, 127]) ==
            Nibble(0xF) + Nibble(0xD) + Nibble(0xC) + Nibble(0x7) + Nibble(0x7)
            + Nibble(0x4) + Nibble(0x2) + Nibble(0x1)
  {
    hide POLYNOMIAL, Nibble, Step;
    LoneZero();
    OnesMeetOnes(31);
    SerialSnoc(ONES, Ones(31), false, POLYNOMIAL);
    FirstOne(POLYNOMIAL);
    Complement();
  }

  lemma NibbleIs(n: nat)
    requires n < 16
    ensures Nibble(n) == [n % 2 == 1, n / 2 % 2 == 1, n / 4 % 2 == 1, n / 8 % 2 == 1]
  {
    FourBits(n, 0);
    assert LowBits(n / 16, 0) == [];
  }

  lemma Flipped(n: nat)
    requires n < 16
    ensures Xor(Nibble(n), Ones(4)) == Nibble(15 - n)
  {
    hide Nibble;
    NibbleIs(n);
    NibbleIs(15 - n);
    FlippedDigits(n);
  }

  lemma FlippedDigits(n: nat)
    requires n < 16
    ensures var m := 15 - n;
            && m % 2 == 1 - n % 2 && m / 2 % 2 == 1 - n / 2 % 2 && m / 4 % 2 == 1 - n / 4 % 2
            && m / 8 % 2 == 1 - n / 8 % 2
  {
    var a, b, c, d := n % 2, n / 2 % 2, n / 4 % 2, n / 8;
    Quarters(n);
    Half(n);
    Half(n / 2);
    Half(n / 4);
    Half(n / 8);
    FourDigits(15 - n, 1 - a, 1 - b, 1 - c, 1 - d);
  }

  lemma FourDigits(v: nat, a: nat, b: nat, c: nat, d: nat)
    requires v == a + 2 * (b + 2 * (c + 2 * d)) && a < 2 && b < 2 && c < 2 && d < 2
    ensures v % 2 == a && v / 2 % 2 == b && v / 4 % 2 == c && v / 8 % 2 == d
  {
    var v2 := c + 2 * d;
    var v1 := b + 2 * v2;
    Quarters(v);
    HalfIs(v, a, v1);
    HalfIs(v1, b, v2);
    HalfIs(v2, c, d);
  }

  lemma XorConcat(a: Word, b: Word)
    ensures Xor(a + b, Ones(|a + b|)) == Xor(a, Ones(|a|)) + Xor(b, Ones(|b|))
  {
  }

  lemma Complement()
    ensures Xor(POLYNOMIAL, ONES) ==
            Nibble(0xF) + Nibble(0xD) + Nibble(0xC) + Nibble(0x7) + Nibble(0x7)
            + Nibble(0x4) + Nibble(0x2) + Nibble(0x1)
  {
    hide Nibble, Xor, Ones;
    var a := Nibble(0x0);
    var b := a + Nibble(0x2);
    var c := b + Nibble(0x3);
    var d := c + Nibble(0x8);
    var e := d + Nibble(0x8);
    var f := e + Nibble(0xB);
    var g := f + Nibble(0xD);
    Flipped(0x0);
    Flipped(0x2);
    Flipped(0x3);
    Flipped(0x8);
    Flipped(0xB);
    Flipped(0xD);
    Flipped(0xE);
    XorConcat(a, Nibble(0x2));
    XorConcat(b, Nibble(0x3));
    XorConcat(c, Nibble(0x8));
    XorConcat(d, Nibble(0x8));
    XorConcat(e, Nibble(0xB));
    XorConcat(f, Nibble(0xD));
    XorConcat(g, Nibble(0xE));
  }
}
