/** The Aviarm text armour: bytes are carried by characters of six bits each, low bits first. */
module Armour {
  import opened Bytes
  import Division

  // ----- one character ------------------------------------------------------------------

  /** Unsigned chars wrap around. */
  function Wrapped(x: int): (b: byte)
    requires -256 <= x < 512
    ensures b == x % 256
  {
    if x < 0 then x + 256 else if x < 256 then x else x - 256
  }

  /** bin2txt of one byte. */
  function ToChar(b: byte): byte {
    var c := Wrapped(b + 0x30);
    if c > 0x5A then Wrapped(c + 6) else c
  }

  /** txt2bin of one byte. */
  function FromChar(x: byte): byte {
    var v := Wrapped(x - 0x30);
    if v > 0x2A then Wrapped(v - 6) else v
  }

  predicate InAlphabet(x: byte) {
    0x30 <= x <= 0x5A || 0x61 <= x <= 0x75
  }

  /** Six-bit values are mapped one to one onto the alphabet. */
  lemma CharsAreTheAlphabet(b: byte, x: byte)
    ensures b < 64 ==> InAlphabet(ToChar(b)) && FromChar(ToChar(b)) == b
    ensures InAlphabet(x) <==> FromChar(x) < 64 && ToChar(FromChar(x)) == x
  {
  }

  /** The characters stand for the values in increasing order. */
  lemma CharsIncrease(b: byte, c: byte)
    requires b < c < 64
    ensures ToChar(b) < ToChar(c)
  {
  }

  /** Outside the alphabet the two are not inverse everywhere. */
  lemma CharRoundTripExactly(b: byte, x: byte)
    ensures FromChar(ToChar(b)) == b <==> b < 208
    ensures ToChar(FromChar(x)) == x <==> x < 6 || 0x30 <= x <= 0x5A || x >= 0x61
  {
  }

  method Bin2TxtByte(b: byte) returns (r: byte)
    ensures r == ToChar(b)
  {
    r := Wrapped(b + 0x30);
    if r > 0x5A {
      r := Wrapped(r + 6);
    }
  }

  method Txt2BinByte(x: byte) returns (r: byte)
    ensures r == FromChar(x)
  {
    r := Wrapped(x - 0x30);
    if r > 0x2A {
      r := Wrapped(r - 6);
    }
  }

  // ----- bytes to text --------------------------------------------------------------------

  lemma By3(a: int, q: int, r: int)
    requires a == 3 * q + r && 0 <= r < 3
    ensures a / 3 == q && a % 3 == r
  {
  }

  lemma By4(a: int, q: int, r: int)
    requires a == 4 * q + r && 0 <= r < 4
    ensures a / 4 == q && a % 4 == r
  {
  }

  lemma By16(a: int, q: int, r: int)
    requires a == 16 * q + r && 0 <= r < 16
    ensures a / 16 == q && a % 16 == r
  {
  }

  lemma By64(a: int, q: int, r: int)
    requires a == 64 * q + r && 0 <= r < 64
    ensures a / 64 == q && a % 64 == r
  {
  }

  /** Four characters for three bytes, and one more than the bytes left over. */
  function TextSize(n: nat): nat {
    n / 3 * 4 + if n % 3 == 0 then 0 else n % 3 + 1
  }

  lemma TextSizeIs(n: nat)
    ensures n * 4 / 3 + (if n % 3 != 0 then 1 else 0) == TextSize(n)
  {
    var q, r := n / 3, n % 3;
    if r == 0 {
      By3(n * 4, 4 * q, 0);
    } else if r == 1 {
      By3(n * 4, 4 * q + 1, 1);
    } else {
      By3(n * 4, 4 * q + 2, 2);
    }
  }

  /** The six bits of a character that starts in byte lo and may reach into byte hi. */
  function SixBits(lo: byte, hi: byte, r: nat): (v: byte)
    requires r < 4
    ensures v < 64
  {
    match r
    case 0 => lo % 64
    case 1 => lo / 64 % 4 + hi % 16 * 4
    case 2 => lo / 16 % 16 + hi % 4 * 16
    case _ => lo / 4 % 64
  }

  /** The byte in which character i starts: four characters for three bytes. */
  function StartByte(i: nat): nat {
    i / 4 * 3 + if i % 4 == 0 then 0 else i % 4 - 1
  }

  lemma StartByteIs(i: nat)
    ensures i * 3 / 4 == StartByte(i)
  {
    var q, r := i / 4, i % 4;
    if r == 0 {
      By4(i * 3, 3 * q, 0);
    } else if r == 1 {
      By4(i * 3, 3 * q, 3);
    } else if r == 2 {
      By4(i * 3, 3 * q + 1, 2);
    } else {
      By4(i * 3, 3 * q + 2, 1);
    }
  }

  lemma StartIsInside(n: nat, i: nat)
    requires i < TextSize(n)
    ensures StartByte(i) < n
  {
    var q, r := i / 4, i % 4;
    assert q <= n / 3;
  }

  /** The six bits that character i carries; bits behind the last byte are zero. */
  function Sextet(bin: seq<byte>, i: nat): (v: byte)
    requires i < TextSize(|bin|)
    ensures v < 64
  {
    StartIsInside(|bin|, i);
    SixBits(bin[StartByte(i)], ByteOrZero(bin, StartByte(i) + 1), i % 4)
  }

  function Text(bin: seq<byte>): (text: seq<byte>)
    ensures |text| == TextSize(|bin|)
  {
    seq(TextSize(|bin|), i requires 0 <= i < TextSize(|bin|) => ToChar(Sextet(bin, i)))
  }

  method Bin2Txt(bin: seq<byte>) returns (text: array<byte>)
    ensures fresh(text) && text[..] == Text(bin)
  {
    hide ToChar, StartByte, TextSize, SixBits;
    TextSizeIs(|bin|);
    var sz := |bin| * 4 / 3;
    if |bin| % 3 != 0 {
      sz := sz + 1;
    }
    text := new byte[sz](_ => 0);
    var i := 0;
    while i < sz
      invariant i <= sz && text.Length == sz && text[..i] == Text(bin)[..i]
    {
      var k := i * 3 / 4;
      StartByteIs(i);
      StartIsInside(|bin|, i);
      var lo := bin[k];
      var hi: byte := 0;
      if k + 1 < |bin| {
        hi := bin[k + 1];
      }
      var val := TakeSixBits(lo, hi, i % 4);
      text[i] := Bin2TxtByte(val);
      i := i + 1;
    }
  }

  method TakeSixBits(lo: byte, hi: byte, r: nat) returns (val: byte)
    requires r < 4
    ensures val == SixBits(lo, hi, r)
  {
    match r {
      case 0 => val := lo % 64;
      case 1 => val := lo / 64 % 4 + hi % 16 * 4;
      case 2 => val := lo / 16 % 16 + hi % 4 * 16;
      case _ => val := lo / 4 % 64;
    }
  }

  /** The characters carry the bits of the bytes in order, least significant first: bit j of
      character i is bit 6i + j of the whole. */
  lemma SextetsAreTheBits(bin: seq<byte>, i: nat, j: nat)
    requires i < TextSize(|bin|) && j < 6
    ensures var at := 6 * i + j;
            Division.BitsOf(Sextet(bin, i))[j] <==> at < 8 * |bin| && Division.BitsOf(bin[at / 8])[at % 8]
  {
    hide SixBits, TextSize, Division.BitsOf, StartByte, Shift;
    StartIsInside(|bin|, i);
    var r, k := i % 4, StartByte(i);
    BitPlace(i);
    SixBitAt(bin[k], ByteOrZero(bin, k + 1), r, j);
    NoBits();
    var at, shift := 6 * i + j, Shift(r);
    if shift + j < 8 {
      By8(at, k, shift + j);
    } else {
      By8(at, k + 1, shift + j - 8);
    }
  }

  lemma SixBitAt(lo: byte, hi: byte, r: nat, j: nat)
    requires r < 4 && j < 6
    ensures var at := Shift(r) + j;
            Division.BitsOf(SixBits(lo, hi, r))[j] ==
            if at < 8 then Division.BitsOf(lo)[at] else Division.BitsOf(hi)[at - 8]
  {
    hide SixBits, Division.BitsOf, Shift;
    SixBitsAre(lo, hi, r);
  }

  lemma BitPlace(i: nat)
    ensures 6 * i == 8 * StartByte(i) + Shift(i % 4)
  {
    assert i == 4 * (i / 4) + i % 4;
  }

  lemma NoBits()
    ensures Division.BitsOf(0) == [false, false, false, false, false, false, false, false]
  {
    Division.BitsAre(0);
  }

  lemma By8(a: int, q: int, r: int)
    requires a == 8 * q + r && 0 <= r < 8
    ensures a / 8 == q && a % 8 == r
  {
  }

  /** The bit of its first byte a character begins with. */
  function Shift(r: nat): (shift: nat)
    requires r < 4
    ensures shift < 8
  {
    match r
    case 0 => 0
    case 1 => 6
    case 2 => 4
    case _ => 2
  }

  function Digit(b: byte, k: nat): (digit: nat)
    requires k < 8
    ensures digit < 2
  {
    if Division.BitsOf(b)[k] then 1 else 0
  }

  lemma DigitsAre(b: byte)
    ensures Digit(b, 0) == b % 2 && Digit(b, 1) == b / 2 % 2 && Digit(b, 2) == b / 4 % 2 && Digit(b, 3) == b / 8 % 2
    ensures Digit(b, 4) == b / 16 % 2 && Digit(b, 5) == b / 32 % 2 && Digit(b, 6) == b / 64 % 2
    ensures Digit(b, 7) == b / 128 % 2
  {
    hide Division.BitsOf;
    Division.BitsAre(b);
  }

  lemma Halved(b: nat)
    ensures b == b % 2 + 2 * (b / 2) && b / 2 == b / 2 % 2 + 2 * (b / 4) && b / 4 == b / 4 % 2 + 2 * (b / 8)
    ensures b / 8 == b / 8 % 2 + 2 * (b / 16) && b / 16 == b / 16 % 2 + 2 * (b / 32)
    ensures b / 32 == b / 32 % 2 + 2 * (b / 64) && b / 64 == b / 64 % 2 + 2 * (b / 128)
  {
    Division.Quarters(b);
    Division.Quarters(b / 16);
    Division.Half(b);
    Division.Half(b / 2);
    Division.Half(b / 4);
    Division.Half(b / 8);
    Division.Half(b / 16);
    Division.Half(b / 32);
    Division.Half(b / 64);
  }

  lemma Digits(b: byte)
    ensures b == Digit(b, 0) + 2 * Digit(b, 1) + 4 * Digit(b, 2) + 8 * Digit(b, 3)
              + 16 * Digit(b, 4) + 32 * Digit(b, 5) + 64 * Digit(b, 6) + 128 * Digit(b, 7)
  {
    hide Digit;
    DigitsAre(b);
    Halved(b);
    assert b / 128 == b / 128 % 2;
  }

  lemma DigitsOf(v: byte, a: nat, b: nat, c: nat, d: nat, e: nat, f: nat)
    requires a < 2 && b < 2 && c < 2 && d < 2 && e < 2 && f < 2
    requires v == a + 2 * b + 4 * c + 8 * d + 16 * e + 32 * f
    ensures Division.BitsOf(v) == [a == 1, b == 1, c == 1, d == 1, e == 1, f == 1, false, false]
  {
    Division.BitsAre(v);
    hide Division.BitsOf;
    var v5 := f;
    var v4 := e + 2 * v5;
    var v3 := d + 2 * v4;
    var v2 := c + 2 * v3;
    var v1 := b + 2 * v2;
    Division.Quarters(v);
    Division.Quarters(v4);
    Division.HalfIs(v, a, v1);
    Division.HalfIs(v1, b, v2);
    Division.HalfIs(v2, c, v3);
    Division.HalfIs(v3, d, v4);
    Division.HalfIs(v4, e, v5);
    Division.HalfIs(v5, f, 0);
  }

  /** A character holds six consecutive bits of its two bytes. */
  lemma SixBitsAre(lo: byte, hi: byte, r: nat)
    requires r < 4
    ensures var bits := Division.BitsOf(lo) + Division.BitsOf(hi);
            Division.BitsOf(SixBits(lo, hi, r)) == bits[Shift(r)..Shift(r) + 6] + [false, false]
  {
    match r
    case 0 => FirstSix(lo, hi);
    case 1 => SecondSix(lo, hi);
    case 2 => ThirdSix(lo, hi);
    case _ => FourthSix(lo, hi);
  }

  function Sum(a: nat, b: nat, c: nat, d: nat, e: nat, f: nat): nat {
    a + 2 * b + 4 * c + 8 * d + 16 * e + 32 * f
  }

  lemma SumIs(a: nat, b: nat, c: nat, d: nat, e: nat, f: nat)
    ensures Sum(a, b, c, d, e, f) == a + 2 * b + 4 * c + 8 * d + 16 * e + 32 * f
  {
  }

  lemma Assembled(lo: byte, hi: byte, at: nat, a: nat, b: nat, c: nat, d: nat, e: nat, f: nat)
    requires at <= 10
    requires a == DigitAt(lo, hi, at) && b == DigitAt(lo, hi, at + 1) && c == DigitAt(lo, hi, at + 2)
    requires d == DigitAt(lo, hi, at + 3) && e == DigitAt(lo, hi, at + 4) && f == DigitAt(lo, hi, at + 5)
    ensures Sum(a, b, c, d, e, f) < 64
    ensures var bits := Division.BitsOf(lo) + Division.BitsOf(hi);
            Division.BitsOf(Sum(a, b, c, d, e, f)) == bits[at..at + 6] + [false, false]
  {
    hide Division.BitsOf, DigitAt;
    var bits := Division.BitsOf(lo) + Division.BitsOf(hi);
    DigitsOf(Sum(a, b, c, d, e, f), a, b, c, d, e, f);
    SixOf(bits, at);
  }

  lemma SixOf(bits: seq<bool>, at: nat)
    requires at + 6 <= |bits|
    ensures bits[at..at + 6] == [bits[at], bits[at + 1], bits[at + 2], bits[at + 3], bits[at + 4], bits[at + 5]]
  {
  }

  /** Digit k of two bytes. */
  function DigitAt(lo: byte, hi: byte, k: nat): (digit: nat)
    requires k < 16
    ensures digit < 2 && (digit == 1) == (Division.BitsOf(lo) + Division.BitsOf(hi))[k]
  {
    if k < 8 then Digit(lo, k) else Digit(hi, k - 8)
  }

  lemma FirstSix(lo: byte, hi: byte)
    ensures var bits := Division.BitsOf(lo) + Division.BitsOf(hi);
            Division.BitsOf(lo % 64) == bits[0..6] + [false, false]
  {
    hide Division.BitsOf, Digit, Sum;
    Digits(lo);
    Digits(hi);
    var a, b, c, d, e, f := Digit(lo, 0), Digit(lo, 1), Digit(lo, 2), Digit(lo, 3), Digit(lo, 4), Digit(lo, 5);
    Assembled(lo, hi, 0, a, b, c, d, e, f);
    SumIs(a, b, c, d, e, f);
    LowPart(lo, Sum(a, b, c, d, e, f), Digit(lo, 6) + 2 * Digit(lo, 7));
  }

  lemma LowPart(lo: nat, low: nat, high: nat)
    requires lo == low + 64 * high && low < 64
    ensures lo % 64 == low && lo / 64 == high
  {
  }

  lemma SecondPart(lo: nat, hi: nat, low: nat, a: nat, c: nat, rest: nat)
    requires lo == low + 64 * a && low < 64 && a < 4 && hi == c + 16 * rest && c < 16
    ensures lo / 64 % 4 + hi % 16 * 4 == a + 4 * c
  {
    LowPart(lo, low, a);
  }

  lemma FourthPart(lo: nat, low: nat, s: nat)
    requires lo == low + 4 * s && low < 4 && s < 64
    ensures lo / 4 % 64 == s
  {
    By4(lo, s, low);
  }

  lemma ThirdPart(lo: nat, hi: nat, low: nat, a: nat, c: nat, rest: nat)
    requires lo == low + 16 * a && low < 16 && a < 16 && hi == c + 4 * rest && c < 4
    ensures lo / 16 % 16 + hi % 4 * 16 == a + 16 * c
  {
    By16(lo, a, low);
  }

  lemma SecondSix(lo: byte, hi: byte)
    ensures var bits := Division.BitsOf(lo) + Division.BitsOf(hi);
            Division.BitsOf(lo / 64 % 4 + hi % 16 * 4) == bits[6..12] + [false, false]
  {
    hide Division.BitsOf, Digit, Sum;
    Digits(lo);
    Digits(hi);
    var a, b, c, d, e, f := Digit(lo, 6), Digit(lo, 7), Digit(hi, 0), Digit(hi, 1), Digit(hi, 2), Digit(hi, 3);
    Assembled(lo, hi, 6, a, b, c, d, e, f);
    SumIs(a, b, c, d, e, f);
    SecondPart(lo, hi, lo - 64 * (a + 2 * b), a + 2 * b, c + 2 * d + 4 * e + 8 * f,
               Digit(hi, 4) + 2 * Digit(hi, 5) + 4 * Digit(hi, 6) + 8 * Digit(hi, 7));
  }

  lemma ThirdSix(lo: byte, hi: byte)
    ensures var bits := Division.BitsOf(lo) + Division.BitsOf(hi);
            Division.BitsOf(lo / 16 % 16 + hi % 4 * 16) == bits[4..10] + [false, false]
  {
    hide Division.BitsOf, Digit, Sum;
    Digits(lo);
    Digits(hi);
    var a, b, c, d, e, f := Digit(lo, 4), Digit(lo, 5), Digit(lo, 6), Digit(lo, 7), Digit(hi, 0), Digit(hi, 1);
    Assembled(lo, hi, 4, a, b, c, d, e, f);
    SumIs(a, b, c, d, e, f);
    var high := a + 2 * b + 4 * c + 8 * d;
    ThirdPart(lo, hi, lo - 16 * high, high, e + 2 * f,
              Digit(hi, 2) + 2 * Digit(hi, 3) + 4 * Digit(hi, 4) + 8 * Digit(hi, 5) + 16 * Digit(hi, 6)
              + 32 * Digit(hi, 7));
  }

  lemma FourthSix(lo: byte, hi: byte)
    ensures var bits := Division.BitsOf(lo) + Division.BitsOf(hi);
            Division.BitsOf(lo / 4 % 64) == bits[2..8] + [false, false]
  {
    hide Division.BitsOf, Digit, Sum;
    Digits(lo);
    Digits(hi);
    var a, b, c, d, e, f := Digit(lo, 2), Digit(lo, 3), Digit(lo, 4), Digit(lo, 5), Digit(lo, 6), Digit(lo, 7);
    Assembled(lo, hi, 2, a, b, c, d, e, f);
    SumIs(a, b, c, d, e, f);
    FourthPart(lo, Digit(lo, 0) + 2 * Digit(lo, 1), Sum(a, b, c, d, e, f));
  }

  // ----- text to bytes ------------------------------------------------------------------------

  /** Three bytes for four characters, and one less than the characters left over. */
  function BinSize(n: nat): nat {
    n / 4 * 3 + if n % 4 == 0 then 0 else n % 4 - 1
  }

  lemma BinSizeIs(n: nat)
    ensures n * 3 / 4 == BinSize(n)
  {
    StartByteIs(n);
  }

  /** A byte put together from the values of the two characters that carry it. */
  function Joined(lo: byte, hi: byte, r: nat): byte
    requires r < 3
  {
    match r
    case 0 => lo % 64 + hi % 4 * 64
    case 1 => lo / 4 % 16 + hi % 16 * 16
    case _ => lo / 16 % 4 + hi % 64 * 4
  }

  function StartChar(j: nat): nat {
    j / 3 * 4 + j % 3
  }

  lemma CharsAreInside(n: nat, j: nat)
    requires j < BinSize(n)
    ensures StartChar(j) + 1 < n
  {
  }

  function Gathered(text: seq<byte>, j: nat): byte
    requires j < BinSize(|text|)
  {
    CharsAreInside(|text|, j);
    Joined(FromChar(text[StartChar(j)]), FromChar(text[StartChar(j) + 1]), j % 3)
  }

  function Bin(text: seq<byte>): (bin: seq<byte>)
    ensures |bin| == BinSize(|text|)
  {
    seq(BinSize(|text|), j requires 0 <= j < BinSize(|text|) => Gathered(text, j))
  }

  // ----- round trips -----------------------------------------------------------------------------

  lemma TextIsLongEnough(n: nat)
    ensures BinSize(TextSize(n)) == n
  {
    var q, r := n / 3, n % 3;
    By4(TextSize(n), q, if r == 0 then 0 else r + 1);
  }

  /** A single character left over carries no byte. */
  lemma BytesFillTheText(n: nat)
    ensures TextSize(BinSize(n)) == if n % 4 == 1 then n - 1 else n
  {
    var q, r := n / 4, n % 4;
    By3(BinSize(n), q, if r == 0 then 0 else r - 1);
  }

  /** Two neighbouring characters give the byte between them back. */
  lemma FirstByteBack(a: byte, b: byte)
    ensures Joined(SixBits(a, b, 0), SixBits(a, b, 1), 0) == a
  {
    By4(SixBits(a, b, 1), b % 16, a / 64);
  }

  lemma SecondByteBack(a: byte, b: byte, c: byte)
    ensures Joined(SixBits(a, b, 1), SixBits(b, c, 2), 1) == b
  {
    By4(SixBits(a, b, 1), b % 16, a / 64);
    By16(SixBits(b, c, 2), c % 4, b / 16);
    hide SixBits;
  }

  lemma ThirdByteBack(b: byte, c: byte, next: byte)
    ensures Joined(SixBits(b, c, 2), SixBits(c, next, 3), 2) == c
  {
    By16(SixBits(b, c, 2), c % 4, b / 16);
    assert SixBits(c, next, 3) == c / 4;
    hide SixBits;
  }

  lemma CharsOfByte(j: nat)
    ensures var k := StartChar(j);
            && k % 4 == j % 3 && (k + 1) % 4 == j % 3 + 1
            && StartByte(k) == (if j % 3 == 0 then j else j - 1) && StartByte(k + 1) == j
  {
    var q, r := j / 3, j % 3;
    By4(StartChar(j), q, r);
    By4(StartChar(j) + 1, q, r + 1);
  }

  lemma ByteReadsBack(bin: seq<byte>, j: nat)
    requires j < |bin|
    ensures BinSize(|Text(bin)|) == |bin| && Gathered(Text(bin), j) == bin[j]
  {
    TextIsLongEnough(|bin|);
    var k := StartChar(j);
    CharsAreInside(|Text(bin)|, j);
    CharsOfByte(j);
    hide FromChar, ToChar, TextSize, BinSize, StartByte, StartChar;
    CharsAreTheAlphabet(Sextet(bin, k), 0);
    CharsAreTheAlphabet(Sextet(bin, k + 1), 0);
    assert Gathered(Text(bin), j) == Joined(Sextet(bin, k), Sextet(bin, k + 1), j % 3);
    hide Joined, SixBits;
    if j % 3 == 0 {
      FirstByteBack(bin[j], ByteOrZero(bin, j + 1));
    } else if j % 3 == 1 {
      SecondByteBack(bin[j - 1], bin[j], ByteOrZero(bin, j + 1));
    } else {
      ThirdByteBack(bin[j - 1], bin[j], ByteOrZero(bin, j + 1));
    }
  }

  /** Every byte string survives the armour, and the text stays in the alphabet. */
  lemma RoundTrip(bin: seq<byte>)
    ensures Bin(Text(bin)) == bin
    ensures forall i | 0 <= i < |Text(bin)| :: InAlphabet(Text(bin)[i])
  {
    TextIsLongEnough(|bin|);
    hide Gathered, Sextet, InAlphabet, FromChar, ToChar;
    forall j | 0 <= j < |bin|
      ensures Bin(Text(bin))[j] == bin[j]
    {
      ByteReadsBack(bin, j);
    }
    forall i | 0 <= i < |Text(bin)|
      ensures InAlphabet(Text(bin)[i])
    {
      CharsAreTheAlphabet(Sextet(bin, i), 0);
    }
  }

  // ----- texts ---------------------------------------------------------------------------------

  predicate IsLast(text: seq<byte>, i: nat) {
    i + 1 == |text|
  }

  /** How many values the text can use of character i: the last one may reach into a byte that is
      not there. */
  function Range(text: seq<byte>, i: nat): (n: nat)
    ensures n == 4 || n == 16 || n == 64
  {
    if IsLast(text, i) && i % 4 == 1 then 4 else if IsLast(text, i) && i % 4 == 2 then 16 else 64
  }

  lemma FirstCharBack(v0: byte, v1: byte, next: byte)
    ensures SixBits(Joined(v0, v1, 0), next, 0) == v0 % 64
  {
    By64(Joined(v0, v1, 0), v1 % 4, v0 % 64);
    hide Joined;
  }

  lemma TwoParts(v: byte)
    ensures v % 4 + v / 4 % 16 * 4 == v % 64
    ensures v % 16 + v / 16 % 4 * 16 == v % 64
  {
    var x, d := v / 4, v % 4;
    var y, c := x / 4, x % 4;
    var z, b := y / 4, y % 4;
    By16(x, z, 4 * b + c);
    By16(v, y, 4 * c + d);
    By64(v, z, 16 * b + 4 * c + d);
  }

  lemma SecondCharBack(v0: byte, v1: byte, v2: byte)
    ensures SixBits(Joined(v0, v1, 0), Joined(v1, v2, 1), 1) == v1 % 64
    ensures SixBits(Joined(v0, v1, 0), 0, 1) == v1 % 4
  {
    By64(Joined(v0, v1, 0), v1 % 4, v0 % 64);
    By16(Joined(v1, v2, 1), v2 % 16, v1 / 4 % 16);
    TwoParts(v1);
    hide Joined;
  }

  lemma ThirdCharBack(v1: byte, v2: byte, v3: byte)
    ensures SixBits(Joined(v1, v2, 1), Joined(v2, v3, 2), 2) == v2 % 64
    ensures SixBits(Joined(v1, v2, 1), 0, 2) == v2 % 16
  {
    hide Joined;
    ThirdLow(v1, v2);
    ThirdHigh(v2, v3);
    TwoParts(v2);
  }

  lemma ThirdLow(v1: byte, v2: byte)
    ensures Joined(v1, v2, 1) / 16 % 16 == v2 % 16
  {
    By16(Joined(v1, v2, 1), v2 % 16, v1 / 4 % 16);
  }

  lemma ThirdHigh(v2: byte, v3: byte)
    ensures Joined(v2, v3, 2) % 4 == v2 / 16 % 4
  {
    By4(Joined(v2, v3, 2), v3 % 64, v2 / 16 % 4);
  }

  lemma FourthCharBack(v2: byte, v3: byte, next: byte)
    ensures SixBits(Joined(v2, v3, 2), next, 3) == v3 % 64
  {
    By4(Joined(v2, v3, 2), v3 % 64, v2 / 16 % 4);
    hide Joined;
  }

  lemma ByteIsJoined(text: seq<byte>, q: nat, r: nat)
    requires r < 3 && 3 * q + r < BinSize(|text|)
    ensures 4 * q + r + 1 < |text|
    ensures Bin(text)[3 * q + r] == Joined(FromChar(text[4 * q + r]), FromChar(text[4 * q + r + 1]), r)
  {
    CharsAreInside(|text|, 3 * q + r);
    hide Joined, FromChar;
  }

  lemma CharInGroup(text: seq<byte>, q: nat, r: nat)
    requires r < 4 && 4 * q + r < |text| && |text| % 4 != 1
    ensures var n := BinSize(|text|);
            && TextSize(n) == |text|
            && 3 * q + (if r == 0 then 0 else r - 1) < n
            && (3 * q + 1 < n <==> 4 * q + 2 < |text|)
            && (3 * q + 2 < n <==> 4 * q + 3 < |text|)
  {
    BytesFillTheText(|text|);
  }

  /** What the text has room for of the value of character i. */
  function Kept(text: seq<byte>, i: nat): (v: byte)
    requires i < |text|
    ensures v < 64
  {
    var v := FromChar(text[i]);
    if IsLast(text, i) && i % 4 == 1 then v % 4 else if IsLast(text, i) && i % 4 == 2 then v % 16 else v % 64
  }

  lemma SextetAt(bin: seq<byte>, q: nat, r: nat)
    requires r < 4 && 4 * q + r < TextSize(|bin|)
    ensures var k := 3 * q + if r == 0 then 0 else r - 1;
            k < |bin| && Sextet(bin, 4 * q + r) == SixBits(bin[k], ByteOrZero(bin, k + 1), r)
  {
    hide SixBits, TextSize;
    StartIsInside(|bin|, 4 * q + r);
    By4(4 * q + r, q, r);
  }

  lemma KeptAt(text: seq<byte>, q: nat, r: nat)
    requires r < 4 && 4 * q + r < |text|
    ensures var v, last := FromChar(text[4 * q + r]), 4 * q + r + 1 == |text|;
            Kept(text, 4 * q + r) == if last && r == 1 then v % 4 else if last && r == 2 then v % 16 else v % 64
  {
    hide FromChar;
    By4(4 * q + r, q, r);
  }

  lemma FirstOfGroup(text: seq<byte>, q: nat)
    requires |text| % 4 != 1 && 4 * q < |text| && TextSize(|Bin(text)|) == |text|
    ensures Sextet(Bin(text), 4 * q) == Kept(text, 4 * q)
  {
    hide Joined, SixBits, FromChar, TextSize, BinSize, Bin, Sextet, Kept;
    CharInGroup(text, q, 0);
    KeptAt(text, q, 0);
    ByteIsJoined(text, q, 0);
    SextetAt(Bin(text), q, 0);
    FirstCharBack(FromChar(text[4 * q]), FromChar(text[4 * q + 1]), ByteOrZero(Bin(text), 3 * q + 1));
  }

  lemma SecondOfGroup(text: seq<byte>, q: nat)
    requires |text| % 4 != 1 && 4 * q + 1 < |text| && TextSize(|Bin(text)|) == |text|
    ensures Sextet(Bin(text), 4 * q + 1) == Kept(text, 4 * q + 1)
  {
    hide Joined, SixBits, FromChar, TextSize, BinSize, Bin, Sextet, Kept;
    CharInGroup(text, q, 1);
    KeptAt(text, q, 1);
    ByteIsJoined(text, q, 0);
    SextetAt(Bin(text), q, 1);
    if 4 * q + 2 < |text| {
      ByteIsJoined(text, q, 1);
      SecondCharBack(FromChar(text[4 * q]), FromChar(text[4 * q + 1]), FromChar(text[4 * q + 2]));
    } else {
      SecondCharBack(FromChar(text[4 * q]), FromChar(text[4 * q + 1]), 0);
    }
  }

  lemma ThirdOfGroup(text: seq<byte>, q: nat)
    requires |text| % 4 != 1 && 4 * q + 2 < |text| && TextSize(|Bin(text)|) == |text|
    ensures Sextet(Bin(text), 4 * q + 2) == Kept(text, 4 * q + 2)
  {
    hide Joined, SixBits, FromChar, TextSize, BinSize, Bin, Sextet, Kept;
    CharInGroup(text, q, 2);
    KeptAt(text, q, 2);
    ByteIsJoined(text, q, 1);
    SextetAt(Bin(text), q, 2);
    if 4 * q + 3 < |text| {
      ByteIsJoined(text, q, 2);
      ThirdCharBack(FromChar(text[4 * q + 1]), FromChar(text[4 * q + 2]), FromChar(text[4 * q + 3]));
    } else {
      ThirdCharBack(FromChar(text[4 * q + 1]), FromChar(text[4 * q + 2]), 0);
    }
  }

  lemma FourthOfGroup(text: seq<byte>, q: nat)
    requires |text| % 4 != 1 && 4 * q + 3 < |text| && TextSize(|Bin(text)|) == |text|
    ensures Sextet(Bin(text), 4 * q + 3) == Kept(text, 4 * q + 3)
  {
    hide Joined, SixBits, FromChar, TextSize, BinSize, Bin, Sextet, Kept;
    CharInGroup(text, q, 3);
    KeptAt(text, q, 3);
    ByteIsJoined(text, q, 2);
    SextetAt(Bin(text), q, 3);
    FourthCharBack(FromChar(text[4 * q + 2]), FromChar(text[4 * q + 3]), ByteOrZero(Bin(text), 3 * q + 3));
  }

  /** A character reads back as far as the text has room for its value. */
  lemma CharReadsBack(text: seq<byte>, i: nat)
    requires |text| % 4 != 1 && i < |text|
    ensures TextSize(|Bin(text)|) == |text|
    ensures Sextet(Bin(text), i) == Kept(text, i)
  {
    hide TextSize, BinSize, Bin, Sextet, Kept, Gathered, FromChar, IsLast;
    BytesFillTheText(|text|);
    var q, r := i / 4, i % 4;
    assert i == 4 * q + r;
    assert Sextet(Bin(text), i) == Sextet(Bin(text), 4 * q + r) && Kept(text, i) == Kept(text, 4 * q + r);
    if r == 0 {
      FirstOfGroup(text, q);
    } else if r == 1 {
      SecondOfGroup(text, q);
    } else if r == 2 {
      ThirdOfGroup(text, q);
    } else {
      FourthOfGroup(text, q);
    }
  }

  predicate IsProper(text: seq<byte>, i: nat)
    requires i < |text|
  {
    InAlphabet(text[i]) && FromChar(text[i]) < Range(text, i)
  }

  lemma CharSurvivesExactly(text: seq<byte>, i: nat)
    requires |text| % 4 != 1 && i < |text|
    ensures TextSize(|Bin(text)|) == |text|
    ensures Text(Bin(text))[i] == text[i] <==> IsProper(text, i)
  {
    CharReadsBack(text, i);
    CharsAreTheAlphabet(Kept(text, i), text[i]);
    KeptExactly(text, i);
    hide FromChar, ToChar, InAlphabet, Kept, Range, Sextet, TextSize;
    assert Text(Bin(text))[i] == ToChar(Kept(text, i));
  }

  lemma KeptExactly(text: seq<byte>, i: nat)
    requires i < |text|
    ensures Kept(text, i) == FromChar(text[i]) <==> FromChar(text[i]) < Range(text, i)
    ensures Range(text, i) <= 64
  {
    hide FromChar;
  }

  /** A text is unchanged by decoding and encoding exactly when its characters are in the
      alphabet, no single character is left over, and the bits that fill up the last character
      are zero. */
  lemma TextRoundTripExactly(text: seq<byte>)
    ensures Text(Bin(text)) == text <==> |text| % 4 != 1 && forall i | 0 <= i < |text| :: IsProper(text, i)
  {
    BytesFillTheText(|text|);
    hide TextSize, BinSize, IsProper, Text, Bin;
    if |text| % 4 != 1 {
      forall i | 0 <= i < |text|
        ensures Text(Bin(text))[i] == text[i] <==> IsProper(text, i)
      {
        CharSurvivesExactly(text, i);
      }
    }
  }

  // ----- the decoder, which sets bits in place ---------------------------------------------------

  function OrByte(a: byte, b: byte): byte {
    assert Division.Pow2(8) == 256;
    Division.Or(a, b, 8)
  }

  /** Where the bits do not meet, or is addition. */
  lemma {:induction false} OrOfParts(low: nat, high: nat, k: nat, n: nat)
    requires k <= n && low < Division.Pow2(k) && high < Division.Pow2(n - k)
    ensures Division.Or(low, high * Division.Pow2(k), n) == low + high * Division.Pow2(k)
  {
    if k == 0 {
      assert low == 0;
      OrZero(high, n);
    } else {
      var p := Division.Pow2(k - 1);
      assert high * Division.Pow2(k) == 2 * (high * p);
      OrOfParts(low / 2, high, k - 1, n - 1);
    }
  }

  lemma {:induction false} OrZero(b: nat, n: nat)
    requires b < Division.Pow2(n)
    ensures Division.Or(0, b, n) == b
  {
    if n > 0 {
      OrZero(b / 2, n - 1);
    }
  }

  lemma ByteParts(low: byte, high: byte, k: nat)
    requires (k == 0 && low == 0) || (k == 2 && low < 4 && high < 64) || (k == 4 && low < 16 && high < 16)
             || (k == 6 && low < 64 && high < 4)
    ensures Division.Pow2(0) == 1 && Division.Pow2(2) == 4 && Division.Pow2(4) == 16 && Division.Pow2(6) == 64
    ensures high * Division.Pow2(k) < 256 && OrByte(low, high * Division.Pow2(k)) == low + high * Division.Pow2(k)
  {
    assert Division.Pow2(2) == 4 && Division.Pow2(4) == 16;
    assert Division.Pow2(6) == 4 * Division.Pow2(4);
    assert Division.Pow2(8) == 4 * Division.Pow2(6);
    OrOfParts(low, high, k, 8);
  }

  function ValueBefore(text: seq<byte>, k: nat, i: nat): byte
    requires i <= |text|
  {
    if k < i then FromChar(text[k]) else 0
  }

  /** Byte j when the first i characters have been decoded. */
  function Partial(text: seq<byte>, j: nat, i: nat): byte
    requires i <= |text|
  {
    Joined(ValueBefore(text, StartChar(j), i), ValueBefore(text, StartChar(j) + 1, i), j % 3)
  }

  /** What decoding a character of value v does to the byte it starts in. */
  function SetLow(b: byte, v: byte, r: nat): byte
    requires r < 4
  {
    match r
    case 0 => OrByte(b, v % 64)
    case 1 => OrByte(b, v % 4 * 64)
    case 2 => OrByte(b, v % 16 * 16)
    case _ => OrByte(b, v % 64 * 4)
  }

  /** And to the next byte. */
  function SetHigh(b: byte, v: byte, r: nat): byte
    requires r == 1 || r == 2
  {
    if r == 1 then OrByte(b, v / 4 % 16) else OrByte(b, v / 16 % 4)
  }

  lemma SetLowFirst(v: byte)
    ensures SetLow(Joined(0, 0, 0), v, 0) == Joined(v, 0, 0)
  {
    hide OrByte, Division.Pow2;
    ByteParts(0, v % 64, 0);
  }

  lemma SetLowSecond(before: byte, v: byte)
    ensures SetLow(Joined(before, 0, 0), v, 1) == Joined(before, v, 0)
  {
    hide OrByte, Division.Pow2;
    ByteParts(before % 64, v % 4, 6);
  }

  lemma SetLowThird(before: byte, v: byte)
    ensures SetLow(Joined(before, 0, 1), v, 2) == Joined(before, v, 1)
  {
    hide OrByte, Division.Pow2;
    ByteParts(before / 4 % 16, v % 16, 4);
  }

  lemma SetLowFourth(before: byte, v: byte)
    ensures SetLow(Joined(before, 0, 2), v, 3) == Joined(before, v, 2)
  {
    hide OrByte, Division.Pow2;
    ByteParts(before / 16 % 4, v % 64, 2);
  }

  lemma SetHighJoins(v: byte, r: nat)
    requires r == 1 || r == 2
    ensures SetHigh(Joined(0, 0, r), v, r) == Joined(v, 0, r)
  {
    hide OrByte, Division.Pow2;
    ByteParts(0, v / 4 % 16, 0);
    ByteParts(0, v / 16 % 4, 0);
  }

  lemma PartialLow(text: seq<byte>, i: nat)
    requires i < |text|
    ensures var k := StartByte(i);
            Partial(text, k, i + 1) == SetLow(Partial(text, k, i), FromChar(text[i]), i % 4)
  {
    hide Joined, SetLow, FromChar;
    var q, r, v := i / 4, i % 4, FromChar(text[i]);
    if r == 0 {
      SetLowFirst(v);
    } else {
      var before := FromChar(text[i - 1]);
      PartialOf(text, q, r - 1, i);
      if r == 1 {
        SetLowSecond(before, v);
      } else if r == 2 {
        SetLowThird(before, v);
      } else {
        SetLowFourth(before, v);
      }
    }
  }

  /** The byte whose second character is the next one to be decoded. */
  lemma PartialOf(text: seq<byte>, q: nat, r: nat, i: nat)
    requires r < 3 && i == 4 * q + r + 1 && i < |text|
    ensures StartByte(i) == 3 * q + r
    ensures Partial(text, 3 * q + r, i) == Joined(FromChar(text[i - 1]), 0, r)
    ensures Partial(text, 3 * q + r, i + 1) == Joined(FromChar(text[i - 1]), FromChar(text[i]), r)
  {
    hide Joined, FromChar;
    assert StartChar(3 * q + r) == 4 * q + r;
  }

  lemma PartialHigh(text: seq<byte>, i: nat)
    requires i < |text| && (i % 4 == 1 || i % 4 == 2)
    ensures var k := StartByte(i) + 1;
            Partial(text, k, i + 1) == SetHigh(Partial(text, k, i), FromChar(text[i]), i % 4)
  {
    hide Joined, SetHigh, FromChar;
    SetHighJoins(FromChar(text[i]), i % 4);
    assert StartChar(StartByte(i) + 1) == i;
  }

  lemma PartialElsewhere(text: seq<byte>, i: nat, j: nat)
    requires i < |text| && j != StartByte(i) && (i % 4 == 1 || i % 4 == 2 ==> j != StartByte(i) + 1)
    ensures Partial(text, j, i + 1) == Partial(text, j, i)
  {
    hide Joined, FromChar;
  }

  lemma PartialDone(text: seq<byte>, j: nat)
    requires j < BinSize(|text|)
    ensures Partial(text, j, |text|) == Bin(text)[j]
  {
    CharsAreInside(|text|, j);
    hide Joined, FromChar;
  }

  /** All bytes of the buffer after i characters. */
  function Decoded(text: seq<byte>, size: nat, i: nat): (bin: seq<byte>)
    requires i <= |text|
    ensures |bin| == size
  {
    seq(size, j requires 0 <= j < size => Partial(text, j, i))
  }

  method OrInto(bin: array<byte>, k: nat, v: byte, r: nat)
    requires r < 4 && k < bin.Length && (r == 1 || r == 2 ==> k + 1 < bin.Length)
    modifies bin
    ensures bin[k] == SetLow(old(bin[k]), v, r)
    ensures r == 1 || r == 2 ==> bin[k + 1] == SetHigh(old(bin[k + 1]), v, r)
    ensures forall j | 0 <= j < bin.Length :: j != k && (r == 1 || r == 2 ==> j != k + 1) ==> bin[j] == old(bin[j])
  {
    hide OrByte;
    match r {
      case 0 =>
        bin[k] := OrByte(bin[k], v % 64);
      case 1 =>
        bin[k] := OrByte(bin[k], v % 4 * 64);
        bin[k + 1] := OrByte(bin[k + 1], v / 4 % 16);
      case 2 =>
        bin[k] := OrByte(bin[k], v % 16 * 16);
        bin[k + 1] := OrByte(bin[k + 1], v / 16 % 4);
      case _ =>
        bin[k] := OrByte(bin[k], v % 64 * 4);
    }
  }

  lemma StartIsInBuffer(n: nat, i: nat)
    requires i < n
    ensures var size := BinSize(n) + if n % 4 != 0 then 1 else 0;
            StartByte(i) < size && (i % 4 == 1 || i % 4 == 2 ==> StartByte(i) + 1 < size)
  {
    assert i / 4 <= n / 4;
  }

  lemma AllBytesDone(text: seq<byte>, size: nat)
    requires BinSize(|text|) <= size
    ensures Decoded(text, size, |text|)[..BinSize(|text|)] == Bin(text)
  {
    hide Partial, BinSize;
    forall j | 0 <= j < BinSize(|text|)
      ensures Decoded(text, size, |text|)[j] == Bin(text)[j]
    {
      PartialDone(text, j);
    }
  }

  /** One more character is or-ed into the buffer. */
  lemma NextDecoded(text: seq<byte>, i: nat, before: seq<byte>, after: seq<byte>)
    requires i < |text| && before == Decoded(text, |before|, i) && |after| == |before|
    requires var k, v, r := StartByte(i), FromChar(text[i]), i % 4;
             && k < |before| && after[k] == SetLow(before[k], v, r)
             && (r == 1 || r == 2 ==> k + 1 < |before| && after[k + 1] == SetHigh(before[k + 1], v, r))
             && forall j | 0 <= j < |before| :: j != k && (r == 1 || r == 2 ==> j != k + 1) ==> after[j] == before[j]
    ensures after == Decoded(text, |before|, i + 1)
  {
    hide Partial, SetLow, SetHigh, FromChar, StartByte;
    PartialLow(text, i);
    if i % 4 == 1 || i % 4 == 2 {
      PartialHigh(text, i);
    }
    forall j | 0 <= j < |before|
      ensures after[j] == Partial(text, j, i + 1)
    {
      if j != StartByte(i) && (i % 4 == 1 || i % 4 == 2 ==> j != StartByte(i) + 1) {
        PartialElsewhere(text, i, j);
      }
    }
  }

  method Txt2Bin(text: seq<byte>) returns (bin: seq<byte>)
    ensures bin == Bin(text)
  {
    hide FromChar, SetLow, SetHigh, Partial, StartByte, Bin, BinSize;
    BinSizeIs(|text|);
    var bsz := |text| * 3 / 4;
    if |text| % 4 != 0 {
      bsz := bsz + 1;
    }
    var buffer := new byte[bsz](_ => 0);
    NothingDecoded(text, bsz);
    var i := 0;
    while i < |text|
      invariant i <= |text| && buffer.Length == bsz && buffer[..] == Decoded(text, bsz, i)
    {
      var k := i * 3 / 4;
      StartByteIs(i);
      StartIsInBuffer(|text|, i);
      var val := Txt2BinByte(text[i]);
      ghost var before := buffer[..];
      OrInto(buffer, k, val, i % 4);
      NextDecoded(text, i, before, buffer[..]);
      i := i + 1;
    }
    AllBytesDone(text, bsz);
    bin := if |text| % 4 != 0 then buffer[..bsz - 1] else buffer[..];
    assert buffer[..][..BinSize(|text|)] == bin;
  }

  lemma NothingDecoded(text: seq<byte>, size: nat)
    ensures Decoded(text, size, 0) == seq(size, _ => 0)
  {
  }
}
