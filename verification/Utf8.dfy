/** The conversion between 16-bit characters and UTF-8 (section 3 of RFC 3629). */
module Utf8 {
  import opened Bytes
  import Division

  type unit = x: int | 0 <= x < 0x1_0000

  // ----- encoding -----------------------------------------------------------------------

  /** One to three bytes, the value split into groups of six bits behind a marker. */
  function EncodeUnit(c: unit): (s: seq<byte>)
    ensures |s| == if c < 0x80 then 1 else if c < 0x800 then 2 else 3
  {
    if c < 0x80 then [c]
    else if c < 0x800 then [0xC0 + c / 64, 0x80 + c % 64]
    else [0xE0 + c / 4096, 0x80 + c / 64 % 64, 0x80 + c % 64]
  }

  /** The characters in front of the terminating zero. */
  function BeforeNul(ws: seq<unit>): (head: seq<unit>)
    ensures |head| <= |ws| && head == ws[..|head|] && forall k | 0 <= k < |head| :: head[k] != 0
    ensures |head| < |ws| ==> ws[|head|] == 0
    ensures |head| < |ws| <==> 0 in ws
  {
    if ws == [] || ws[0] == 0 then [] else [ws[0]] + BeforeNul(ws[1..])
  }

  function EncodeAll(ws: seq<unit>): seq<byte> {
    if ws == [] then [] else EncodeUnit(ws[0]) + EncodeAll(ws[1..])
  }

  lemma {:induction false} EncodeSnoc(ws: seq<unit>, c: unit)
    ensures EncodeAll(ws + [c]) == EncodeAll(ws) + EncodeUnit(c)
  {
    hide EncodeUnit;
    if ws == [] {
      assert (ws + [c])[1..] == [];
      assert EncodeUnit(c) + [] == EncodeUnit(c);
    } else {
      assert (ws + [c])[1..] == ws[1..] + [c];
      EncodeSnoc(ws[1..], c);
    }
  }

  method PushUnit(ret: seq<byte>, c: unit) returns (next: seq<byte>)
    ensures next == ret + EncodeUnit(c)
  {
    if c < 0x80 {
      next := ret + [c];
    } else if c < 0x800 {
      next := ret + [0xC0 + c / 64];
      next := next + [0x80 + c % 64];
    } else {
      next := ret + [0xE0 + c / 4096];
      next := next + [0x80 + c / 64 % 64];
      next := next + [0x80 + c % 64];
    }
  }

  /** wchar_to_utf8. The source walks to the terminating zero, so the text must have one. */
  method WcharToUtf8(wstr: seq<unit>) returns (ret: seq<byte>)
    requires 0 in wstr
    ensures ret == EncodeAll(BeforeNul(wstr))
  {
    hide EncodeUnit, EncodeAll, BeforeNul;
    ret := [];
    assert EncodeAll([]) == [] by {
      NothingEncoded();
    }
    var pc := 0;
    while wstr[pc] != 0
      invariant pc <= |BeforeNul(wstr)| < |wstr| && ret == EncodeAll(wstr[..pc])
      decreases |wstr| - pc
    {
      ret := PushUnit(ret, wstr[pc]);
      EncodeSnoc(wstr[..pc], wstr[pc]);
      assert wstr[..pc + 1] == wstr[..pc] + [wstr[pc]];
      pc := pc + 1;
    }
  }

  lemma NothingEncoded()
    ensures EncodeAll([]) == []
  {
  }

  // ----- decoding ----------------------------------------------------------------------------

  /** The characters decoded so far in front of what the rest decodes to. */
  function Behind(dst: seq<unit>, rest: Option<seq<unit>>): Option<seq<unit>> {
    if rest.None? then None else Some(dst + rest.value)
  }

  lemma BehindTwice(a: seq<unit>, b: seq<unit>, rest: Option<seq<unit>>)
    ensures Behind(a, Behind(b, rest)) == Behind(a + b, rest)
  {
    if rest.Some? {
      assert a + (b + rest.value) == a + b + rest.value;
    }
  }

  /** How many bytes belong to a lead byte; nothing is decoded from a byte that cannot lead. */
  datatype Lead = Plain | Two | Three | Four | Stray

  function LeadOf(b: byte): Lead {
    if b < 0x80 then Plain
    else if 0xC0 <= b < 0xE0 then Two
    else if 0xE0 <= b < 0xF0 then Three
    else if 0xF0 <= b < 0xF8 then Four
    else Stray
  }

  function Join2(b1: int, b2: int): unit
    requires 0 <= b1 < 256 && 0 <= b2 < 256
  {
    b1 % 32 * 64 + b2 % 64
  }

  function Join3(b1: int, b2: int, b3: int): unit
    requires 0 <= b1 < 256 && 0 <= b2 < 256 && 0 <= b3 < 256
  {
    b1 % 16 * 4096 + b2 % 64 * 64 + b3 % 64
  }

  /** The first unit of a four-byte sequence. If bits 4 and 5 of the second byte are zero, one is
      subtracted from zero and the shifted -1 fills the upper bits. */
  function FirstOfFour(b1: int, b2: int, b3: int): unit
    requires 0 <= b1 < 256 && 0 <= b2 < 256 && 0 <= b3 < 256
  {
    var low := b2 % 16 * 4 + b3 / 16 % 4;
    if b2 / 16 % 4 == 0 then 0xFFC0 + low else 0xD800 + (b1 % 8 * 4 + b2 / 16 % 4 - 1) * 64 + low
  }

  /** The second unit: the mark is 0xDC, not 0xDC00. */
  function SecondOfFour(b3: int, b4: int): unit
    requires 0 <= b3 < 256 && 0 <= b4 < 256
  {
    assert Division.Pow2(10) == 1024 by {
      assert Division.Pow2(5) == 32;
    }
    Division.Or(0xDC, b3 % 16 * 64 + b4 % 64, 10)
  }

  /** The characters at the head and the bytes they take. A sequence that is cut off by the end of
      the string takes in the zero there; None if the source reads on behind that zero. */
  function Head(s: seq<byte>): (head: Option<(seq<unit>, nat)>)
    requires s != []
    ensures head.Some? ==> 1 <= head.value.1 <= |s|
  {
    var b1, b2, b3, b4 := s[0], ByteOrZero(s, 1), ByteOrZero(s, 2), ByteOrZero(s, 3);
    match LeadOf(b1)
    case Plain => Some(([b1], 1))
    case Two => Some(([Join2(b1, b2)], if |s| < 2 then |s| else 2))
    case Three => if |s| < 2 then None else Some(([Join3(b1, b2, b3)], if |s| < 3 then |s| else 3))
    case Four =>
      if |s| < 3 then None
      else Some(([FirstOfFour(b1, b2, b3), SecondOfFour(b3, b4)], if |s| < 4 then |s| else 4))
    case Stray => Some(([], 1))
  }

  function Decode(s: seq<byte>): Option<seq<unit>>
    decreases |s|
  {
    if s == [] then Some([])
    else
      var head := Head(s);
      if head.None? then None else Behind(head.value.0, Decode(s[head.value.1..]))
  }

  /** utf8_to_wchar on a zero-terminated string. */
  method Utf8ToWchar(src: seq<byte>) returns (dst: seq<unit>, ok: bool)
    ensures ok <==> Decode(src).Some?
    ensures ok ==> Decode(src) == Some(dst)
  {
    hide Decode, Join2, Join3, FirstOfFour, SecondOfFour;
    dst, ok := [], true;
    var pc := 0;
    DecodeStart(src);
    while pc < |src|
      invariant ok && Decode(src) == Behind(dst, Decode(src[if pc < |src| then pc else |src|..]))
      decreases |src| - pc
    {
      DecodeOn(src, pc, dst);
      var b1 := src[pc];
      pc := pc + 1;
      if b1 < 0x80 {
        dst := dst + [b1];
      } else if 0xC0 <= b1 < 0xE0 {
        dst := dst + [Join2(b1, ByteOrZero(src, pc))];
        pc := pc + 1;
      } else if 0xE0 <= b1 < 0xF0 {
        if pc >= |src| {
          return dst, false;
        }
        dst := dst + [Join3(b1, src[pc], ByteOrZero(src, pc + 1))];
        pc := pc + 2;
      } else if 0xF0 <= b1 < 0xF8 {
        if pc + 1 >= |src| {
          return dst, false;
        }
        var b3 := src[pc + 1];
        dst := dst + [FirstOfFour(b1, src[pc], b3), SecondOfFour(b3, ByteOrZero(src, pc + 2))];
        pc := pc + 3;
      } else {
        NothingAdded(dst);
      }
    }
    DecodeEnd(src, dst);
  }

  lemma NothingAdded(dst: seq<unit>)
    ensures dst + [] == dst
  {
  }

  lemma DecodeStart(src: seq<byte>)
    ensures Decode(src) == Behind([], Decode(src[0..]))
  {
    assert src[0..] == src;
    if Decode(src).Some? {
      assert [] + Decode(src).value == Decode(src).value;
    }
  }

  lemma DecodeOn(src: seq<byte>, pc: nat, dst: seq<unit>)
    requires pc < |src|
    ensures var head := Head(src[pc..]);
            Behind(dst, Decode(src[pc..])) ==
            if head.None? then None else Behind(dst + head.value.0, Decode(src[pc + head.value.1..]))
  {
    hide Head;
    var head := Head(src[pc..]);
    if head.Some? {
      assert src[pc..][head.value.1..] == src[pc + head.value.1..];
      BehindTwice(dst, head.value.0, Decode(src[pc + head.value.1..]));
    }
  }

  lemma DecodeEnd(src: seq<byte>, dst: seq<unit>)
    ensures Behind(dst, Decode(src[|src|..])) == Some(dst)
  {
    NothingAdded(dst);
  }

  // ----- round trip ---------------------------------------------------------------------------

  lemma TwoBytesJoin(c: unit)
    requires c < 0x800
    ensures Join2(0xC0 + c / 64, 0x80 + c % 64) == c
  {
    var high := c / 64;
    assert high < 32 && c == high * 64 + c % 64;
  }

  lemma ThreeBytesJoin(c: unit)
    ensures Join3(0xE0 + c / 4096, 0x80 + c / 64 % 64, 0x80 + c % 64) == c
  {
    var high, middle, low := c / 4096, c / 64 % 64, c % 64;
    assert (0xE0 + high) % 16 == high;
    assert (0x80 + middle) % 64 == middle && (0x80 + low) % 64 == low;
  }

  lemma UnitReadsBack(c: unit, rest: seq<byte>)
    ensures Head(EncodeUnit(c) + rest) == Some(([c], |EncodeUnit(c)|))
  {
    if c < 0x800 {
      TwoBytesJoin(c);
    }
    ThreeBytesJoin(c);
    hide Join2, Join3;
  }

  lemma HeadDecodes(c: unit, rest: seq<byte>)
    ensures Decode(EncodeUnit(c) + rest) == Behind([c], Decode(rest))
  {
    UnitReadsBack(c, rest);
    hide EncodeUnit, Head;
    assert (EncodeUnit(c) + rest)[|EncodeUnit(c)|..] == rest;
  }

  /** Decoding the encoding gives the characters back, whatever they are. */
  lemma {:induction false} RoundTrip(ws: seq<unit>)
    ensures Decode(EncodeAll(ws)) == Some(ws)
  {
    if ws != [] {
      hide EncodeUnit;
      RoundTrip(ws[1..]);
      assert ws == [ws[0]] + ws[1..];
      HeadDecodes(ws[0], EncodeAll(ws[1..]));
    }
  }

  /** What the encoder writes for a zero-terminated text decodes to the text in front of its first
      zero, at one to three bytes a character. */
  lemma TextRoundTrip(wstr: seq<unit>)
    ensures Decode(EncodeAll(BeforeNul(wstr))) == Some(BeforeNul(wstr))
    ensures |BeforeNul(wstr)| <= |EncodeAll(BeforeNul(wstr))| <= 3 * |BeforeNul(wstr)|
  {
    RoundTrip(BeforeNul(wstr));
    SizeBounds(BeforeNul(wstr));
  }

  lemma {:induction false} SizeBounds(ws: seq<unit>)
    ensures |ws| <= |EncodeAll(ws)| <= 3 * |ws|
  {
    if ws != [] {
      SizeBounds(ws[1..]);
    }
  }

  /** The decoder finds its way back: when the lead byte of a character is lost, only that
      character is. */
  lemma LostLeadByte(before: seq<unit>, c: unit, after: seq<unit>)
    requires c >= 0x80
    ensures Decode(EncodeAll(before) + EncodeUnit(c)[1..] + EncodeAll(after)) == Some(before + after)
  {
    hide EncodeUnit, EncodeAll;
    var tail := EncodeUnit(c)[1..] + EncodeAll(after);
    assert EncodeAll(before) + EncodeUnit(c)[1..] + EncodeAll(after) == EncodeAll(before) + tail;
    StraysAreSkipped(c, EncodeAll(after));
    RoundTrip(after);
    PrefixDecodes(before, tail);
  }

  lemma StraysAreSkipped(c: unit, rest: seq<byte>)
    requires c >= 0x80
    ensures Decode(EncodeUnit(c)[1..] + rest) == Decode(rest)
  {
    hide EncodeUnit, Decode;
    BehindLead(c);
    SkipAll(EncodeUnit(c)[1..], rest);
  }

  predicate AllStray(s: seq<byte>) {
    forall k | 0 <= k < |s| :: 0x80 <= s[k] < 0xC0
  }

  lemma BehindLead(c: unit)
    requires c >= 0x80
    ensures AllStray(EncodeUnit(c)[1..])
  {
  }

  lemma {:induction false} SkipAll(s: seq<byte>, rest: seq<byte>)
    requires AllStray(s)
    ensures Decode(s + rest) == Decode(rest)
  {
    hide Decode;
    if s == [] {
      assert s + rest == rest;
    } else {
      assert s + rest == [s[0]] + (s[1..] + rest);
      SkipOne(s[0], s[1..] + rest);
      SkipAll(s[1..], rest);
    }
  }

  lemma SkipOne(b: byte, rest: seq<byte>)
    requires 0x80 <= b < 0xC0 || b >= 0xF8
    ensures Decode([b] + rest) == Decode(rest)
  {
    assert ([b] + rest)[1..] == rest;
    if Decode(rest).Some? {
      assert [] + Decode(rest).value == Decode(rest).value;
    }
  }

  lemma {:induction false} PrefixDecodes(ws: seq<unit>, rest: seq<byte>)
    ensures Decode(EncodeAll(ws) + rest) == Behind(ws, Decode(rest))
  {
    hide EncodeUnit, Decode;
    if ws == [] {
      assert [] + rest == rest;
      if Decode(rest).Some? {
        assert [] + Decode(rest).value == Decode(rest).value;
      }
    } else {
      PrefixDecodes(ws[1..], rest);
      assert EncodeAll(ws) + rest == EncodeUnit(ws[0]) + (EncodeAll(ws[1..]) + rest);
      HeadDecodes(ws[0], EncodeAll(ws[1..]) + rest);
      BehindTwice([ws[0]], ws[1..], Decode(rest));
      assert ws == [ws[0]] + ws[1..];
    }
  }

  // ----- four-byte sequences ----------------------------------------------------------------------

  /** The code point of a four-byte sequence, from U+10000 on. */
  function CodePoint(b1: byte, b2: byte, b3: byte, b4: byte): int {
    b1 % 8 * 0x4_0000 + b2 % 64 * 4096 + b3 % 64 * 64 + b4 % 64
  }

  /** A lead byte from F0 to F7 and the three bytes behind it give two units. */
  lemma FourBytesDecode(b1: byte, b2: byte, b3: byte, b4: byte, rest: seq<byte>)
    requires 0xF0 <= b1 < 0xF8
    ensures Decode([b1, b2, b3, b4] + rest) == Behind([FirstOfFour(b1, b2, b3), SecondOfFour(b3, b4)], Decode(rest))
  {
    hide FirstOfFour, SecondOfFour;
    assert ([b1, b2, b3, b4] + rest)[4..] == rest;
  }

  /** For example U+1F600: its units should be D83D and DE00. */
  lemma SmileyIsTorn()
    ensures Decode([0xF0, 0x9F, 0x98, 0x80]) == Some([0xD83D, 0x02DC])
  {
    hide Decode, SecondOfFour;
    FourBytesDecode(0xF0, 0x9F, 0x98, 0x80, []);
    SmileyTail();
    assert [0xF0, 0x9F, 0x98, 0x80] + [] == [0xF0, 0x9F, 0x98, 0x80];
    NothingDecoded();
    NothingAdded([0xD83D, 0x02DC]);
  }

  lemma NothingDecoded()
    ensures Decode([]) == Some([])
  {
  }

  lemma SmileyTail()
    ensures SecondOfFour(0x98, 0x80) == 0x02DC
  {
    hide Division.Or;
    OrStep(0xDC, 0x200, 10);
    OrStep(0x6E, 0x100, 9);
    OrStep(0x37, 0x80, 8);
    OrStep(0x1B, 0x40, 7);
    SmileyMiddle();
  }

  lemma SmileyMiddle()
    ensures Division.Or(0x0D, 0x20, 6) == 0x2D
  {
    hide Division.Or;
    OrStep(0x0D, 0x20, 6);
    OrStep(0x06, 0x10, 5);
    OrStep(0x03, 0x08, 4);
    OrStep(0x01, 0x04, 3);
    OrStep(0, 2, 2);
    OrStep(0, 1, 1);
    OrEnds();
  }

  lemma OrStep(a: nat, b: nat, n: nat)
    requires n > 0
    ensures Division.Or(a, b, n) == (if a % 2 == 1 || b % 2 == 1 then 1 else 0) + 2 * Division.Or(a / 2, b / 2, n - 1)
  {
  }

  lemma OrEnds()
    ensures Division.Or(0, 0, 0) == 0
  {
  }

  /** A sequence of two bytes that is cut short takes in the terminating zero; longer ones do if one
      byte is missing, and are read behind the zero if more are. */
  lemma CutShort(b1: byte, b2: byte, b3: byte)
    ensures 0xC0 <= b1 < 0xE0 ==> Decode([b1]) == Some([Join2(b1, 0)])
    ensures 0xE0 <= b1 < 0xF0 ==> Decode([b1]) == None && Decode([b1, b2]) == Some([Join3(b1, b2, 0)])
    ensures 0xF0 <= b1 < 0xF8 ==>
              && Decode([b1]) == None && Decode([b1, b2]) == None
              && Decode([b1, b2, b3]) == Some([FirstOfFour(b1, b2, b3), SecondOfFour(b3, 0)])
  {
    hide Join2, Join3, FirstOfFour, SecondOfFour, Decode;
    DecodeWhole([b1]);
    DecodeWhole([b1, b2]);
    DecodeWhole([b1, b2, b3]);
  }

  lemma DecodeWhole(s: seq<byte>)
    requires s != []
    ensures Head(s) == None ==> Decode(s) == None
    ensures Head(s).Some? && Head(s).value.1 == |s| ==> Decode(s) == Some(Head(s).value.0)
  {
    hide Head;
    NothingDecoded();
    if Head(s).Some? && Head(s).value.1 == |s| {
      assert s[|s|..] == [];
      NothingAdded(Head(s).value.0);
    }
  }

  /** The first unit is the right high surrogate exactly when bits 4 and 5 of the second byte are
      not both zero; the second is never a low surrogate. */
  lemma FourBytesExactly(b1: byte, b2: byte, b3: byte, b4: byte)
    requires CodePoint(b1, b2, b3, b4) >= 0x1_0000
    ensures FirstOfFour(b1, b2, b3) == 0xD800 + (CodePoint(b1, b2, b3, b4) - 0x1_0000) / 1024 <==> b2 / 16 % 4 != 0
    ensures SecondOfFour(b3, b4) < 0x400
  {
    var c, x, low := CodePoint(b1, b2, b3, b4), b2 / 16 % 4, b2 % 16 * 4 + b3 / 16 % 4;
    SixBits(b2);
    SixBits(b3);
    Regrouped(b1 % 8, x, b2 % 16, b3 / 16 % 4, b3 % 16, b4 % 64);
    TakeAway(c, b1 % 8 * 4 + x, low, b3 % 16 * 64 + b4 % 64);
    SecondIsShort(b3, b4);
    hide CodePoint, SecondOfFour;
  }

  lemma SixBits(b: byte)
    ensures b % 64 == b / 16 % 4 * 16 + b % 16
  {
  }

  lemma Regrouped(q: int, x: int, l2: int, h3: int, l3: int, b4: int)
    ensures q * 0x4_0000 + (x * 16 + l2) * 4096 + (h3 * 16 + l3) * 64 + b4
         == ((q * 4 + x) * 64 + (l2 * 4 + h3)) * 1024 + (l3 * 64 + b4)
  {
  }

  lemma TakeAway(c: int, top: int, low: int, tail: int)
    requires c == (top * 64 + low) * 1024 + tail && 0 <= tail < 1024
    ensures (c - 0x1_0000) / 1024 == (top - 1) * 64 + low
  {
    assert c - 0x1_0000 == ((top - 1) * 64 + low) * 1024 + tail;
  }

  lemma SecondIsShort(b3: byte, b4: byte)
    ensures SecondOfFour(b3, b4) < 0x400
  {
    assert Division.Pow2(10) == 1024 by {
      assert Division.Pow2(5) == 32;
    }
  }
}
