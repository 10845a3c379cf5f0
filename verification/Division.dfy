/** Reflected polynomial division over GF(2), one message bit at a time: the reference that both
    checksums of the repository are compared with. A machine word is the sequence of its bits,
    least significant first. */
module Division {
  import opened Bytes

  type Word = seq<bool>

  function Zero(width: nat): (w: Word)
    ensures |w| == width
  {
    seq(width, _ => false)
  }

  function Xor(a: Word, b: Word): (c: Word)
    requires |a| == |b|
    ensures |c| == |a|
  {
    seq(|a|, i requires 0 <= i < |a| => a[i] != b[i])
  }

  /** c >> count */
  function Shr(c: Word, count: nat): (d: Word)
    requires count <= |c|
    ensures |d| == |c|
  {
    c[count..] + Zero(count)
  }

  function Padded(bits: seq<bool>, width: nat): (w: Word)
    requires |bits| <= width
    ensures |w| == width
  {
    bits + Zero(width - |bits|)
  }

  /** One turn of the division register: c & 1 ? (c >> 1) ^ poly : c >> 1 */
  function Divide(c: Word, poly: Word): (d: Word)
    requires |c| == |poly| > 0
    ensures |d| == |poly|
  {
    if c[0] then Xor(Shr(c, 1), poly) else Shr(c, 1)
  }

  function DivideBy(c: Word, poly: Word, count: nat): (d: Word)
    requires |c| == |poly| > 0
    ensures |d| == |poly|
  {
    if count == 0 then c else Divide(DivideBy(c, poly, count - 1), poly)
  }

  /** The register after one more message bit. */
  function Step(c: Word, bit: bool, poly: Word): (d: Word)
    requires |c| == |poly| > 0
    ensures |d| == |poly|
  {
    Divide(c[0 := c[0] != bit], poly)
  }

  /** The register after a whole message. */
  function Serial(c: Word, bits: seq<bool>, poly: Word): (d: Word)
    requires |c| == |poly| > 0
    ensures |d| == |poly|
    decreases |bits|
  {
    if bits == [] then c else Serial(Step(c, bits[0], poly), bits[1..], poly)
  }

  lemma {:induction false} SerialConcat(c: Word, a: seq<bool>, b: seq<bool>, poly: Word)
    requires |c| == |poly| > 0
    ensures Serial(c, a + b, poly) == Serial(Serial(c, a, poly), b, poly)
    decreases |a|
  {
    if a == [] {
      assert a + b == b;
    } else {
      assert (a + b)[1..] == a[1..] + b;
      SerialConcat(Step(c, a[0], poly), a[1..], b, poly);
    }
  }

  lemma SerialSnoc(c: Word, a: seq<bool>, bit: bool, poly: Word)
    requires |c| == |poly| > 0
    ensures Serial(c, a + [bit], poly) == Step(Serial(c, a, poly), bit, poly)
  {
    SerialConcat(c, a, [bit], poly);
    var d := Serial(c, a, poly);
    assert Serial(d, [bit], poly) == Serial(Step(d, bit, poly), [], poly);
  }

  // ----- several bits at once -----------------------------------------------

  /** A turn of the register mixed with w consumes w's lowest bit and keeps the others mixed in. */
  lemma MixedTurn(c: Word, w: Word, poly: Word)
    requires |c| == |w| == |poly| > 0
    ensures Divide(Xor(c, w), poly) == Xor(Step(c, w[0], poly), Shr(w, 1))
  {
    var x, y := Divide(Xor(c, w), poly), Xor(Step(c, w[0], poly), Shr(w, 1));
    forall i | 0 <= i < |poly|
      ensures x[i] == y[i]
    {
    }
  }

  lemma {:induction false} MixedTurns(c: Word, w: Word, poly: Word, count: nat)
    requires |c| == |w| == |poly| > 0 && count <= |w|
    ensures DivideBy(Xor(c, w), poly, count) == Xor(Serial(c, w[..count], poly), Shr(w, count))
  {
    if count == 0 {
      assert Shr(w, 0) == w;
    } else {
      var n := count - 1;
      MixedTurns(c, w, poly, n);
      MixedTurn(Serial(c, w[..n], poly), Shr(w, n), poly);
      assert Shr(Shr(w, n), 1) == Shr(w, count);
      assert w[..count] == w[..n] + [w[n]];
      SerialSnoc(c, w[..n], w[n], poly);
    }
  }

  /** Mixing some bits in and turning the register once for each is feeding them one by one. */
  lemma MixThenTurn(c: Word, bits: seq<bool>, poly: Word)
    requires |c| == |poly| > 0 && |bits| <= |poly|
    ensures DivideBy(Xor(c, Padded(bits, |poly|)), poly, |bits|) == Serial(c, bits, poly)
  {
    var w := Padded(bits, |poly|);
    MixedTurns(c, w, poly, |bits|);
    assert w[..|bits|] == bits;
    assert Xor(Serial(c, bits, poly), Shr(w, |bits|)) == Serial(c, bits, poly);
  }

  lemma {:induction false} SerialOfZeros(c: Word, poly: Word, count: nat)
    requires |c| == |poly| > 0
    ensures Serial(c, Zero(count), poly) == DivideBy(c, poly, count)
  {
    if count > 0 {
      SerialOfZeros(c, poly, count - 1);
      assert Zero(count) == Zero(count - 1) + [false];
      SerialSnoc(c, Zero(count - 1), false, poly);
      var d := DivideBy(c, poly, count - 1);
      assert d[0 := d[0]] == d;
    }
  }

  /** What `count` turns do is decided by the low `count` bits; the rest just moves down. */
  lemma TurnsSplit(c: Word, poly: Word, count: nat)
    requires |c| == |poly| > 0 && count <= |c|
    ensures DivideBy(c, poly, count) == Xor(DivideBy(Padded(c[..count], |c|), poly, count), Shr(c, count))
  {
    var low := Padded(c[..count], |c|);
    var high := Zero(count) + c[count..];
    assert c == Xor(low, high);
    MixedTurns(low, high, poly, count);
    assert high[..count] == Zero(count);
    SerialOfZeros(low, poly, count);
    assert Shr(high, count) == Shr(c, count);
  }

  // ----- which errors are certain to be detected ----------------------------

  lemma DivideInjective(c: Word, d: Word, poly: Word)
    requires |c| == |d| == |poly| > 0 && poly[|poly| - 1]
    requires Divide(c, poly) == Divide(d, poly)
    ensures c == d
  {
    var n := |poly| - 1;
    assert Divide(c, poly)[n] == c[0] && Divide(d, poly)[n] == d[0];
    forall i | 0 < i <= n
      ensures c[i] == d[i]
    {
      assert Divide(c, poly)[i - 1] == (c[i] != (c[0] && poly[i - 1]));
      assert Divide(d, poly)[i - 1] == (d[i] != (d[0] && poly[i - 1]));
    }
  }

  lemma {:induction false} DifferencePersists(c: Word, d: Word, bits: seq<bool>, poly: Word)
    requires |c| == |d| == |poly| > 0 && poly[|poly| - 1] && c != d
    ensures Serial(c, bits, poly) != Serial(d, bits, poly)
    decreases |bits|
  {
    if bits != [] {
      var c', d' := c[0 := c[0] != bits[0]], d[0 := d[0] != bits[0]];
      if Divide(c', poly) == Divide(d', poly) {
        DivideInjective(c', d', poly);
        assert false;
      }
      DifferencePersists(Step(c, bits[0], poly), Step(d, bits[0], poly), bits[1..], poly);
    }
  }

  ghost predicate DifferAtOrAbove(c: Word, d: Word, level: nat) {
    |c| == |d| && exists k :: level <= k < |c| && c[k] != d[k]
  }

  /** A difference moves down by at most one place each turn, whatever bits come in. */
  lemma DifferenceSinksSlowly(c: Word, d: Word, level: nat, x: bool, y: bool, poly: Word)
    requires |c| == |d| == |poly| > 0 && poly[|poly| - 1]
    requires level > 0 && DifferAtOrAbove(c, d, level)
    ensures DifferAtOrAbove(Step(c, x, poly), Step(d, y, poly), level - 1)
  {
    var k :| level <= k < |c| && c[k] != d[k];
    var c', d' := Step(c, x, poly), Step(d, y, poly);
    if (c[0] != x) == (d[0] != y) {
      assert c'[k - 1] != d'[k - 1];
    } else {
      assert c'[|c| - 1] != d'[|c| - 1];
    }
  }

  lemma {:induction false} WindowKeepsDifference(c: Word, d: Word, level: nat, a: seq<bool>, b: seq<bool>, poly: Word)
    requires |c| == |d| == |poly| > 0 && poly[|poly| - 1]
    requires |a| == |b| <= level && DifferAtOrAbove(c, d, level)
    ensures Serial(c, a, poly) != Serial(d, b, poly)
    decreases |a|
  {
    if a != [] {
      DifferenceSinksSlowly(c, d, level, a[0], b[0], poly);
      WindowKeepsDifference(Step(c, a[0], poly), Step(d, b[0], poly), level - 1, a[1..], b[1..], poly);
    }
  }

  ghost predicate AgreeOutside(a: seq<bool>, b: seq<bool>, at: nat, width: nat) {
    |a| == |b| && forall t | 0 <= t < |a| && !(at <= t < at + width) :: a[t] == b[t]
  }

  lemma FirstDifferenceIsHigh(c: Word, x: bool, poly: Word)
    requires |c| == |poly| > 0 && poly[|poly| - 1]
    ensures DifferAtOrAbove(Step(c, x, poly), Step(c, !x, poly), |poly| - 1)
  {
    var n := |poly| - 1;
    assert Step(c, x, poly)[n] != Step(c, !x, poly)[n];
  }

  lemma WindowThenSameTail(c: Word, d: Word, a: seq<bool>, b: seq<bool>, rest: seq<bool>, poly: Word)
    requires |c| == |d| == |poly| > 0 && poly[|poly| - 1]
    requires |a| == |b| < |poly| && DifferAtOrAbove(c, d, |poly| - 1)
    ensures Serial(c, a + rest, poly) != Serial(d, b + rest, poly)
  {
    WindowKeepsDifference(c, d, |poly| - 1, a, b, poly);
    DifferencePersists(Serial(c, a, poly), Serial(d, b, poly), rest, poly);
    SerialConcat(c, a, rest, poly);
    SerialConcat(d, b, rest, poly);
  }

  lemma BurstAtTheHead(c: Word, a: seq<bool>, b: seq<bool>, poly: Word)
    requires |c| == |poly| > 0 && poly[|poly| - 1]
    requires |a| == |b| > 0 && a[0] != b[0] && AgreeOutside(a, b, 0, |poly|)
    ensures Serial(c, a, poly) != Serial(c, b, poly)
  {
    hide Step, Serial, AgreeOutside, DifferAtOrAbove;
    FirstDifferenceIsHigh(c, a[0], poly);
    var e := if |a| < |poly| then |a| else |poly|;
    SameTail(a, b, |poly|, e);
    WindowThenSameTail(Step(c, a[0], poly), Step(c, b[0], poly), a[1..e], b[1..e], a[e..], poly);
    SerialFirst(c, a, poly);
    SerialFirst(c, b, poly);
  }

  lemma SameTail(a: seq<bool>, b: seq<bool>, width: nat, e: nat)
    requires AgreeOutside(a, b, 0, width) && 1 <= e <= |a| && (e == |a| || e == width)
    ensures |a| == |b| && a[1..] == a[1..e] + a[e..] && b[1..] == b[1..e] + a[e..]
  {
    assert a[e..] == b[e..];
  }

  lemma SerialFirst(c: Word, a: seq<bool>, poly: Word)
    requires |c| == |poly| > 0 && a != []
    ensures Serial(c, a, poly) == Serial(Step(c, a[0], poly), a[1..], poly)
  {
  }

  /** Two messages that differ within as many consecutive bits as the register is wide leave
      different remainders. */
  lemma {:induction false} SerialDetectsBurst(c: Word, a: seq<bool>, b: seq<bool>, at: nat, poly: Word)
    requires |c| == |poly| > 0 && poly[|poly| - 1]
    requires AgreeOutside(a, b, at, |poly|) && a != b
    ensures Serial(c, a, poly) != Serial(c, b, poly)
    decreases |a|
  {
    if a[0] == b[0] {
      var next := if at > 0 then at - 1 else 0;
      assert AgreeOutside(a[1..], b[1..], next, |poly|) by {
        forall t | 0 <= t < |a| - 1 && !(next <= t < next + |poly|)
          ensures a[1..][t] == b[1..][t]
        {
          assert a[t + 1] == b[t + 1];
        }
      }
      assert a == [a[0]] + a[1..] && b == [b[0]] + b[1..];
      SerialDetectsBurst(Step(c, a[0], poly), a[1..], b[1..], next, poly);
    } else {
      assert at == 0;
      BurstAtTheHead(c, a, b, poly);
    }
  }

  // ----- bytes and words ----------------------------------------------------

  function Pow2(count: nat): nat {
    if count == 0 then 1 else 2 * Pow2(count - 1)
  }

  /** The or of the n low bits. */
  function Or(a: nat, b: nat, n: nat): (c: nat)
    ensures c < Pow2(n)
  {
    if n == 0 then 0 else (if a % 2 == 1 || b % 2 == 1 then 1 else 0) + 2 * Or(a / 2, b / 2, n - 1)
  }

  function LowBits(b: nat, count: nat): (bits: seq<bool>)
    ensures |bits| == count
  {
    if count == 0 then [] else [b % 2 == 1] + LowBits(b / 2, count - 1)
  }

  /** The unsigned number with these bits. */
  function Number(bits: seq<bool>): (n: nat)
    ensures n < Pow2(|bits|)
  {
    if bits == [] then 0 else (if bits[0] then 1 else 0) + 2 * Number(bits[1..])
  }

  lemma {:induction false} NumberOfLowBits(b: nat, count: nat)
    requires b < Pow2(count)
    ensures Number(LowBits(b, count)) == b
  {
    if count > 0 {
      NumberOfLowBits(b / 2, count - 1);
      assert LowBits(b, count)[1..] == LowBits(b / 2, count - 1);
    }
  }

  lemma {:induction false} LowBitsOfNumber(bits: seq<bool>)
    ensures LowBits(Number(bits), |bits|) == bits
  {
    if bits != [] {
      LowBitsOfNumber(bits[1..]);
    }
  }

  /** The bits of a byte, least significant first. */
  function BitsOf(b: byte): (bits: seq<bool>)
    ensures |bits| == 8
  {
    LowBits(b, 8)
  }

  lemma NextBit(b: nat, more: nat)
    ensures LowBits(b, more + 1) == [b % 2 == 1] + LowBits(b / 2, more)
  {
  }

  lemma FourBits(b: nat, more: nat)
    ensures LowBits(b, more + 4) ==
            [b % 2 == 1, b / 2 % 2 == 1, b / 4 % 2 == 1, b / 8 % 2 == 1] + LowBits(b / 16, more)
  {
    hide LowBits;
    NextBit(b, more + 3);
    NextBit(b / 2, more + 2);
    NextBit(b / 4, more + 1);
    NextBit(b / 8, more);
    Quarters(b);
  }

  lemma Quarters(b: nat)
    ensures b / 2 / 2 == b / 4 && b / 4 / 2 == b / 8 && b / 8 / 2 == b / 16
    ensures b / 16 / 2 == b / 32 && b / 16 / 4 == b / 64 && b / 16 / 8 == b / 128
  {
  }

  lemma Half(b: nat)
    ensures b == b % 2 + 2 * (b / 2)
  {
  }

  lemma HalfIs(v: nat, bit: nat, half: nat)
    requires v == bit + 2 * half && bit < 2
    ensures v / 2 == half && v % 2 == bit
  {
  }

  /** The bits of a byte as quotients. */
  lemma BitsAre(b: byte)
    ensures BitsOf(b) == [b % 2 == 1, b / 2 % 2 == 1, b / 4 % 2 == 1, b / 8 % 2 == 1,
                          b / 16 % 2 == 1, b / 32 % 2 == 1, b / 64 % 2 == 1, b / 128 % 2 == 1]
  {
    FourBits(b, 4);
    FourBits(b / 16, 0);
    assert LowBits(b / 16 / 16, 0) == [];
    hide LowBits;
    Quarters(b);
  }

  function ByteOf(bits: seq<bool>): (b: byte)
    requires |bits| == 8
    ensures BitsOf(b) == bits
  {
    assert Pow2(8) == 256;
    LowBitsOfNumber(bits);
    Number(bits)
  }

  lemma BitsOfInjective(x: byte, y: byte)
    requires BitsOf(x) == BitsOf(y)
    ensures x == y
  {
    assert Pow2(8) == 256;
    NumberOfLowBits(x, 8);
    NumberOfLowBits(y, 8);
  }

  /** A message as it is clocked in: every byte least significant bit first. */
  function Bits(data: seq<byte>): (bits: seq<bool>)
    ensures |bits| == 8 * |data|
  {
    if data == [] then [] else Bits(data[..|data| - 1]) + BitsOf(data[|data| - 1])
  }

  lemma {:induction false} BitsConcat(a: seq<byte>, b: seq<byte>)
    ensures Bits(a + b) == Bits(a) + Bits(b)
  {
    if b == [] {
      assert a + b == a;
    } else {
      var n := |b| - 1;
      assert (a + b)[..|a + b| - 1] == a + b[..n] && (a + b)[|a + b| - 1] == b[n];
      BitsConcat(a, b[..n]);
    }
  }

  lemma {:induction false} BitsInjective(a: seq<byte>, b: seq<byte>)
    requires Bits(a) == Bits(b)
    ensures a == b
  {
    assert 8 * |a| == |Bits(a)| == |Bits(b)| == 8 * |b|;
    if a != [] {
      var n := |a| - 1;
      assert Bits(a)[..8 * n] == Bits(a[..n]) && Bits(a)[8 * n..] == BitsOf(a[n]);
      assert Bits(b)[..8 * n] == Bits(b[..n]) && Bits(b)[8 * n..] == BitsOf(b[n]);
      BitsInjective(a[..n], b[..n]);
      BitsOfInjective(a[n], b[n]);
      assert a == a[..n] + [a[n]] && b == b[..n] + [b[n]];
    }
  }

  lemma AgreeAround(p: seq<bool>, x: seq<bool>, y: seq<bool>, s: seq<bool>, width: nat)
    requires |x| == |y| <= width
    ensures AgreeOutside(p + (x + s), p + (y + s), |p|, width)
  {
  }

  lemma MiddleBytesAreABurst(p: seq<byte>, x: seq<byte>, y: seq<byte>, s: seq<byte>, count: nat)
    requires |x| == |y| <= count
    ensures AgreeOutside(Bits(p + (x + s)), Bits(p + (y + s)), 8 * |p|, 8 * count)
  {
    BitsConcat(p, x + s);
    BitsConcat(x, s);
    BitsConcat(p, y + s);
    BitsConcat(y, s);
    AgreeAround(Bits(p), Bits(x), Bits(y), Bits(s), 8 * count);
  }

  lemma SplitInThree(a: seq<byte>, from: nat, to: nat)
    requires from <= to <= |a|
    ensures a == a[..from] + (a[from..to] + a[to..])
  {
  }

  /** `count` adjacent bytes are 8 * count adjacent message bits. */
  lemma AdjacentBytesAreABurst(a: seq<byte>, b: seq<byte>, at: nat, count: nat)
    requires |a| == |b| && forall t | 0 <= t < |a| && !(at <= t < at + count) :: a[t] == b[t]
    ensures AgreeOutside(Bits(a), Bits(b), 8 * at, 8 * count)
  {
    if at >= |a| {
      assert a == b;
    } else {
      var hi := if at + count < |a| then at + count else |a|;
      var p, s := a[..at], a[hi..];
      assert p == b[..at] && s == b[hi..];
      SplitInThree(a, at, hi);
      SplitInThree(b, at, hi);
      MiddleBytesAreABurst(p, a[at..hi], b[at..hi], s, count);
    }
  }
}
