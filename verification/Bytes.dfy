/** Byte strings, big-endian fields and the search for a run of zero bytes. */
module Bytes {

  type byte = x: int | 0 <= x < 256

  datatype Option<+T> = None | Some(value: T)

  /** Concatenation of the pieces in order. */
  function Flatten(pieces: seq<seq<byte>>): seq<byte> {
    if pieces == [] then [] else pieces[0] + Flatten(pieces[1..])
  }

  lemma {:induction false} FlattenSnoc(pieces: seq<seq<byte>>, last: seq<byte>)
    ensures Flatten(pieces + [last]) == Flatten(pieces) + last
  {
    if pieces == [] {
      assert pieces + [last] == [last];
      assert Flatten([last]) == last + Flatten([]);
    } else {
      FlattenSnoc(pieces[1..], last);
      assert (pieces + [last])[1..] == pieces[1..] + [last];
    }
  }

  /** The byte at k; what lies behind the data counts as zero. */
  function ByteOrZero(s: seq<byte>, k: nat): byte {
    if k < |s| then s[k] else 0
  }

  lemma Regroup<T>(a: seq<T>, b: seq<T>, c: seq<T>)
    ensures a + b + c == a + (b + c)
  {
  }

  lemma SliceOfSlice(s: seq<byte>, at: nat, size: nat, from: nat, to: nat)
    requires at + size <= |s| && from <= to <= size
    ensures s[at..at + size][from..to] == s[at + from..at + to]
  {
    var t := s[at..at + size];
    forall k | 0 <= k < to - from
      ensures t[from..to][k] == s[at + from..at + to][k]
    {
      assert t[from + k] == s[at + (from + k)];
    }
  }

  /** s occurs in data at the given place. */
  predicate At(data: seq<byte>, i: nat, s: seq<byte>) {
    i + |s| <= |data| && data[i..i + |s|] == s
  }

  lemma AtConcat(data: seq<byte>, i: nat, a: seq<byte>, b: seq<byte>)
    requires At(data, i, a + b)
    ensures At(data, i, a) && At(data, i + |a|, b)
  {
    var whole := data[i..i + |a + b|];
    assert whole[..|a|] == a && whole[|a|..] == b;
    assert data[i..i + |a|] == whole[..|a|];
    assert data[i + |a|..i + |a| + |b|] == whole[|a|..];
  }

  // ----- big-endian fields ------------------------------------------------

  function Pow256(width: nat): nat {
    if width == 0 then 1 else 256 * Pow256(width - 1)
  }

  /** The unsigned number whose big-endian bytes are s (ntohs, ntohl). */
  function FromBE(s: seq<byte>): nat {
    if s == [] then 0 else 256 * FromBE(s[..|s| - 1]) + s[|s| - 1]
  }

  /** The low `width` bytes of n, most significant first. */
  function ToBE(n: nat, width: nat): (s: seq<byte>)
    ensures |s| == width
  {
    if width == 0 then [] else ToBE(n / 256, width - 1) + [n % 256]
  }

  /** The most significant byte comes first. */
  lemma BigEndian(a: byte, b: byte, c: byte, d: byte)
    ensures FromBE([a, b]) == 256 * a + b
    ensures FromBE([a, b, c, d]) == 0x100_0000 * a + 0x1_0000 * b + 256 * c + d
  {
    assert [a, b, c, d][..3] == [a, b, c] && [a, b, c][..2] == [a, b] && [a, b][..1] == [a] && [a][..0] == [];
    assert FromBE([a]) == a;
    assert FromBE([a, b, c]) == 256 * FromBE([a, b]) + c;
  }

  lemma {:induction false} FromBEBound(s: seq<byte>)
    ensures FromBE(s) < Pow256(|s|)
  {
    if s != [] {
      FromBEBound(s[..|s| - 1]);
    }
  }

  lemma {:induction false} ToThenFromBE(n: nat, width: nat)
    requires n < Pow256(width)
    ensures FromBE(ToBE(n, width)) == n
  {
    if width > 0 {
      ToThenFromBE(n / 256, width - 1);
      assert ToBE(n, width)[..width - 1] == ToBE(n / 256, width - 1);
    }
  }

  lemma {:induction false} FromThenToBE(s: seq<byte>)
    ensures ToBE(FromBE(s), |s|) == s
  {
    if s != [] {
      FromThenToBE(s[..|s| - 1]);
      var last := s[|s| - 1];
      assert FromBE(s) / 256 == FromBE(s[..|s| - 1]) && FromBE(s) % 256 == last;
    }
  }

  /** An unsigned field reinterpreted as two's complement of the given modulus. */
  function Signed(v: nat, modulus: nat): int {
    if 2 * v < modulus then v else v - modulus
  }

  // ----- search for zero bytes --------------------------------------------

  predicate ZerosAt(b: seq<byte>, count: nat, at: nat) {
    at + count <= |b| && forall t | at <= t < at + count :: b[t] == 0
  }

  /** Where `count` zero bytes first occur, or the length of b when they do not
      (std::search with an all-zero pattern). */
  function FindZeros(b: seq<byte>, count: nat): (at: nat)
    requires count > 0
    ensures at <= |b|
    ensures at < |b| ==> ZerosAt(b, count, at)
    ensures forall t: nat | t < at :: !ZerosAt(b, count, t)
  {
    FindZerosFrom(b, count, 0)
  }

  function FindZerosFrom(b: seq<byte>, count: nat, from: nat): (at: nat)
    requires count > 0 && from <= |b|
    requires forall t: nat | t < from :: !ZerosAt(b, count, t)
    ensures from <= at <= |b|
    ensures at < |b| ==> ZerosAt(b, count, at)
    ensures forall t: nat | t < at :: !ZerosAt(b, count, t)
    decreases |b| - from
  {
    if from + count > |b| then |b|
    else if ZerosAt(b, count, from) then from
    else FindZerosFrom(b, count, from + 1)
  }

  /** A run of zeros that was found stays the first one when more bytes arrive. */
  lemma FindZerosStable(b: seq<byte>, more: seq<byte>, count: nat)
    requires count > 0 && FindZeros(b, count) < |b|
    ensures FindZeros(b + more, count) == FindZeros(b, count)
  {
    var at := FindZeros(b, count);
    var c := b + more;
    assert ZerosAt(c, count, at);
    forall t: nat | t < at
      ensures !ZerosAt(c, count, t)
    {
      assert !ZerosAt(b, count, t);
      var k :| t <= k < t + count && b[k] != 0;
      assert c[k] == b[k];
    }
  }
}
