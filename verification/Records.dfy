/** Reading fields and lists of elements out of a frame at a cursor. */
module Records {
  import opened Bytes
  import opened ElementStore

  datatype FixError = GpsFix | NoFix

  /** An unsigned big-endian field. */
  function Field(ud: seq<byte>, i: nat, width: nat): nat
    requires i + width <= |ud|
  {
    FromBE(ud[i..i + width])
  }

  lemma FieldAt(ud: seq<byte>, i: nat, width: nat, value: nat)
    requires At(ud, i, ToBE(value, width)) && value < Pow256(width)
    ensures Field(ud, i, width) == value
  {
    ToThenFromBE(value, width);
  }

  predicate InRange(v: int, modulus: nat) {
    -(modulus as int) <= 2 * v < modulus
  }

  /** The two's complement bit pattern of v. */
  function Pattern(v: int, modulus: nat): (p: nat)
    requires InRange(v, modulus)
    ensures p < modulus && Signed(p, modulus) == v
  {
    if v < 0 then v + modulus else v
  }

  // ----- lists of elements --------------------------------------------------------

  /** The bytes that `count` elements of the given width take up. */
  function Span(count: nat, width: nat): nat {
    if count == 0 then 0 else width + 1 + Span(count - 1, width)
  }

  lemma {:induction false} SpanIsProduct(count: nat, width: nat)
    ensures Span(count, width) == count * (width + 1)
  {
    if count > 0 {
      SpanIsProduct(count - 1, width);
    }
  }

  /** Where a counted list that begins at i ends, by its count byte alone. */
  function ListEnd(ud: seq<byte>, i: nat, width: nat): (end: nat)
    ensures end > i
  {
    var count: nat := ByteOrZero(ud, i);
    i + 1 + count * (width + 1)
  }

  /** `count` elements, each an id followed by `width` bytes. */
  function ElementsAt(ud: seq<byte>, i: nat, count: nat, width: nat): (es: seq<Element>)
    requires i + Span(count, width) <= |ud|
    ensures |es| == count && forall e | e in es :: |e.data| == width
    decreases count
  {
    if count == 0 then []
    else
      [Element(ud[i], ud[i + 1..i + 1 + width])] + ElementsAt(ud, i + 1 + width, count - 1, width)
  }

  function Serialised(es: seq<Element>): seq<byte> {
    if es == [] then [] else [es[0].id] + es[0].data + Serialised(es[1..])
  }

  lemma {:induction false} ElementsReadBack(ud: seq<byte>, i: nat, es: seq<Element>, width: nat)
    requires forall e | e in es :: |e.data| == width
    requires At(ud, i, Serialised(es))
    ensures |Serialised(es)| == Span(|es|, width)
    ensures ElementsAt(ud, i, |es|, width) == es
    decreases |es|
  {
    hide At, Serialised;
    if es == [] {
      NothingSerialised();
    } else {
      FirstElement(ud, i, es);
      ElementsReadBack(ud, i + 1 + width, es[1..], width);
    }
  }

  lemma NothingSerialised()
    ensures Serialised([]) == []
  {
  }

  lemma FirstElement(ud: seq<byte>, i: nat, es: seq<Element>)
    requires es != [] && At(ud, i, Serialised(es))
    ensures var n := |es[0].data|;
            && |Serialised(es)| == 1 + n + |Serialised(es[1..])|
            && At(ud, i + 1 + n, Serialised(es[1..]))
            && i + 1 + n <= |ud| && ud[i] == es[0].id && ud[i + 1..i + 1 + n] == es[0].data
  {
    hide Serialised, At;
    FirstSerialised(es);
    PartsAt(ud, i, es[0].id, es[0].data, Serialised(es[1..]));
  }

  lemma FirstSerialised(es: seq<Element>)
    requires es != []
    ensures Serialised(es) == [es[0].id] + es[0].data + Serialised(es[1..])
  {
  }

  lemma PartsAt(ud: seq<byte>, i: nat, id: byte, data: seq<byte>, rest: seq<byte>)
    requires At(ud, i, [id] + data + rest)
    ensures At(ud, i + 1 + |data|, rest)
    ensures i + 1 + |data| <= |ud| && ud[i] == id && ud[i + 1..i + 1 + |data|] == data
  {
    hide At;
    AtConcat(ud, i, [id] + data, rest);
    ByteAt(ud, i, id, data);
    AtIs(ud, i + 1, data);
  }

  lemma AtIs(ud: seq<byte>, i: nat, s: seq<byte>)
    requires At(ud, i, s)
    ensures i + |s| <= |ud| && ud[i..i + |s|] == s
  {
  }

  lemma {:induction false} ElementsOfPrefix(ud: seq<byte>, k: nat, i: nat, count: nat, width: nat)
    requires k <= |ud| && i + Span(count, width) <= k
    ensures ElementsAt(ud[..k], i, count, width) == ElementsAt(ud, i, count, width)
    decreases count
  {
    if count > 0 {
      assert ud[..k][i + 1..i + 1 + width] == ud[i + 1..i + 1 + width];
      ElementsOfPrefix(ud, k, i + 1 + width, count - 1, width);
    }
  }

  ghost predicate LegalList(es: seq<Element>, width: nat) {
    |es| < 256 && forall e | e in es :: |e.data| == width
  }

  function Counted(es: seq<Element>): (s: seq<byte>)
    requires |es| < 256
    ensures |s| >= 1
  {
    [|es|] + Serialised(es)
  }

  lemma ByteAt(ud: seq<byte>, i: nat, b: byte, rest: seq<byte>)
    requires At(ud, i, [b] + rest)
    ensures ud[i] == b && At(ud, i + 1, rest)
  {
    AtConcat(ud, i, [b], rest);
    assert ud[i] == ud[i..i + 1][0];
  }

  lemma NumberAt(ud: seq<byte>, i: nat, value: nat, width: nat, rest: seq<byte>)
    requires value < Pow256(width) && At(ud, i, ToBE(value, width) + rest)
    ensures Field(ud, i, width) == value && At(ud, i + width, rest)
  {
    AtConcat(ud, i, ToBE(value, width), rest);
    FieldAt(ud, i, width, value);
  }

  // ----- the last element with an id ----------------------------------------------------

  /** The data of the last element with this id. */
  function Last(es: seq<Element>, id: byte): Option<seq<byte>> {
    if es == [] then None
    else
      var later := Last(es[1..], id);
      if later.Some? then later else if es[0].id == id then Some(es[0].data) else None
  }

  function Updated<T>(before: Option<T>, last: Option<seq<byte>>, meaning: seq<byte> -> T): Option<T> {
    if last.Some? then Some(meaning(last.value)) else before
  }

  /** A value that is known exactly if an element with its id was sent. */
  function Known<T>(last: Option<seq<byte>>, meaning: seq<byte> -> T): Option<T> {
    match last
    case None => None
    case Some(data) => Some(meaning(data))
  }

  function FirstByte(d: seq<byte>): byte {
    if d == [] then 0 else d[0]
  }

  function NonZero(d: seq<byte>): bool {
    FirstByte(d) != 0
  }
}
