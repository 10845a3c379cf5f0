/** The messages of the Bitrek device: the header check and the walk over the answers. */
module BitrekAnswers {
  import opened Bytes
  import opened Division
  import Crc16
  import opened BitrekStream
  import BitrekDelivery

  // ----- the header check --------------------------------------------------------------

  /** The checks every Bitrek parser begins with, in the source's order. A packet too short to
      hold the fields is refused whatever the bytes behind it are, since its size minus six wraps
      around to a number no length field can reach. */
  method CheckHeader(ud: seq<byte>) returns (ok: bool)
    ensures ok <==> IsMessage(ud)
  {
    AcceptsExactly(ud);
    hide IsMessage, ShortCrcMatches, FromBE;
    if |ud| < 6 {
      return false;
    }
    if ud[0] != 0 || ud[1] != 0 {
      return false;
    }
    var dataSize := FromBE(ud[2..4]);
    if dataSize == 0 || dataSize != |ud| - 6 {
      return false;
    }
    ok := BitrekDelivery.CheckShort(ud);
  }

  predicate Accepts(ud: seq<byte>) {
    && |ud| > 6 && ud[0] == 0 && ud[1] == 0 && FromBE(ud[2..4]) == |ud| - 6
    && ShortCrcMatches(ud)
  }

  /** The bytes between the header and the checksum. */
  function Inside(ud: seq<byte>): seq<byte> {
    if |ud| >= 6 then ud[4..|ud| - 2] else []
  }

  /** ud is what compute_crc makes of a message of a size its length field can hold. */
  predicate IsMessage(ud: seq<byte>) {
    0 < |Inside(ud)| < 0x1_0000 && ud == Short(Inside(ud))
  }

  /** The header check accepts exactly the output of compute_crc on a nonempty message of less
      than 65536 bytes. */
  lemma AcceptsExactly(ud: seq<byte>)
    ensures Accepts(ud) <==> IsMessage(ud)
  {
    if Accepts(ud) {
      AcceptedIsMessage(ud);
    }
    hide Accepts, Short;
    if IsMessage(ud) {
      MessageIsAccepted(Inside(ud));
    }
  }

  lemma MessageIsAccepted(d: seq<byte>)
    requires 0 < |d| < 0x1_0000
    ensures Accepts(Short(d))
  {
    BitrekDelivery.ShortIsValid(d);
    BitrekDelivery.LengthReadsBack(d);
    BitrekDelivery.ShortLayout(d);
    hide Short, ShortCrcMatches, FromBE, ToBE;
  }

  /** A message of 65536 bytes or more is framed with its size modulo 65536 and the checksum of as
      many bytes, so its own parser refuses it. */
  lemma LongMessageIsRefused(d: seq<byte>)
    requires |d| >= 0x1_0000
    ensures var ud := Short(d);
            && |ud| == |d| + 6 && FromBE(ud[2..4]) == |d| % 0x1_0000 && ud[4..4 + |d|] == d
            && ud[4 + |d|..] == Crc16.ToField(Crc16.Of(d[..|d| % 0x1_0000]))
            && !Accepts(ud)
  {
    hide ToBE, FromBE, Crc16.Of, Crc16.ToField, ShortCrcMatches;
    var ud, sz := Short(d), |d| % 0x1_0000;
    assert ud[2..4] == ToBE(sz, 2);
    assert Pow256(2) == 0x1_0000;
    ToThenFromBE(sz, 2);
  }

  lemma FieldIs16Bits(field: seq<byte>)
    requires |field| == 2
    ensures FromBE(field) < 0x1_0000 && ToBE(FromBE(field), 2) == field
  {
    FromBEBound(field);
    FromThenToBE(field);
    assert Pow256(2) == 0x1_0000;
  }

  lemma AcceptedIsMessage(ud: seq<byte>)
    requires Accepts(ud)
    ensures 0 < |Inside(ud)| < 0x1_0000 && ud == Short(Inside(ud))
  {
    var d := ud[4..|ud| - 2];
    FieldIs16Bits(ud[2..4]);
    FieldOf(ud[|ud| - 2], ud[|ud| - 1]);
    var high, low := ud[|ud| - 2], ud[|ud| - 1];
    assert Crc16.ToField(Crc16.Of(d)) == [high, low];
    BitrekDelivery.ShortLayout(d);
    hide Short, Crc16.Of, Crc16.ToField, Crc16.FromField, FromBE, ToBE, ShortCrcMatches, Accepts;
    SameParts(ud, Short(d));
  }

  lemma SameParts(a: seq<byte>, b: seq<byte>)
    requires |a| == |b| > 6 && a[0] == b[0] && a[1] == b[1] && a[2..4] == b[2..4]
    requires a[4..|a| - 2] == b[4..|a| - 2] && [a[|a| - 2], a[|a| - 1]] == b[|a| - 2..]
    ensures a == b
  {
    assert a == [a[0], a[1]] + a[2..4] + a[4..|a| - 2] + [a[|a| - 2], a[|a| - 1]];
    assert b == [b[0], b[1]] + b[2..4] + b[4..|a| - 2] + b[|a| - 2..];
  }

  lemma FieldOf(high: byte, low: byte)
    ensures Crc16.ToField(Crc16.FromField(high, low)) == [high, low]
  {
    var word := Crc16.FromField(high, low);
    assert word[8..] == BitsOf(high) && word[..8] == BitsOf(low);
    ByteOfBits(high);
    ByteOfBits(low);
    hide BitsOf, ByteOf;
  }

  lemma ByteOfBits(b: byte)
    ensures ByteOf(BitsOf(b)) == b
  {
    BitsOfInjective(ByteOf(BitsOf(b)), b);
  }

  /** The splitter's short frames are exactly what the parsers accept. */
  lemma SplitterAndParserAgree(p: seq<byte>)
    ensures IsShortFrame(p) <==> Accepts(p)
  {
    hide ShortCrcMatches, FromBE, ToBE;
    if |p| > 6 {
      FieldIs16Bits(p[2..4]);
      assert p[..2] == [p[0], p[1]];
      if p[2..4] == ToBE(|p| - 6, 2) && |p| < 0x1_0006 {
        assert Pow256(2) == 0x1_0000;
        ToThenFromBE(|p| - 6, 2);
      }
    }
  }

  // ----- the answers in a message --------------------------------------------------------

  datatype Answer =
    | ParamValue(high: byte, low: byte, value: seq<byte>)
    | ParamStored(high: byte, low: byte, status: byte)
    | CommandReply(command: byte, text: seq<byte>)
    | Acknowledgement(code: byte)
    | FirmwareStatus(status: byte)

  /** Values and texts carry their length in one byte. */
  predicate Fits(answer: Answer) {
    match answer
    case ParamValue(_, _, value) => |value| < 256
    case CommandReply(_, text) => |text| < 256
    case _ => true
  }

  function Tag(answer: Answer): byte {
    match answer
    case ParamValue(_, _, _) => 33
    case ParamStored(_, _, _) => 37
    case CommandReply(_, _) => 41
    case Acknowledgement(_) => 42
    case FirmwareStatus(_) => 44
  }

  function Serialise(answer: Answer): seq<byte>
    requires Fits(answer)
  {
    match answer
    case ParamValue(high, low, value) => [33, high, low, |value|] + value
    case ParamStored(high, low, status) => [37, high, low, status]
    case CommandReply(command, text) => [41, command, |text|] + text
    case Acknowledgement(code) => [42, code]
    case FirmwareStatus(status) => [44, status]
  }

  predicate AllFit(answers: seq<Answer>) {
    forall k | 0 <= k < |answers| :: Fits(answers[k])
  }

  function Body(answers: seq<Answer>): seq<byte>
    requires AllFit(answers)
  {
    if answers == [] then [] else Serialise(answers[0]) + Body(answers[1..])
  }

  function Message(answers: seq<Answer>): seq<byte>
    requires AllFit(answers) && |answers| < 256
  {
    [|answers|] + Body(answers)
  }

  // ----- the walk --------------------------------------------------------------------------

  /** How far the walk moves on from a tag. */
  datatype Step = Forward(size: nat) | Stop | Outside

  function StepAt(data: seq<byte>, at: nat): (step: Step)
    ensures step.Forward? ==> step.size > 0
  {
    if at >= |data| then Outside
    else if data[at] == 33 then if at + 3 < |data| then Forward(4 + (data[at + 3] as int)) else Outside
    else if data[at] == 37 then Forward(4)
    else if data[at] == 41 then if at + 2 < |data| then Forward(3 + (data[at + 2] as int)) else Outside
    else if data[at] == 42 then Forward(2)
    else if data[at] == 44 then Forward(2)
    else Stop
  }

  /** The positions found, and whether the walk read outside its data. */
  datatype Walk = Walk(found: seq<nat>, overrun: bool) {
    function Behind(earlier: seq<nat>): Walk {
      this.(found := earlier + found)
    }

    lemma BehindTwice(a: seq<nat>, b: seq<nat>)
      ensures Behind(b).Behind(a) == Behind(a + b)
    {
      assert a + (b + found) == a + b + found;
    }
  }

  function HitAt(data: seq<byte>, at: nat, tag: byte): seq<nat> {
    if at < |data| && data[at] == tag then [at] else []
  }

  function WalkFrom(data: seq<byte>, at: nat, left: nat, tag: byte): Walk
    decreases left
  {
    if left == 0 then Walk([], false)
    else
      match StepAt(data, at)
      case Outside => Walk(HitAt(data, at, tag), true)
      case Stop => Walk(HitAt(data, at, tag), false)
      case Forward(size) => WalkFrom(data, at + size, left - 1, tag).Behind(HitAt(data, at, tag))
  }

  function Found(data: seq<byte>, tag: byte): Walk {
    if data == [] then Walk([], true) else WalkFrom(data, 1, data[0], tag)
  }

  method FindAnswer(data: seq<byte>, tag: byte) returns (result: seq<nat>, overrun: bool)
    ensures Walk(result, overrun) == Found(data, tag)
  {
    hide WalkFrom, StepAt;
    result, overrun := [], false;
    if data == [] {
      return [], true;
    }
    var count: nat := data[0];
    var at: nat, i: nat := 1, 0;
    Found(data, tag).BehindTwice([], []);
    assert [] + Found(data, tag).found == Found(data, tag).found;
    while i < count
      invariant 0 <= i <= count && !overrun
      invariant Found(data, tag) == WalkFrom(data, at, count - i, tag).Behind(result)
    {
      WalkOn(data, at, count - i, tag, result);
      result := result + HitAt(data, at, tag);
      var step := StepFrom(data, at);
      if step.Outside? {
        return result, true;
      }
      if step.Stop? {
        break;
      }
      at := at + step.size;
      i := i + 1;
    }
    WalkEnds(data, at, tag, result);
  }

  /** How the walk moves on, branch by branch. */
  method StepFrom(data: seq<byte>, at: nat) returns (step: Step)
    ensures step == StepAt(data, at)
  {
    if at >= |data| {
      return Outside;
    }
    var next := at;
    if data[at] == 33 {
      if at + 3 >= |data| {
        return Outside;
      }
      next := next + 3;
      next := next + data[next] + 1;
    } else if data[at] == 37 {
      next := next + 4;
    } else if data[at] == 41 {
      if at + 2 >= |data| {
        return Outside;
      }
      next := next + 2;
      next := next + data[next] + 1;
    } else if data[at] == 42 {
      next := next + 2;
    } else if data[at] == 44 {
      next := next + 2;
    } else {
      return Stop;
    }
    step := Forward(next - at);
  }

  lemma WalkOn(data: seq<byte>, at: nat, left: nat, tag: byte, before: seq<nat>)
    requires left > 0
    ensures var now := before + HitAt(data, at, tag);
            WalkFrom(data, at, left, tag).Behind(before) ==
            match StepAt(data, at)
            case Outside => Walk(now, true)
            case Stop => Walk(now, false)
            case Forward(size) => WalkFrom(data, at + size, left - 1, tag).Behind(now)
  {
    var step := StepAt(data, at);
    if step.Forward? {
      WalkFrom(data, at + step.size, left - 1, tag).BehindTwice(before, HitAt(data, at, tag));
    }
  }

  lemma WalkEnds(data: seq<byte>, at: nat, tag: byte, before: seq<nat>)
    ensures WalkFrom(data, at, 0, tag).Behind(before) == Walk(before, false)
  {
    assert before + [] == before;
  }

  // ----- the walk finds exactly the answers ---------------------------------------------------

  lemma StepOver(data: seq<byte>, at: nat, answer: Answer)
    requires Fits(answer) && At(data, at, Serialise(answer))
    ensures StepAt(data, at) == Forward(|Serialise(answer)|)
    ensures data[at] == Tag(answer)
  {
    var s := Serialise(answer);
    assert data[at] == s[0] && data[at + 1] == s[1];
    match answer {
      case ParamValue(_, _, _) => assert data[at + 3] == s[3];
      case CommandReply(_, _) => assert data[at + 2] == s[2];
      case _ =>
    }
  }

  /** Where the answers with a tag begin when the first one begins at `at`. */
  function PositionsFrom(answers: seq<Answer>, at: nat, tag: byte): seq<nat>
    requires AllFit(answers)
  {
    if answers == [] then []
    else
      (if Tag(answers[0]) == tag then [at] else []) + PositionsFrom(answers[1..], at + |Serialise(answers[0])|, tag)
  }

  lemma FirstOfBody(answers: seq<Answer>)
    requires AllFit(answers) && answers != []
    ensures Fits(answers[0]) && AllFit(answers[1..])
    ensures Body(answers) == Serialise(answers[0]) + Body(answers[1..])
  {
  }

  /** The first answer at a place, the other answers behind it, and the step over the first. */
  lemma FirstAnswer(data: seq<byte>, at: nat, answers: seq<Answer>)
    requires AllFit(answers) && answers != [] && At(data, at, Body(answers))
    ensures Fits(answers[0]) && AllFit(answers[1..])
    ensures var s := Serialise(answers[0]);
            && At(data, at, s) && At(data, at + |s|, Body(answers[1..]))
            && at + |s| <= |data| && |s| > 0
            && StepAt(data, at) == Forward(|s|) && data[at] == Tag(answers[0])
  {
    hide Serialise, StepAt, Body, At, Tag;
    FirstOfBody(answers);
    var s := Serialise(answers[0]);
    AtConcat(data, at, s, Body(answers[1..]));
    StepOver(data, at, answers[0]);
    AtIsInside(data, at, s);
  }

  lemma {:induction false} WalkFollowsAnswers(data: seq<byte>, at: nat, answers: seq<Answer>, tag: byte)
    requires AllFit(answers) && At(data, at, Body(answers))
    ensures WalkFrom(data, at, |answers|, tag) == Walk(PositionsFrom(answers, at, tag), false)
    decreases |answers|
  {
    hide At, Serialise, StepAt, Tag, Fits, Body, AllFit;
    if answers != [] {
      FirstAnswer(data, at, answers);
      WalkFollowsAnswers(data, at + |Serialise(answers[0])|, answers[1..], tag);
    }
  }

  lemma AtIsInside(data: seq<byte>, i: nat, s: seq<byte>)
    requires At(data, i, s)
    ensures i + |s| <= |data|
  {
  }

  /** The walk over a message, whatever follows it, returns exactly the positions of the answers
      with the wanted tag, in order. */
  lemma FoundExactly(answers: seq<Answer>, rest: seq<byte>, tag: byte)
    requires AllFit(answers) && |answers| < 256
    ensures Found(Message(answers) + rest, tag) == Walk(PositionsFrom(answers, 1, tag), false)
  {
    hide AllFit, WalkFrom;
    var data := Message(answers) + rest;
    assert data[1..1 + |Body(answers)|] == Body(answers);
    WalkFollowsAnswers(data, 1, answers, tag);
  }

  /** What the walk knows as a tag. */
  predicate IsTag(b: byte) {
    b == 33 || b == 37 || b == 41 || b == 42 || b == 44
  }

  /** A byte that is no tag ends the walk, however many answers were announced; if it is the byte
      looked for, its place is reported too. */
  lemma {:induction false} UnknownTagEndsWalk(
      data: seq<byte>, at: nat, answers: seq<Answer>, left: nat, tag: byte)
    requires AllFit(answers) && At(data, at, Body(answers)) && left > |answers|
    requires at + |Body(answers)| < |data| && !IsTag(data[at + |Body(answers)|])
    ensures var end := at + |Body(answers)|;
            WalkFrom(data, at, left, tag) ==
            Walk(PositionsFrom(answers, at, tag) + (if data[end] == tag then [end] else []), false)
    decreases |answers|
  {
    hide At, Serialise, Tag, Fits, AllFit;
    if answers == [] {
      assert Body(answers) == [] && PositionsFrom(answers, at, tag) == [];
    } else {
      FirstOfBody(answers);
      FirstAnswer(data, at, answers);
      FirstPosition(answers, at, tag);
      hide StepAt, Body, PositionsFrom, IsTag;
      var from := at + |Serialise(answers[0])|;
      UnknownTagEndsWalk(data, from, answers[1..], left - 1, tag);
      Regroup(HitAt(data, at, tag), PositionsFrom(answers[1..], from, tag),
              if data[at + |Body(answers)|] == tag then [at + |Body(answers)|] else []);
    }
  }

  /** There is nothing at this place, or a tag whose length byte is missing. */
  predicate LengthIsMissing(data: seq<byte>, at: nat) {
    at >= |data| || (data[at] == 33 && at + 3 >= |data|) || (data[at] == 41 && at + 2 >= |data|)
  }

  /** If more answers are announced than there are, the walk leaves its data behind the last. */
  lemma {:induction false} WalkLeavesItsData(data: seq<byte>, at: nat, answers: seq<Answer>, left: nat, tag: byte)
    requires AllFit(answers) && At(data, at, Body(answers)) && left > |answers|
    requires LengthIsMissing(data, at + |Body(answers)|)
    ensures WalkFrom(data, at, left, tag).overrun
    decreases |answers|
  {
    hide At, Serialise, Tag, Fits, AllFit;
    if answers == [] {
      assert Body(answers) == [];
    } else {
      FirstOfBody(answers);
      FirstAnswer(data, at, answers);
      hide StepAt, Body, LengthIsMissing;
      WalkLeavesItsData(data, at + |Serialise(answers[0])|, answers[1..], left - 1, tag);
    }
  }

  lemma FirstPosition(answers: seq<Answer>, at: nat, tag: byte)
    requires AllFit(answers) && answers != [] && Fits(answers[0]) && AllFit(answers[1..])
    ensures PositionsFrom(answers, at, tag) ==
            (if Tag(answers[0]) == tag then [at] else []) +
            PositionsFrom(answers[1..], at + |Serialise(answers[0])|, tag)
  {
    hide Serialise, Tag;
  }

  /** The position list is the offsets of the answers with the tag, each answer lying whole at
      its offset. */
  lemma {:induction false} PositionsAreOffsets(data: seq<byte>, at: nat, answers: seq<Answer>, tag: byte)
    requires AllFit(answers) && At(data, at, Body(answers))
    ensures var ps := PositionsFrom(answers, at, tag);
            && |ps| == |Chosen(answers, tag)|
            && forall i | 0 <= i < |ps| ::
              Fits(Chosen(answers, tag)[i]) && At(data, ps[i], Serialise(Chosen(answers, tag)[i]))
    decreases |answers|
  {
    hide Serialise, At, Tag, Body, StepAt, Fits, PositionsFrom, Chosen;
    if answers == [] {
      NothingChosen(at, tag);
    } else {
      FirstAnswer(data, at, answers);
      PositionsAreOffsets(data, at + |Serialise(answers[0])|, answers[1..], tag);
      FirstChosen(answers, at, tag);
      var ps, chosen := PositionsFrom(answers, at, tag), Chosen(answers, tag);
      if Tag(answers[0]) == tag {
        forall i | 0 <= i < |ps|
          ensures Fits(chosen[i]) && At(data, ps[i], Serialise(chosen[i]))
        {
          if i > 0 {
            assert chosen[i] == Chosen(answers[1..], tag)[i - 1];
          }
        }
      }
    }
  }

  lemma NothingChosen(at: nat, tag: byte)
    ensures PositionsFrom([], at, tag) == [] && Chosen([], tag) == []
  {
  }

  lemma FirstChosen(answers: seq<Answer>, at: nat, tag: byte)
    requires AllFit(answers) && answers != [] && AllFit(answers[1..])
    ensures var first, rest := answers[0], answers[1..];
            var from := at + |Serialise(first)|;
            if Tag(first) == tag then
              && PositionsFrom(answers, at, tag) == [at] + PositionsFrom(rest, from, tag)
              && Chosen(answers, tag) == [first] + Chosen(rest, tag)
            else
              && PositionsFrom(answers, at, tag) == PositionsFrom(rest, from, tag)
              && Chosen(answers, tag) == Chosen(rest, tag)
  {
    hide Serialise, Tag;
  }

  /** The answers with a tag, in order. */
  function Chosen(answers: seq<Answer>, tag: byte): seq<Answer> {
    if answers == [] then []
    else (if Tag(answers[0]) == tag then [answers[0]] else []) + Chosen(answers[1..], tag)
  }

  /** From end to end: the frame compute_crc makes of a list of answers passes the header check,
      and the walk over what the parser looks at finds exactly the answers with the wanted tag. */
  lemma AnswersSurviveTheFrame(answers: seq<Answer>, tag: byte)
    requires AllFit(answers) && |answers| < 256 && |Message(answers)| < 0x1_0000
    ensures var ud := Short(Message(answers));
            && Accepts(ud)
            && Found(ud[4..], tag) == Walk(PositionsFrom(answers, 1, tag), false)
            && At(ud[4..], 1, Body(answers))
  {
    hide Accepts, Short, Found, PositionsFrom, AllFit, Body;
    var m := Message(answers);
    var ud := Short(m);
    MessageIsAccepted(m);
    BitrekDelivery.ShortLayout(m);
    var rest := ud[4 + |m|..];
    assert ud[4..] == m + rest by {
      assert ud[4..] == ud[4..4 + |m|] + rest;
    }
    FoundExactly(answers, rest, tag);
    assert ud[4..][1..1 + |Body(answers)|] == Body(answers);
  }
}
