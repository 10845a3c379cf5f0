/** What one packet of answers brings into a Bitrek parameter exchange. */
module BitrekExchange {
  import opened Bytes
  import Crc16
  import BitrekDelivery
  import opened BitrekStream
  import opened BitrekAnswers
  import opened ParamTypes
  import opened ParamVectors
  import opened ParamExchange
  import opened BitrekParams

  // ----- what an answer says ------------------------------------------------------------

  function IdOf(answer: Answer): int
    requires answer.ParamValue? || answer.ParamStored?
  {
    256 * (answer.high as int) + answer.low
  }

  function UpToNul(s: seq<byte>): seq<byte> {
    if s == [] || s[0] == 0 then [] else [s[0]] + UpToNul(s[1..])
  }

  /** The value an answer carries for a parameter of kind t: a number of another width counts as
      zero, a string goes up to its first zero. */
  function RowOf(answer: Answer, t: int): Row
    requires answer.ParamValue? && 1 <= t <= 4
  {
    var v, id := answer.value, IdOf(answer);
    if t == 1 then Row(id, 1, if |v| == 1 then v[0] else 0, 0, [], 0)
    else if t == 2 then Row(id, 2, 0, if |v| == 2 then FromBE(v) else 0, [], 0)
    else if t == 3 then Row(id, 3, 0, 0, UpToNul(v), 0)
    else Row(id, 4, 0, 0, [], if |v| == 4 then FromBE(v) else 0)
  }

  // ----- what is read from an answer ----------------------------------------------------

  /** A string is read up to the first zero, be it in the answer or in the bytes behind it. */
  function RowRead(answer: Answer, tail: seq<byte>, t: int): (row: Row)
    requires answer.ParamValue? && 1 <= t <= 4
    ensures row.id == IdOf(answer) && row.kind == t
  {
    if t == 3 then Row(IdOf(answer), 3, 0, 0, UpToNul(answer.value + tail), 0) else RowOf(answer, t)
  }

  /** Without such a zero the source reads on behind the packet. */
  predicate Ends(answer: Answer, tail: seq<byte>, t: int)
    requires answer.ParamValue?
  {
    t == 3 ==> 0 in answer.value + tail
  }

  /** A string brings its zero, or a zero happens to follow it. */
  predicate IsTerminated(answer: Answer, tail: seq<byte>, t: int)
    requires answer.ParamValue?
  {
    t == 3 ==> 0 in answer.value || (tail != [] && tail[0] == 0)
  }

  lemma {:induction false} UpToNulConcat(a: seq<byte>, b: seq<byte>)
    ensures UpToNul(a + b) == if 0 in a then UpToNul(a) else a + UpToNul(b)
    ensures 0 !in a ==> UpToNul(a) == a
  {
    hide UpToNul;
    if a == [] {
      assert a + b == b;
      NothingUpToNul(a);
    } else {
      var rest := a[1..];
      UpToNulConcat(rest, b);
      UpToNulFirst(a);
      UpToNulFirst(a + b);
      ZeroInRest(a);
      assert (a + b)[0] == a[0] && (a + b)[1..] == rest + b;
      if 0 !in a {
        Regrouped(a, UpToNul(b));
      }
    }
  }

  lemma UpToNulFirst(s: seq<byte>)
    requires s != []
    ensures UpToNul(s) == if s[0] == 0 then [] else [s[0]] + UpToNul(s[1..])
  {
  }

  lemma ZeroInRest(s: seq<byte>)
    requires s != []
    ensures 0 in s <==> s[0] == 0 || 0 in s[1..]
    ensures [s[0]] + s[1..] == s
  {
  }

  lemma Regrouped(s: seq<byte>, more: seq<byte>)
    requires s != []
    ensures [s[0]] + (s[1..] + more) == s + more
  {
  }

  lemma NothingUpToNul(s: seq<byte>)
    ensures UpToNul(s) == [] <==> s == [] || s[0] == 0
  {
  }

  /** A value that can be read at all is read as the value carried exactly if it is a number or
      a terminated string. */
  lemma CarriedExactly(answer: Answer, tail: seq<byte>, t: int)
    requires answer.ParamValue? && 1 <= t <= 4 && Ends(answer, tail, t)
    ensures RowRead(answer, tail, t) == RowOf(answer, t) <==> IsTerminated(answer, tail, t)
    ensures IsTerminated(answer, tail, t) && t == 3 ==> 0 in answer.value + tail
  {
    if t == 3 {
      var v := answer.value;
      UpToNulConcat(v, tail);
      NothingUpToNul(tail);
      hide UpToNul;
      assert 0 !in v ==> |UpToNul(v + tail)| == |v| + |UpToNul(tail)|;
      assert 0 !in v && UpToNul(tail) == [] ==> v + [] == v;
    }
  }

  lemma {:induction false} CStringIs(data: seq<byte>, from: nat)
    requires from <= |data|
    ensures CString(data, from) == if 0 in data[from..] then Some(UpToNul(data[from..])) else None
    decreases |data| - from
  {
    if from < |data| {
      assert data[from..] == [data[from]] + data[from + 1..];
      CStringIs(data, from + 1);
    }
  }

  lemma CStringInside(data: seq<byte>, from: nat, s: seq<byte>)
    requires At(data, from, s) && 0 in s
    ensures CString(data, from) == Some(UpToNul(s))
  {
    CStringIs(data, from);
    var rest := data[from + |s|..];
    assert data[from..] == s + rest;
    UpToNulConcat(s, rest);
  }

  lemma ValueIsAt(data: seq<byte>, p: nat, answer: Answer)
    requires answer.ParamValue? && Fits(answer) && At(data, p, Serialise(answer))
    ensures |Serialise(answer)| == 4 + |answer.value| && p + 4 + |answer.value| <= |data|
    ensures p + 3 < |data| && data[p + 3] == |answer.value|
    ensures IdAt(data, p) == IdOf(answer)
    ensures At(data, p + 4, answer.value)
  {
    var s := Serialise(answer);
    AtConcat(data, p, [33, answer.high, answer.low, |answer.value|], answer.value);
    var head := data[p..p + 4];
    assert head == [33, answer.high, answer.low, |answer.value|];
    assert data[p + 1] == head[1] && data[p + 2] == head[2] && data[p + 3] == head[3];
  }

  /** What the reader makes of an answer in front of other bytes. */
  lemma ValueReadsBack(data: seq<byte>, p: nat, answer: Answer, tail: seq<byte>, t: int)
    requires answer.ParamValue? && 1 <= t <= 4 && Fits(answer)
    requires At(data, p, Serialise(answer)) && Follows(data, p, answer, tail)
    ensures ReadRow(data, p + 3, IdOf(answer), t) ==
            if Ends(answer, tail, t) then Some(RowRead(answer, tail, t)) else None
  {
    ValueIsAt(data, p, answer);
    hide Serialise, FromBE, At, IdAt;
    if t == 3 {
      CStringIs(data, p + 4);
      assert data[p + 4..] == answer.value + tail by {
        TextIsAt(data, p + 4, answer.value);
      }
    } else {
      NumberReadsBack(data, p, answer, t);
    }
  }

  lemma TextIsAt(data: seq<byte>, from: nat, s: seq<byte>)
    requires At(data, from, s)
    ensures data[from..] == s + data[from + |s|..]
  {
  }

  lemma NumberReadsBack(data: seq<byte>, p: nat, answer: Answer, t: int)
    requires answer.ParamValue? && (t == 1 || t == 2 || t == 4) && p + 3 < |data| && data[p + 3] == |answer.value|
    requires At(data, p + 4, answer.value)
    ensures ReadRow(data, p + 3, IdOf(answer), t) == Some(RowOf(answer, t))
  {
    hide FromBE, IdOf;
  }

  // ----- the rows of one packet -------------------------------------------------------------

  function KindIn(params: Params, id: int): int
    requires params.Even()
  {
    KindFor(params, id).value
  }

  /** A requested id has the kind of its first slot, any other the kind of the table. */
  lemma KindIsRequested(params: Params, id: int)
    requires params.Even()
    ensures id !in params.ids ==> KindIn(params, id) == TypeForParam(id)
    ensures forall j | 0 <= j < |params.ids| && params.ids[j] == id && id !in params.ids[..j] ::
              KindIn(params, id) == params.types[j]
  {
    hide TypeForParam;
    forall j | 0 <= j < |params.ids| && params.ids[j] == id && id !in params.ids[..j]
      ensures FirstIndex(params.ids, id) == j
    {
      forall k | 0 <= k < j
        ensures params.ids[k] != id
      {
        assert params.ids[..j][k] == params.ids[k];
      }
    }
  }

  predicate AllValues(values: seq<Answer>) {
    forall i | 0 <= i < |values| :: values[i].ParamValue?
  }

  predicate IsKind(t: int) {
    1 <= t <= 4
  }

  ghost predicate KindsLegal(params: Params, values: seq<Answer>)
    requires params.Even() && AllValues(values)
  {
    forall i | 0 <= i < |values| :: IsKind(KindIn(params, IdOf(values[i])))
  }

  ghost predicate AllEnd(params: Params, values: seq<Answer>, tails: seq<seq<byte>>)
    requires params.Even() && AllValues(values) && |tails| == |values|
  {
    forall i | 0 <= i < |values| :: Ends(values[i], tails[i], KindIn(params, IdOf(values[i])))
  }

  function RowIn(params: Params, answer: Answer, tail: seq<byte>): Row
    requires params.Even() && answer.ParamValue? && IsKind(KindIn(params, IdOf(answer)))
  {
    RowRead(answer, tail, KindIn(params, IdOf(answer)))
  }

  function ValueRows(params: Params, values: seq<Answer>, tails: seq<seq<byte>>): (rows: seq<Row>)
    requires params.Even() && AllValues(values) && |tails| == |values| && KindsLegal(params, values)
    ensures |rows| == |values|
  {
    seq(|values|, i requires 0 <= i < |values| => RowIn(params, values[i], tails[i]))
  }

  predicate AllAt(data: seq<byte>, ps: seq<nat>, answers: seq<Answer>) {
    && |ps| == |answers|
    && forall i | 0 <= i < |ps| :: Fits(answers[i]) && At(data, ps[i], Serialise(answers[i]))
  }

  predicate Follows(data: seq<byte>, p: nat, answer: Answer, tail: seq<byte>)
    requires Fits(answer)
  {
    p + |Serialise(answer)| <= |data| && data[p + |Serialise(answer)|..] == tail
  }

  /** The bytes behind each of the answers. */
  predicate AllFollow(data: seq<byte>, ps: seq<nat>, answers: seq<Answer>, tails: seq<seq<byte>>)
    requires AllAt(data, ps, answers)
  {
    && |tails| == |answers|
    && forall i | 0 <= i < |ps| :: Follows(data, ps[i], answers[i], tails[i])
  }

  lemma OneAnswer(params: Params, res: Params, data: seq<byte>, p: nat, answer: Answer, tail: seq<byte>)
    requires params.Even() && answer.ParamValue? && IsKind(KindIn(params, IdOf(answer)))
    requires Fits(answer) && At(data, p, Serialise(answer)) && Follows(data, p, answer, tail)
    ensures GetOne(params, res, data, p) ==
            if Ends(answer, tail, KindIn(params, IdOf(answer))) then Some(res.Append(RowIn(params, answer, tail)))
            else None
  {
    ValueIsAt(data, p, answer);
    ValueReadsBack(data, p, answer, tail, KindIn(params, IdOf(answer)));
    hide ReadRow, RowRead, Serialise, IdAt, TypeForParam, IdOf, Ends, At;
  }

  lemma {:induction false} ValuesReadBack(
      params: Params, data: seq<byte>, ps: seq<nat>, values: seq<Answer>, tails: seq<seq<byte>>)
    requires params.Even() && AllValues(values) && KindsLegal(params, values)
    requires AllAt(data, ps, values) && AllFollow(data, ps, values, tails) && AllEnd(params, values, tails)
    ensures GetUpTo(params, data, ps) == Some(OfRows(false, ValueRows(params, values, tails)))
    decreases |ps|
  {
    hide KindIn, IsKind, Ends, GetOne, Serialise, Fits, RowIn, At, OfRows;
    if ps == [] {
      NothingOfRows(false);
    } else {
      var n := |ps| - 1;
      ValuesReadBack(params, data, ps[..n], values[..n], tails[..n]);
      var before := ValueRows(params, values[..n], tails[..n]);
      assert ValueRows(params, values, tails) == before + [RowIn(params, values[n], tails[n])];
      OneAnswer(params, OfRows(false, before), data, ps[n], values[n], tails[n]);
      OfRowsSnoc(false, before, RowIn(params, values[n], tails[n]));
    }
  }

  /** One string without an end makes the whole packet unreadable. */
  lemma ValuesReadOn(params: Params, data: seq<byte>, ps: seq<nat>, values: seq<Answer>, tails: seq<seq<byte>>)
    requires params.Even() && AllValues(values) && KindsLegal(params, values)
    requires AllAt(data, ps, values) && AllFollow(data, ps, values, tails) && !AllEnd(params, values, tails)
    ensures GetUpTo(params, data, ps).None?
  {
    hide KindIn, IsKind, Ends, GetOne, Serialise, Fits, RowIn, At;
    var k :| 0 <= k < |values| && !Ends(values[k], tails[k], KindIn(params, IdOf(values[k])));
    var before := GetUpTo(params, data, ps[..k]);
    assert ps[..k + 1][..k] == ps[..k];
    if before.Some? {
      OneAnswer(params, before.value, data, ps[k], values[k], tails[k]);
    }
    GetFails(params, data, ps, k + 1);
  }

  // ----- answers to a set request --------------------------------------------------------------

  predicate AllStored(statuses: seq<Answer>) {
    forall i | 0 <= i < |statuses| :: statuses[i].ParamStored?
  }

  function StatusRow(answer: Answer): Row
    requires answer.ParamStored?
  {
    Row(IdOf(answer), 1, answer.status, 0, [], 0)
  }

  function StatusRows(statuses: seq<Answer>): (rows: seq<Row>)
    requires AllStored(statuses)
    ensures |rows| == |statuses|
  {
    seq(|statuses|, i requires 0 <= i < |statuses| => StatusRow(statuses[i]))
  }

  lemma OneStatus(res: Params, data: seq<byte>, p: nat, answer: Answer)
    requires answer.ParamStored? && Fits(answer) && At(data, p, Serialise(answer))
    ensures SetOne(res, data, p) == Some(res.Append(StatusRow(answer)))
  {
    var s := data[p..p + 4];
    assert s == [37, answer.high, answer.low, answer.status];
    assert data[p + 1] == s[1] && data[p + 2] == s[2] && data[p + 3] == s[3];
  }

  lemma {:induction false} StatusesReadBack(data: seq<byte>, ps: seq<nat>, statuses: seq<Answer>)
    requires AllStored(statuses) && AllAt(data, ps, statuses)
    ensures SetUpTo(data, ps) == Some(OfRows(true, StatusRows(statuses)))
    decreases |ps|
  {
    hide SetOne, Serialise, Fits, StatusRow, At, OfRows;
    if ps == [] {
      NothingOfRows(true);
    } else {
      var n := |ps| - 1;
      StatusesReadBack(data, ps[..n], statuses[..n]);
      var before := StatusRows(statuses[..n]);
      assert StatusRows(statuses) == before + [StatusRow(statuses[n])];
      OneStatus(OfRows(true, before), data, ps[n], statuses[n]);
      OfRowsSnoc(true, before, StatusRow(statuses[n]));
    }
  }

  lemma NothingOfRows(forSetting: bool)
    ensures OfRows(forSetting, []) == Nothing(forSetting)
  {
  }

  lemma {:induction false} ChosenHasTag(answers: seq<Answer>, tag: byte)
    ensures forall i | 0 <= i < |Chosen(answers, tag)| :: Tag(Chosen(answers, tag)[i]) == tag
  {
    if answers != [] {
      ChosenHasTag(answers[1..], tag);
    }
  }

  lemma ChosenBelong(answers: seq<Answer>)
    ensures AllValues(Chosen(answers, 33)) && AllStored(Chosen(answers, 37))
  {
    ChosenHasTag(answers, 33);
    ChosenHasTag(answers, 37);
  }

  // ----- one packet --------------------------------------------------------------------------------

  function Values(answers: seq<Answer>): (values: seq<Answer>)
    ensures AllValues(values)
  {
    ChosenBelong(answers);
    Chosen(answers, 33)
  }

  function Statuses(answers: seq<Answer>): (statuses: seq<Answer>)
    ensures AllStored(statuses)
  {
    ChosenBelong(answers);
    Chosen(answers, 37)
  }

  predicate IsSendable(answers: seq<Answer>) {
    AllFit(answers) && |answers| < 256 && |Message(answers)| < 0x1_0000
  }

  /** The checksum field behind a message. */
  function Trailer(answers: seq<Answer>): (field: seq<byte>)
    requires IsSendable(answers)
    ensures |field| == 2
  {
    Crc16.ToField(Crc16.Of(Message(answers)))
  }

  /** The bytes that follow each answer with a tag. */
  function TailsFrom(answers: seq<Answer>, tag: byte, end: seq<byte>): (tails: seq<seq<byte>>)
    requires AllFit(answers)
    ensures |tails| == |Chosen(answers, tag)|
  {
    if answers == [] then []
    else
      (if Tag(answers[0]) == tag then [Body(answers[1..]) + end] else []) + TailsFrom(answers[1..], tag, end)
  }

  function Tails(answers: seq<Answer>): (tails: seq<seq<byte>>)
    requires IsSendable(answers)
    ensures |tails| == |Values(answers)|
  {
    TailsFrom(answers, 33, Trailer(answers))
  }

  /** The values of a packet have a kind, and its strings come to an end inside the packet. */
  ghost predicate AllReadable(params: Params, answers: seq<Answer>)
    requires params.Even() && IsSendable(answers)
  {
    KindsLegal(params, Values(answers)) && AllEnd(params, Values(answers), Tails(answers))
  }

  /** The rows a packet brings: the parameter values, or if there are none the set statuses. */
  ghost function PacketRows(params: Params, answers: seq<Answer>): seq<Row>
    requires params.Even() && IsSendable(answers) && KindsLegal(params, Values(answers))
  {
    if Values(answers) != [] then ValueRows(params, Values(answers), Tails(answers))
    else StatusRows(Statuses(answers))
  }

  lemma AnswersAreAt(answers: seq<Answer>, tag: byte)
    requires IsSendable(answers)
    ensures var data := Short(Message(answers))[4..];
            && Found(data, tag) == Walk(PositionsFrom(answers, 1, tag), false)
            && AllAt(data, PositionsFrom(answers, 1, tag), Chosen(answers, tag))
  {
    AnswersSurviveTheFrame(answers, tag);
    var data := Short(Message(answers))[4..];
    hide Short, Found, Serialise, Fits, Accepts;
    PositionsAreOffsets(data, 1, answers, tag);
  }

  /** Each chosen answer is followed by what TailsFrom says. */
  lemma {:induction false} TailsFollow(data: seq<byte>, at: nat, answers: seq<Answer>, tag: byte, end: seq<byte>)
    requires AllFit(answers) && At(data, at, Body(answers)) && data[at + |Body(answers)|..] == end
    ensures var ps, chosen := PositionsFrom(answers, at, tag), Chosen(answers, tag);
            var tails := TailsFrom(answers, tag, end);
            && |ps| == |chosen|
            && forall i | 0 <= i < |ps| :: Fits(chosen[i]) && Follows(data, ps[i], chosen[i], tails[i])
    decreases |answers|
  {
    hide Serialise, At, Tag, Body, StepAt, Fits, Follows, PositionsFrom, Chosen, TailsFrom;
    if answers == [] {
      NothingChosen(at, tag);
      NoTails(tag, end);
    } else {
      FirstAnswer(data, at, answers);
      FirstTail(data, at, answers, end);
      var from := at + |Serialise(answers[0])|;
      TailsFollow(data, from, answers[1..], tag, end);
      FirstChosen(answers, at, tag);
      FirstTails(answers, tag, end);
      var ps, chosen, tails := PositionsFrom(answers, at, tag), Chosen(answers, tag), TailsFrom(answers, tag, end);
      if Tag(answers[0]) == tag {
        forall i | 0 <= i < |ps|
          ensures Fits(chosen[i]) && Follows(data, ps[i], chosen[i], tails[i])
        {
          if i > 0 {
            assert chosen[i] == Chosen(answers[1..], tag)[i - 1];
          }
        }
      }
    }
  }

  lemma NoTails(tag: byte, end: seq<byte>)
    ensures TailsFrom([], tag, end) == []
  {
  }

  lemma FirstTails(answers: seq<Answer>, tag: byte, end: seq<byte>)
    requires AllFit(answers) && answers != [] && AllFit(answers[1..])
    ensures var rest := answers[1..];
            TailsFrom(answers, tag, end) ==
            if Tag(answers[0]) == tag then [Body(rest) + end] + TailsFrom(rest, tag, end)
            else TailsFrom(rest, tag, end)
  {
    hide Tag, Body;
  }

  lemma FirstTail(data: seq<byte>, at: nat, answers: seq<Answer>, end: seq<byte>)
    requires AllFit(answers) && answers != [] && At(data, at, Body(answers)) && data[at + |Body(answers)|..] == end
    ensures Fits(answers[0]) && AllFit(answers[1..])
    ensures At(data, at + |Serialise(answers[0])|, Body(answers[1..]))
    ensures data[at + |Serialise(answers[0])| + |Body(answers[1..])|..] == end
    ensures Follows(data, at, answers[0], Body(answers[1..]) + end)
  {
    hide Serialise, Body, StepAt, Tag;
    FirstAnswer(data, at, answers);
    FirstOfBody(answers);
    hide Fits;
    var from := at + |Serialise(answers[0])|;
    TextIsAt(data, from, Body(answers[1..]));
  }

  lemma ValuesAreFollowed(answers: seq<Answer>)
    requires IsSendable(answers)
    ensures var data, ps := Short(Message(answers))[4..], PositionsFrom(answers, 1, 33);
            AllAt(data, ps, Values(answers)) && AllFollow(data, ps, Values(answers), Tails(answers))
  {
    AnswersAreAt(answers, 33);
    AnswersSurviveTheFrame(answers, 33);
    BitrekDelivery.ShortLayout(Message(answers));
    var ud := Short(Message(answers));
    var n := |Message(answers)|;
    assert n == 1 + |Body(answers)|;
    hide Short, Found, Serialise, Fits, Accepts, Message, Body;
    assert ud[4..][n..] == ud[4 + n..];
    TailsFollow(ud[4..], 1, answers, 33, Trailer(answers));
  }

  lemma RowsSurvive(forSetting: bool, rows: seq<Row>)
    ensures Rows(OfRows(forSetting, rows)) == rows
  {
    forall j | 0 <= j < |rows|
      ensures Rows(OfRows(forSetting, rows))[j] == rows[j]
    {
      RowsAreKept(forSetting, rows, j);
    }
  }

  lemma FinishPutsRows(e: Exchange, forSetting: bool, rows: seq<Row>)
    requires e.params.Even()
    ensures var next := PutAll(e, rows);
            Finish(e, Some(OfRows(forSetting, rows))) == Gathered(next, next.count == |e.params.ids|)
  {
    hide PutAll;
    var res := OfRows(forSetting, rows);
    RowsSurvive(forSetting, rows);
    MergePutsRows(e, res, |rows|);
    assert rows[..|rows|] == rows;
  }

  /** A packet of answers, framed by compute_crc and read back by the parser, puts exactly its rows
      into the exchange, unless one of its strings has no end. */
  lemma PacketIsGathered(e: Exchange, answers: seq<Answer>)
    requires e.params.Even() && IsSendable(answers) && KindsLegal(e.params, Values(answers))
    ensures var next := PutAll(e, PacketRows(e.params, answers));
            Parse(e, Short(Message(answers))) ==
            if Values(answers) == [] && Statuses(answers) == [] then Refused
            else if !AllReadable(e.params, answers) then Overread
            else Gathered(next, next.count == |e.params.ids|)
  {
    AnswersSurviveTheFrame(answers, 33);
    AnswersAreAt(answers, 33);
    AnswersAreAt(answers, 37);
    ValuesAreFollowed(answers);
    var data := Short(Message(answers))[4..];
    hide Short, Found, Accepts, Finish, PutAll, PositionsFrom, GetUpTo, SetUpTo, ValueRows, StatusRows;
    hide AllEnd, KindsLegal, AllAt, AllFollow, TailsFrom, Message, IsSendable;
    if Values(answers) == [] {
      StatusesReadBack(data, PositionsFrom(answers, 1, 37), Statuses(answers));
      FinishPutsRows(e, true, StatusRows(Statuses(answers)));
    } else if AllReadable(e.params, answers) {
      ValuesReadBack(e.params, data, PositionsFrom(answers, 1, 33), Values(answers), Tails(answers));
      FinishPutsRows(e, false, ValueRows(e.params, Values(answers), Tails(answers)));
    } else {
      ValuesReadOn(e.params, data, PositionsFrom(answers, 1, 33), Values(answers), Tails(answers));
    }
  }

  // ----- when a packet is read as it was sent ------------------------------------------------------

  /** The last answer of a packet has this tag and is the one at place i among those with it. */
  predicate IsLast(answers: seq<Answer>, tag: byte, i: nat) {
    answers != [] && Tag(answers[|answers| - 1]) == tag && i == |Chosen(answers, tag)| - 1
  }

  lemma {:induction false} LastIsChosen(answers: seq<Answer>, tag: byte)
    requires answers != [] && Tag(answers[|answers| - 1]) == tag
    ensures Chosen(answers, tag) != []
  {
    if |answers| > 1 {
      LastIsChosen(answers[1..], tag);
    }
  }

  /** No tag is zero, so what follows an answer begins with a zero only if that is the end. */
  lemma {:induction false} ZeroFollowsExactly(answers: seq<Answer>, tag: byte, end: seq<byte>, i: nat)
    requires AllFit(answers) && end != [] && i < |Chosen(answers, tag)|
    ensures var tail := TailsFrom(answers, tag, end)[i];
            tail != [] && (tail[0] == 0 <==> IsLast(answers, tag, i) && end[0] == 0)
    decreases |answers|
  {
    hide Tag, Body, Serialise, Fits;
    var rest := answers[1..];
    if rest != [] {
      BeginsWithTag(rest);
      assert rest[|rest| - 1] == answers[|answers| - 1];
      if Tag(rest[|rest| - 1]) == tag {
        LastIsChosen(rest, tag);
      }
    } else {
      assert Body(rest) == [] by {
        NoBody();
      }
    }
    FirstChosen(answers, 0, tag);
    FirstTails(answers, tag, end);
    hide Chosen, TailsFrom;
    var first := if Tag(answers[0]) == tag then 1 else 0;
    if i >= first {
      ZeroFollowsExactly(rest, tag, end, i - first);
    }
  }

  lemma NoBody()
    ensures Body([]) == []
  {
  }

  lemma BeginsWithTag(answers: seq<Answer>)
    requires AllFit(answers) && answers != []
    ensures Body(answers) != [] && Body(answers)[0] == Tag(answers[0]) != 0
  {
    assert Body(answers)[0] == Serialise(answers[0])[0];
  }

  /** A string brings its zero, or it ends the packet and the checksum begins with a zero. */
  predicate BringsZero(answers: seq<Answer>, i: nat)
    requires IsSendable(answers) && i < |Values(answers)|
  {
    0 in Values(answers)[i].value || (IsLast(answers, 33, i) && Trailer(answers)[0] == 0)
  }

  ghost predicate AllTerminated(params: Params, answers: seq<Answer>)
    requires params.Even() && IsSendable(answers)
  {
    forall i | 0 <= i < |Values(answers)| ::
      KindIn(params, IdOf(Values(answers)[i])) == 3 ==> BringsZero(answers, i)
  }

  /** The rows of a packet by what its answers carry. */
  ghost function SentRows(params: Params, answers: seq<Answer>): seq<Row>
    requires params.Even() && IsSendable(answers) && KindsLegal(params, Values(answers))
  {
    if Values(answers) != [] then
      seq(|Values(answers)|, i requires 0 <= i < |Values(answers)| => SentRow(params, Values(answers)[i]))
    else StatusRows(Statuses(answers))
  }

  function SentRow(params: Params, answer: Answer): Row
    requires params.Even() && answer.ParamValue? && IsKind(KindIn(params, IdOf(answer)))
  {
    RowOf(answer, KindIn(params, IdOf(answer)))
  }

  lemma ValueAsSent(params: Params, answers: seq<Answer>, i: nat)
    requires params.Even() && IsSendable(answers) && i < |Values(answers)|
    requires IsKind(KindIn(params, IdOf(Values(answers)[i])))
    ensures var value, tail, t := Values(answers)[i], Tails(answers)[i], KindIn(params, IdOf(Values(answers)[i]));
            && ((t == 3 ==> BringsZero(answers, i)) ==> Ends(value, tail, t))
            && (Ends(value, tail, t) ==>
                  (RowIn(params, value, tail) == SentRow(params, value) <==> (t == 3 ==> BringsZero(answers, i))))
  {
    hide KindIn, RowRead, RowOf, Chosen, Message;
    var value, tail, t := Values(answers)[i], Tails(answers)[i], KindIn(params, IdOf(Values(answers)[i]));
    ZeroFollowsExactly(answers, 33, Trailer(answers), i);
    if Ends(value, tail, t) {
      CarriedExactly(value, tail, t);
    }
  }

  /** A packet that can be read at all is read as it was sent exactly if all its strings are
      terminated. */
  lemma ReadAsSent(params: Params, answers: seq<Answer>)
    requires params.Even() && IsSendable(answers) && KindsLegal(params, Values(answers))
    ensures AllTerminated(params, answers) ==> AllReadable(params, answers)
    ensures AllReadable(params, answers) ==>
              (PacketRows(params, answers) == SentRows(params, answers) <==> AllTerminated(params, answers))
  {
    hide KindIn, IsKind, BringsZero, Ends, RowIn, SentRow, IsSendable, Chosen;
    var values, tails := Values(answers), Tails(answers);
    forall i | 0 <= i < |values|
      ensures (KindIn(params, IdOf(values[i])) == 3 ==> BringsZero(answers, i)) ==>
                Ends(values[i], tails[i], KindIn(params, IdOf(values[i])))
      ensures Ends(values[i], tails[i], KindIn(params, IdOf(values[i]))) ==>
                (RowIn(params, values[i], tails[i]) == SentRow(params, values[i]) <==>
                 (KindIn(params, IdOf(values[i])) == 3 ==> BringsZero(answers, i)))
    {
      ValueAsSent(params, answers, i);
    }
    if AllReadable(params, answers) && values != [] {
      var read, sent := PacketRows(params, answers), SentRows(params, answers);
      assert forall i | 0 <= i < |values| :: read[i] == RowIn(params, values[i], tails[i]);
      assert forall i | 0 <= i < |values| :: sent[i] == SentRow(params, values[i]);
      if AllTerminated(params, answers) {
        assert read == sent;
      }
    }
  }
}
