/** What goes wrong in a Bitrek parameter exchange when the device repeats an answer, sends a value
    behind a status, or sends a string without its zero. */
module BitrekFaults {
  import opened Bytes
  import opened BitrekStream
  import opened BitrekAnswers
  import opened ParamTypes
  import opened ParamVectors
  import opened ParamExchange
  import opened BitrekParams
  import opened BitrekExchange
  import opened BitrekRun

  function Frame(answers: seq<Answer>): seq<byte>
    requires IsSendable(answers)
  {
    Short(Message(answers))
  }

  // ----- packets of one or two answers ------------------------------------------------------------

  lemma OneAnswerIsSendable(answer: Answer)
    requires Fits(answer)
    ensures IsSendable([answer])
    ensures Values([answer]) == (if answer.ParamValue? then [answer] else [])
    ensures Statuses([answer]) == (if answer.ParamStored? then [answer] else [])
  {
    assert [answer][1..] == [];
    assert Body([answer]) == Serialise(answer) + Body([]);
    assert Chosen([answer], 33) == if Tag(answer) == 33 then [answer] else [];
    assert Chosen([answer], 37) == if Tag(answer) == 37 then [answer] else [];
  }

  lemma AnswerSize(answer: Answer)
    requires Fits(answer)
    ensures |Serialise(answer)| <= 259
  {
  }

  lemma BodyOfTwo(first: Answer, second: Answer)
    requires Fits(first) && Fits(second)
    ensures AllFit([first, second]) && Body([first, second]) == Serialise(first) + Serialise(second)
  {
    hide Serialise, Fits;
    assert [first, second][1..] == [second] && [second][1..] == [];
    assert Body([second]) == Serialise(second) + Body([]) == Serialise(second);
  }

  lemma ValuesOfTwo(first: Answer, second: Answer)
    ensures Values([first, second]) == Values([first]) + Values([second])
  {
    hide Tag;
    var both := [first, second];
    assert both[1..] == [second] && both[0] == first;
    assert [first][1..] == [] && Chosen([], 33) == [];
    assert Chosen([first], 33) == if Tag(first) == 33 then [first] else [];
  }

  lemma TwoAnswersAreSendable(first: Answer, second: Answer)
    requires Fits(first) && Fits(second)
    ensures IsSendable([first, second])
    ensures Values([first, second]) == Values([first]) + Values([second])
  {
    hide Serialise, Fits, AllFit, Body, Values;
    AnswerSize(first);
    AnswerSize(second);
    BodyOfTwo(first, second);
    ValuesOfTwo(first, second);
  }

  /** A string brings its zero. */
  predicate IsComplete(params: Params, answer: Answer)
    requires params.Even() && answer.ParamValue?
  {
    var t := KindIn(params, IdOf(answer));
    Fits(answer) && IsKind(t) && (t == 3 ==> 0 in answer.value)
  }

  /** What such an answer brings. */
  function Brought(params: Params, answer: Answer): (row: Row)
    requires params.Even() && answer.ParamValue? && IsComplete(params, answer)
    ensures row.id == IdOf(answer)
  {
    SentRow(params, answer)
  }

  lemma ReadInFull(params: Params, answer: Answer, tail: seq<byte>)
    requires params.Even() && answer.ParamValue? && IsComplete(params, answer)
    ensures Ends(answer, tail, KindIn(params, IdOf(answer)))
    ensures IsKind(KindIn(params, IdOf(answer))) && RowIn(params, answer, tail) == Brought(params, answer)
  {
    hide KindIn, RowRead, RowOf;
    var t := KindIn(params, IdOf(answer));
    CarriedExactly(answer, tail, t);
  }

  lemma StatusAlone(e: Exchange, status: Answer)
    requires e.params.Even() && status.ParamStored?
    ensures IsSendable([status])
    ensures var middle := PutAll(e, [StatusRow(status)]);
            && Parse(e, Frame([status])) == Gathered(middle, middle.count == |e.params.ids|)
            && (IdOf(status) in e.params.ids ==> KindIn(middle.params, IdOf(status)) == 1)
  {
    OneAnswerIsSendable(status);
    hide IsSendable, Values, Statuses, Parse, PutAll, Short, Message, KindIn;
    assert StatusRows(Statuses([status])) == [StatusRow(status)];
    PacketIsGathered(e, [status]);
    KindAfterStatuses(e, [status], IdOf(status));
    assert Statuses([status])[0] == status;
  }

  lemma RowOfOne(params: Params, value: Answer)
    requires params.Even() && value.ParamValue? && IsComplete(params, value)
    ensures IsSendable([value]) && Values([value]) != []
    ensures KindsLegal(params, Values([value])) && AllReadable(params, [value])
    ensures PacketRows(params, [value]) == [Brought(params, value)]
  {
    OneAnswerIsSendable(value);
    hide IsSendable, Values, Tails, KindIn, RowIn, Brought, Ends, IsKind, Fits;
    ReadInFull(params, value, Tails([value])[0]);
  }

  lemma RowsOfTwo(params: Params, first: Answer, second: Answer)
    requires params.Even() && first.ParamValue? && second.ParamValue?
    requires IsComplete(params, first) && IsComplete(params, second)
    ensures var both := [first, second];
            && IsSendable(both) && Values(both) != []
            && KindsLegal(params, Values(both)) && AllReadable(params, both)
            && PacketRows(params, both) == [Brought(params, first), Brought(params, second)]
  {
    hide IsSendable, Values, Tails, KindIn, RowIn, Brought, Ends, IsKind;
    var both := [first, second];
    OneAnswerIsSendable(first);
    OneAnswerIsSendable(second);
    TwoAnswersAreSendable(first, second);
    hide Fits;
    assert Values(both) == both;
    ReadInFull(params, first, Tails(both)[0]);
    ReadInFull(params, second, Tails(both)[1]);
  }

  lemma ValueAlone(e: Exchange, value: Answer)
    requires e.params.Even() && value.ParamValue? && IsComplete(e.params, value)
    ensures IsSendable([value])
    ensures var after := PutAll(e, [Brought(e.params, value)]);
            Parse(e, Frame([value])) == Gathered(after, after.count == |e.params.ids|)
  {
    hide IsSendable, Values, AllReadable, KindsLegal, PacketRows, Parse, PutAll, Short, Message, IsComplete;
    RowOfOne(e.params, value);
    PacketIsGathered(e, [value]);
  }

  lemma ValuePair(e: Exchange, first: Answer, second: Answer)
    requires e.params.Even() && first.ParamValue? && second.ParamValue?
    requires IsComplete(e.params, first) && IsComplete(e.params, second)
    ensures IsSendable([first, second])
    ensures var after := PutAll(e, [Brought(e.params, first), Brought(e.params, second)]);
            Parse(e, Frame([first, second])) == Gathered(after, after.count == |e.params.ids|)
  {
    hide IsSendable, Values, AllReadable, KindsLegal, PacketRows, Parse, PutAll, Short, Message, IsComplete;
    RowsOfTwo(e.params, first, second);
    PacketIsGathered(e, [first, second]);
  }

  // ----- a repeated answer -------------------------------------------------------------------------

  lemma PutOne(e: Exchange, row: Row)
    requires e.params.Even()
    ensures PutAll(e, [row]) == Put(e, row)
  {
    assert [row][..0] == [] && PutAll(e, []) == e;
  }

  lemma PutTwo(e: Exchange, one: Row, two: Row)
    requires e.params.Even()
    ensures PutAll(e, [one, two]) == Put(Put(e, one), two)
  {
    PutOne(e, one);
    assert [one, two][..1] == [one];
  }

  /** A value that was put in leaves its kind, and complete values complete. */
  lemma PutKeeps(e: Exchange, value: Answer, other: Answer)
    requires e.params.Even() && value.ParamValue? && IsComplete(e.params, value) && other.ParamValue?
    ensures var after := Put(e, Brought(e.params, value));
            && KindIn(after.params, IdOf(other)) == KindIn(e.params, IdOf(other))
            && (IsComplete(after.params, other) <==> IsComplete(e.params, other))
            && (IsComplete(e.params, other) ==> Brought(after.params, other) == Brought(e.params, other))
  {
    KindPut(e, Brought(e.params, value), IdOf(other));
    hide KindIn, Put;
  }

  predicate HoldsRow(params: Params, i: nat, row: Row) {
    params.HasRow(i) && params.RowAt(i) == row
  }

  /** A device that answers the first of two ids twice: the second packet completes the exchange,
      and the slot of the other id is still as it was requested. */
  lemma RepeatCompletesEarly(e: Exchange, value: Answer, other: int)
    requires e.params.Even() && e.count == 0 && value.ParamValue? && IsComplete(e.params, value)
    requires e.params.ids == [IdOf(value), other] && other != IdOf(value)
    ensures IsSendable([value])
    ensures var once := Parse(e, Frame([value]));
            && once.Gathered? && !once.complete
            && var twice := Parse(once.next, Frame([value]));
            && twice.Gathered? && twice.complete
            && HoldsRow(twice.next.params, 1, e.params.RowAt(1))
  {
    hide Parse, KindIn, IsComplete, Brought, IsSendable, Frame, PutAll;
    ValueAlone(e, value);
    var row := Brought(e.params, value);
    PutOne(e, row);
    PutKeeps(e, value, value);
    var middle := Put(e, row);
    ValueAlone(middle, value);
    PutOne(middle, row);
  }

  /** A device that answers an id again together with the other: every id is answered and every
      slot holds its value, but the counter has passed the number of ids. */
  lemma RepeatNeverCompletes(e: Exchange, first: Answer, second: Answer)
    requires e.params.Even() && e.count == 0 && first.ParamValue? && second.ParamValue?
    requires IsComplete(e.params, first) && IsComplete(e.params, second)
    requires e.params.ids == [IdOf(first), IdOf(second)] && IdOf(first) != IdOf(second)
    ensures IsSendable([first]) && IsSendable([first, second])
    ensures var once := Parse(e, Frame([first]));
            && once.Gathered? && !once.complete
            && var twice := Parse(once.next, Frame([first, second]));
            && twice.Gathered? && !twice.complete && twice.next.count == 3
            && twice.next.params.ids == e.params.ids
            && HoldsRow(twice.next.params, 0, Brought(e.params, first))
            && HoldsRow(twice.next.params, 1, Brought(e.params, second))
  {
    hide Parse, KindIn, IsComplete, Brought, IsSendable, Frame, PutAll;
    ValueAlone(e, first);
    var one, two := Brought(e.params, first), Brought(e.params, second);
    PutOne(e, one);
    PutKeeps(e, first, first);
    PutKeeps(e, first, second);
    var middle := Put(e, one);
    ValuePair(middle, first, second);
    PutTwo(middle, one, two);
  }

  lemma {:induction false} MergeCounts(e: Exchange, res: Params, n: nat)
    requires n <= |res.ids|
    ensures var next := MergeUpTo(e, res, n);
            next.Some? ==> next.value.count >= e.count && next.value.params.ids == e.params.ids
  {
    hide MergeOne;
    if n > 0 {
      MergeCounts(e, res, n - 1);
      var before := MergeUpTo(e, res, n - 1);
      if before.Some? {
        MergeOneCounts(before.value, res, n - 1);
      }
    }
  }

  lemma MergeOneCounts(e: Exchange, res: Params, i: nat)
    requires i < |res.ids|
    ensures var next := MergeOne(e, res, i);
            next.Some? ==> next.value.count >= e.count && next.value.params.ids == e.params.ids
  {
  }

  lemma ParseCounts(e: Exchange, ud: seq<byte>)
    ensures var parsed := Parse(e, ud);
            parsed.Gathered? ==>
              && parsed.next.count >= e.count && parsed.next.params.ids == e.params.ids
              && (parsed.complete <==> parsed.next.count == |e.params.ids|)
  {
    hide ShortCrcMatches, Found, GetUpTo, SetUpTo, MergeUpTo;
    if Accepts(ud) {
      var got := GetUpTo(e.params, ud[4..], Found(ud[4..], 33).found);
      var stored := SetUpTo(ud[4..], Found(ud[4..], 37).found);
      if got.Some? {
        MergeCounts(e, got.value, |got.value.ids|);
      }
      if stored.Some? {
        MergeCounts(e, stored.value, |stored.value.ids|);
      }
    }
  }

  lemma {:induction false} RunCounts(e: Exchange, uds: seq<seq<byte>>)
    ensures var after := After(e, uds);
            after.Some? ==> after.value.count >= e.count && after.value.params.ids == e.params.ids
  {
    hide Parse;
    if uds != [] {
      var n := |uds| - 1;
      RunCounts(e, uds[..n]);
      if After(e, uds[..n]).Some? {
        ParseCounts(After(e, uds[..n]).value, uds[n]);
      }
    }
  }

  /** Once the counter has passed the number of ids, no bytes whatever complete the exchange. */
  lemma OverfullNeverCompletes(e: Exchange, uds: seq<seq<byte>>, ud: seq<byte>)
    requires e.count > |e.params.ids| && After(e, uds).Some?
    ensures var parsed := Parse(After(e, uds).value, ud); parsed.Gathered? ==> !parsed.complete
  {
    hide Parse, After;
    RunCounts(e, uds);
    ParseCounts(After(e, uds).value, ud);
  }

  // ----- a value behind a status ---------------------------------------------------------------------

  /** A value that follows a status for its id is read as a single byte, whatever kind was
      requested. */
  lemma StatusThenValue(e: Exchange, status: Answer, value: Answer)
    requires e.params.Even() && status.ParamStored? && value.ParamValue? && Fits(value)
    requires IdOf(status) == IdOf(value) && IdOf(value) in e.params.ids
    ensures IsSendable([status]) && IsSendable([value])
    ensures After(e, Framed([[status], [value]])) == Some(PutAll(e, [StatusRow(status)] + [RowOf(value, 1)]))
    ensures !KeepsKind(e.params, [[status]], IdOf(value)) <==> KindIn(e.params, IdOf(value)) != 1
  {
    hide IsSendable, Parse, KindIn, PutAll, Short, Message, Framed, After, RowOf, StatusRow, KeepsKind;
    StatusAlone(e, status);
    var middle := PutAll(e, [StatusRow(status)]);
    ValueAlone(middle, value);
    PutAllConcat(e, [StatusRow(status)], [RowOf(value, 1)]);
    FramedTwo([[status], [value]]);
    AfterTwo(e, Frame([status]), Frame([value]), middle, PutAll(middle, [RowOf(value, 1)]));
    LosesKind(e.params, status, IdOf(value));
  }

  lemma LosesKind(params: Params, status: Answer, id: int)
    requires params.Even() && status.ParamStored? && id == IdOf(status) && id in params.ids
    ensures !KeepsKind(params, [[status]], id) <==> KindIn(params, id) != 1
  {
    OneAnswerIsSendable(status);
    hide KindIn, IdOf, IsSendable, Chosen;
    assert Statuses([status])[0] == status;
    assert StatusIn([status], id) && StatusIn([[status]][0], id);
  }

  lemma AfterNext(e: Exchange, uds: seq<seq<byte>>, ud: seq<byte>, next: Exchange)
    requires After(e, uds).Some?
    requires var parsed := Parse(After(e, uds).value, ud); parsed.Gathered? && parsed.next == next
    ensures After(e, uds + [ud]) == Some(next)
  {
    hide Parse;
    assert (uds + [ud])[..|uds|] == uds;
  }

  lemma FramedTwo(packets: seq<seq<Answer>>)
    requires |packets| == 2 && forall k | 0 <= k < 2 :: IsSendable(packets[k])
    ensures Framed(packets) == [Frame(packets[0]), Frame(packets[1])]
  {
    hide IsSendable, Short, Message, Framed;
    LastFrame(packets);
    LastFrame(packets[..1]);
    var uds := Framed(packets);
    assert uds[0] == uds[..1][0] == Framed(packets[..1])[0];
  }

  lemma AfterTwo(e: Exchange, one: seq<byte>, two: seq<byte>, middle: Exchange, end: Exchange)
    requires var parsed := Parse(e, one); parsed.Gathered? && parsed.next == middle
    requires var parsed := Parse(middle, two); parsed.Gathered? && parsed.next == end
    ensures After(e, [one, two]) == Some(end)
  {
    hide Parse;
    assert After(e, []) == Some(e);
    AfterNext(e, [], one, middle);
    assert [] + [one] == [one] && [one] + [two] == [one, two];
    AfterNext(e, [one], two, end);
  }

  // ----- a string without its zero -------------------------------------------------------------------

  lemma TailOfFirst(value: Answer, status: Answer)
    requires value.ParamValue? && status.ParamStored? && Fits(value)
    ensures var both := [value, status];
            && IsSendable(both) && Values(both) == [value]
            && Tails(both) == [Serialise(status) + Trailer(both)]
  {
    TwoAnswersAreSendable(value, status);
    OneAnswerIsSendable(value);
    OneAnswerIsSendable(status);
    var both := [value, status];
    assert both[1..] == [status] && [status][1..] == [];
    assert Body([status]) == Serialise(status) + Body([]) == Serialise(status);
  }

  lemma TextOfFirst(tail: seq<byte>)
    requires |tail| > 2 && tail[0] == 37 && tail[1] == 0
    ensures UpToNul([65] + tail) == [65, 37] && 0 in [65] + tail
  {
    var s := [65] + tail;
    assert s[0] == 65 && s[1..][0] == 37 && s[1..][1..][0] == 0;
    assert s[2] == 0;
    assert UpToNul(s[1..][1..]) == [];
  }

  lemma StringIsKind3(params: Params)
    requires params.Even() && params.ids == [20] && params.types == [3]
    ensures KindIn(params, 20) == 3
  {
  }

  lemma RowOfFirst(params: Params, status: Answer)
    requires params.Even() && params.ids == [20] && params.types == [3] && status.ParamStored? && status.high == 0
    ensures var both := [ParamValue(0, 20, [65]), status];
            && IsSendable(both) && Values(both) != []
            && KindsLegal(params, Values(both)) && AllReadable(params, both)
            && PacketRows(params, both) == [Row(20, 3, 0, 0, [65, 37], 0)]
  {
    hide IsSendable, Values, Tails, Trailer, UpToNul, KindIn, RowOf;
    var value := ParamValue(0, 20, [65]);
    var both := [value, status];
    TailOfFirst(value, status);
    var tail := Tails(both)[0];
    TextOfFirst(tail);
    StringIsKind3(params);
    hide Serialise;
    assert RowIn(params, value, tail) == Row(20, 3, 0, 0, [65, 37], 0);
    assert PacketRows(params, both) == [RowIn(params, value, tail)];
  }

  /** The string "A" without a zero, in front of a status: the slot ends up with "A%", where the
      percent sign is the tag of the status. */
  lemma StringReadsOn()
    ensures var answers := [ParamValue(0, 20, [65]), ParamStored(0, 1, 0)];
            && IsSendable(answers)
            && var parsed := Parse(Exchange(Params(false, [20], [3], [0], [0], [[]], [0]), 0), Frame(answers));
            && parsed.Gathered? && parsed.complete && parsed.next.params.strs == [[65, 37]]
  {
    var params := Params(false, [20], [3], [0], [0], [[]], [0]);
    FirstIsParsed(Exchange(params, 0), ParamStored(0, 1, 0));
    hide IsSendable, Parse, Frame;
    assert FirstIndex(params.ids, 20) == 0;
  }

  lemma FirstIsParsed(e: Exchange, status: Answer)
    requires e.params.Even() && e.params.ids == [20] && e.params.types == [3]
    requires status.ParamStored? && status.high == 0
    ensures var both := [ParamValue(0, 20, [65]), status];
            && IsSendable(both)
            && var next := Put(e, Row(20, 3, 0, 0, [65, 37], 0));
               Parse(e, Frame(both)) == Gathered(next, next.count == 1)
  {
    hide IsSendable, Values, Tails, Parse, Short, Message, AllReadable, KindsLegal, PacketRows, Put, PutAll;
    RowOfFirst(e.params, status);
    PacketIsGathered(e, [ParamValue(0, 20, [65]), status]);
    PutOne(e, Row(20, 3, 0, 0, [65, 37], 0));
  }
}
