/** A Bitrek parameter exchange over any number of packets. */
module BitrekRun {
  import opened Bytes
  import opened BitrekStream
  import opened BitrekAnswers
  import opened ParamTypes
  import opened ParamVectors
  import opened ParamExchange
  import opened BitrekParams
  import opened BitrekExchange
  import opened SortedLists

  // ----- runs of packets ----------------------------------------------------------------------

  /** The exchange after the packets have been parsed one after the other; None when one of them
      made the source read outside its data. */
  function After(e: Exchange, uds: seq<seq<byte>>): Option<Exchange> {
    if uds == [] then Some(e)
    else
      var before := After(e, uds[..|uds| - 1]);
      if before.None? then None
      else
        match Parse(before.value, uds[|uds| - 1])
        case Refused => before
        case Overread => None
        case Gathered(next, _) => Some(next)
  }

  function Framed(packets: seq<seq<Answer>>): (uds: seq<seq<byte>>)
    requires forall k | 0 <= k < |packets| :: IsSendable(packets[k])
    ensures |uds| == |packets|
  {
    if packets == [] then []
    else
      var n := |packets| - 1;
      assert IsSendable(packets[n]);
      Framed(packets[..n]) + [Short(Message(packets[n]))]
  }

  /** A packet that can be framed and whose values are of kinds 1 to 4. */
  ghost predicate IsLegal(params: Params, answers: seq<Answer>)
    requires params.Even()
  {
    IsSendable(answers) && KindsLegal(params, Values(answers))
  }

  ghost predicate IsRun(params: Params, packets: seq<seq<Answer>>)
    requires params.Even()
  {
    forall k | 0 <= k < |packets| :: IsLegal(params, packets[k])
  }

  ghost predicate ReadsWhole(params: Params, answers: seq<Answer>)
    requires params.Even()
  {
    IsLegal(params, answers) && AllReadable(params, answers)
  }

  /** All strings of the run come to an end inside their packets. */
  ghost predicate IsReadable(params: Params, packets: seq<seq<Answer>>)
    requires params.Even()
  {
    forall k | 0 <= k < |packets| :: ReadsWhole(params, packets[k])
  }

  /** What is read from the packets by the kinds of the request. */
  ghost function RunRows(params: Params, packets: seq<seq<Answer>>): seq<Row>
    requires params.Even() && IsRun(params, packets)
  {
    if packets == [] then []
    else
      var n := |packets| - 1;
      assert IsLegal(params, packets[n]);
      RunRows(params, packets[..n]) + PacketRows(params, packets[n])
  }

  lemma LastRows(params: Params, packets: seq<seq<Answer>>)
    requires params.Even() && IsRun(params, packets) && packets != []
    ensures var n := |packets| - 1;
            && IsRun(params, packets[..n]) && IsLegal(params, packets[n])
            && RunRows(params, packets) == RunRows(params, packets[..n]) + PacketRows(params, packets[n])
  {
    hide IsLegal, PacketRows;
    assert IsLegal(params, packets[|packets| - 1]);
  }

  lemma LastReads(params: Params, packets: seq<seq<Answer>>)
    requires params.Even() && IsRun(params, packets) && packets != []
    ensures var n := |packets| - 1;
            && IsLegal(params, packets[n])
            && (IsReadable(params, packets) <==>
                IsReadable(params, packets[..n]) && AllReadable(params, packets[n]))
  {
    hide ReadsWhole, IsLegal, AllReadable;
    var n := |packets| - 1;
    assert IsLegal(params, packets[n]);
    ReadsWholeIs(params, packets[n]);
    if IsReadable(params, packets) {
      assert forall k | 0 <= k < n :: packets[..n][k] == packets[k];
    }
    if IsReadable(params, packets[..n]) && ReadsWhole(params, packets[n]) {
      forall k | 0 <= k < |packets|
        ensures ReadsWhole(params, packets[k])
      {
        assert k < n ==> packets[..n][k] == packets[k];
      }
    }
  }

  lemma ReadsWholeIs(params: Params, answers: seq<Answer>)
    requires params.Even() && IsLegal(params, answers)
    ensures IsSendable(answers)
    ensures ReadsWhole(params, answers) <==> AllReadable(params, answers)
  {
  }

  lemma LastFrame(packets: seq<seq<Answer>>)
    requires (forall k | 0 <= k < |packets| :: IsSendable(packets[k])) && packets != []
    ensures var n := |packets| - 1;
            && Framed(packets)[n] == Short(Message(packets[n]))
            && Framed(packets)[..n] == Framed(packets[..n])
  {
    hide IsSendable, Short, Message;
  }

  // ----- the kind a value is read by -----------------------------------------------------------

  /** Packets without values are looked through for statuses, and putting in a status sets the kind
      of its slot to 1. */
  predicate StatusIn(answers: seq<Answer>, id: int) {
    Values(answers) == [] && exists i :: 0 <= i < |Statuses(answers)| && IdOf(Statuses(answers)[i]) == id
  }

  predicate StatusCame(packets: seq<seq<Answer>>, id: int) {
    exists k :: 0 <= k < |packets| && StatusIn(packets[k], id)
  }

  /** A value for this id is read by the kind its request gave. */
  predicate KeepsKind(params: Params, packets: seq<seq<Answer>>, id: int)
    requires params.Even()
  {
    id in params.ids && StatusCame(packets, id) ==> KindIn(params, id) == 1
  }

  predicate KeepsKinds(params: Params, packets: seq<seq<Answer>>, answers: seq<Answer>)
    requires params.Even()
  {
    forall i | 0 <= i < |Values(answers)| :: KeepsKind(params, packets, IdOf(Values(answers)[i]))
  }

  /** No value follows a status for the same requested id, unless the kind of the id is 1 anyway. */
  predicate KindsKept(params: Params, packets: seq<seq<Answer>>)
    requires params.Even()
  {
    forall k | 0 <= k < |packets| :: KeepsKinds(params, packets[..k], packets[k])
  }

  /** The kind of an id after some rows is that of its last row. */
  function KindOr(rows: seq<Row>, id: int, kind: int): int {
    match LastFor(rows, id)
    case None => kind
    case Some(row) => row.kind
  }

  lemma {:induction false} KindAfter(e: Exchange, rows: seq<Row>, id: int)
    requires e.params.Even()
    ensures KindIn(PutAll(e, rows).params, id) ==
            if id in e.params.ids then KindOr(rows, id, KindIn(e.params, id)) else KindIn(e.params, id)
  {
    hide Answered, TypeForParam;
    if rows != [] {
      var n := |rows| - 1;
      KindAfter(e, rows[..n], id);
      assert PutAll(e, rows) == Put(PutAll(e, rows[..n]), rows[n]);
      hide PutAll;
      KindPut(PutAll(e, rows[..n]), rows[n], id);
    }
  }

  lemma KindPut(e: Exchange, row: Row, id: int)
    requires e.params.Even()
    ensures KindIn(Put(e, row).params, id) ==
            if row.id == id && id in e.params.ids then row.kind else KindIn(e.params, id)
  {
    hide TypeForParam;
  }

  /** Values leave the kinds they were read by. */
  lemma KindAfterValues(e: Exchange, values: seq<Answer>, tails: seq<seq<byte>>, id: int)
    requires e.params.Even() && AllValues(values) && |tails| == |values| && KindsLegal(e.params, values)
    ensures KindIn(PutAll(e, ValueRows(e.params, values, tails)).params, id) == KindIn(e.params, id)
  {
    var rows := ValueRows(e.params, values, tails);
    KindAfter(e, rows, id);
    hide PutAll, KindIn, Answered, IsKind;
    if LastFor(rows, id).Some? {
      var k :| 0 <= k < |rows| && rows[k] == LastFor(rows, id).value;
      RowFits(e.params, values[k], tails[k]);
    }
  }

  lemma RowFits(params: Params, answer: Answer, tail: seq<byte>)
    requires params.Even() && answer.ParamValue? && IsKind(KindIn(params, IdOf(answer)))
    ensures var row := RowIn(params, answer, tail);
            row.id == IdOf(answer) && row.kind == KindIn(params, IdOf(answer))
  {
    hide KindIn, IdOf;
  }

  /** Statuses leave kind 1 behind. */
  lemma KindAfterStatuses(e: Exchange, answers: seq<Answer>, id: int)
    requires e.params.Even() && Values(answers) == []
    ensures KindIn(PutAll(e, StatusRows(Statuses(answers))).params, id) ==
            if id in e.params.ids && StatusIn(answers, id) then 1 else KindIn(e.params, id)
  {
    var rows := StatusRows(Statuses(answers));
    KindAfter(e, rows, id);
    hide PutAll, KindIn, Statuses;
    if StatusIn(answers, id) {
      var i :| 0 <= i < |Statuses(answers)| && IdOf(Statuses(answers)[i]) == id;
      assert rows[i].id == id;
    }
  }

  /** A packet read by other kinds that agree on its ids brings the same rows. */
  lemma SameRows(a: Params, b: Params, answers: seq<Answer>)
    requires a.Even() && b.Even() && IsSendable(answers) && KindsLegal(a, Values(answers))
    requires forall i | 0 <= i < |Values(answers)| ::
               KindIn(a, IdOf(Values(answers)[i])) == KindIn(b, IdOf(Values(answers)[i]))
    ensures KindsLegal(b, Values(answers)) && PacketRows(a, answers) == PacketRows(b, answers)
    ensures AllReadable(a, answers) <==> AllReadable(b, answers)
  {
    hide KindIn, IsKind, Ends, RowRead, IdOf, IsSendable;
    assert KindsLegal(b, Values(answers));
    assert ValueRows(a, Values(answers), Tails(answers)) == ValueRows(b, Values(answers), Tails(answers));
  }

  // ----- the whole run ---------------------------------------------------------------------------

  lemma StatusCameLast(packets: seq<seq<Answer>>, id: int)
    requires packets != []
    ensures var n := |packets| - 1;
            StatusCame(packets, id) <==> StatusCame(packets[..n], id) || StatusIn(packets[n], id)
  {
    hide StatusIn;
    var n := |packets| - 1;
    if StatusCame(packets[..n], id) {
      var k :| 0 <= k < n && StatusIn(packets[..n][k], id);
      assert StatusIn(packets[k], id);
    }
    if StatusCame(packets, id) && !StatusIn(packets[n], id) {
      var k :| 0 <= k < |packets| && StatusIn(packets[k], id);
      assert packets[..n][k] == packets[k];
    }
  }

  lemma KeptBefore(params: Params, packets: seq<seq<Answer>>)
    requires params.Even() && KindsKept(params, packets) && packets != []
    ensures var n := |packets| - 1;
            KindsKept(params, packets[..n]) && KeepsKinds(params, packets[..n], packets[n])
  {
    hide KeepsKinds;
    var n := |packets| - 1;
    forall k | 0 <= k < n
      ensures KeepsKinds(params, packets[..n][..k], packets[..n][k])
    {
      assert packets[..n][..k] == packets[..k] && packets[..n][k] == packets[k];
    }
  }

  /** The kind of an id in the middle of a run. */
  lemma {:induction false} KindInRun(e: Exchange, packets: seq<seq<Answer>>, id: int)
    requires e.params.Even() && IsRun(e.params, packets) && KindsKept(e.params, packets)
    ensures KindIn(PutAll(e, RunRows(e.params, packets)).params, id) ==
            if id in e.params.ids && StatusCame(packets, id) then 1 else KindIn(e.params, id)
    decreases |packets|, 0
  {
    hide KindIn, PutAll, StatusIn, AllReadable, PacketRows, KindsKept, KeepsKinds, IsRun, IsReadable;
    if packets == [] {
      NothingPut(e);
    } else {
      var n := |packets| - 1;
      LastRows(e.params, packets);
      KeptBefore(e.params, packets);
      StatusCameLast(packets, id);
      KindInRun(e, packets[..n], id);
      NextPacket(e, packets[..n], packets[n]);
      hide RunRows, StatusCame;
      var rows := RunRows(e.params, packets[..n]);
      PutAllConcat(e, rows, PacketRows(e.params, packets[n]));
      KindAfterPacket(PutAll(e, rows), packets[n], id);
    }
  }

  lemma NothingPut(e: Exchange)
    requires e.params.Even()
    ensures PutAll(e, []) == e
  {
  }

  lemma KindAfterPacket(e: Exchange, answers: seq<Answer>, id: int)
    requires e.params.Even() && IsLegal(e.params, answers)
    ensures KindIn(PutAll(e, PacketRows(e.params, answers)).params, id) ==
            if id in e.params.ids && StatusIn(answers, id) then 1 else KindIn(e.params, id)
  {
    hide KindIn, PutAll, IsSendable, KindsLegal;
    if Values(answers) != [] {
      KindAfterValues(e, Values(answers), Tails(answers), id);
    } else {
      KindAfterStatuses(e, answers, id);
    }
  }

  /** The next packet brings the rows it would have brought first. */
  lemma {:induction false} NextPacket(e: Exchange, packets: seq<seq<Answer>>, answers: seq<Answer>)
    requires e.params.Even() && IsRun(e.params, packets) && KindsKept(e.params, packets)
    requires IsLegal(e.params, answers) && KeepsKinds(e.params, packets, answers)
    ensures var before := PutAll(e, RunRows(e.params, packets));
            && KindsLegal(before.params, Values(answers))
            && PacketRows(before.params, answers) == PacketRows(e.params, answers)
            && (AllReadable(before.params, answers) <==> AllReadable(e.params, answers))
    decreases |packets|, 1
  {
    hide KindIn, PutAll, StatusCame, RunRows, KindsKept, IsRun, AllReadable, PacketRows, IdOf, KindsLegal;
    hide IsSendable;
    var before := PutAll(e, RunRows(e.params, packets));
    forall i | 0 <= i < |Values(answers)|
      ensures KindIn(e.params, IdOf(Values(answers)[i])) == KindIn(before.params, IdOf(Values(answers)[i]))
    {
      KindInRun(e, packets, IdOf(Values(answers)[i]));
      assert KeepsKind(e.params, packets, IdOf(Values(answers)[i]));
    }
    SameRows(e.params, before.params, answers);
  }

  /** In the middle of a run a value would be read by the kind its request gave exactly when no
      status for its id has come, or that kind is 1, or the id was not requested. */
  lemma KindKeptExactly(e: Exchange, packets: seq<seq<Answer>>, id: int)
    requires e.params.Even() && IsRun(e.params, packets) && KindsKept(e.params, packets)
    ensures KindIn(PutAll(e, RunRows(e.params, packets)).params, id) == KindIn(e.params, id) <==>
            KeepsKind(e.params, packets, id)
  {
    hide KindIn, PutAll, StatusCame, RunRows, KindsKept, IsRun;
    KindInRun(e, packets, id);
  }

  /** No answer in the packet concerns a parameter. */
  predicate IsSilent(answers: seq<Answer>) {
    Values(answers) == [] && Statuses(answers) == []
  }

  /** What the parser says of a packet that leads to this exchange. */
  function Outcome(answers: seq<Answer>, readable: bool, after: Exchange): Parsed {
    if IsSilent(answers) then Refused
    else if !readable then Overread
    else Gathered(after, after.count == |after.params.ids|)
  }

  lemma NextParse(e: Exchange, rows: seq<Row>, answers: seq<Answer>)
    requires e.params.Even() && IsLegal(e.params, answers)
    requires var before := PutAll(e, rows);
             && KindsLegal(before.params, Values(answers))
             && PacketRows(before.params, answers) == PacketRows(e.params, answers)
             && (AllReadable(before.params, answers) <==> AllReadable(e.params, answers))
    ensures var before, after := PutAll(e, rows), PutAll(e, rows + PacketRows(e.params, answers));
            && Parse(before, Short(Message(answers))) == Outcome(answers, AllReadable(e.params, answers), after)
            && (IsSilent(answers) ==> before == after && AllReadable(e.params, answers))
  {
    hide Parse, PutAll, AllReadable, PacketRows, Short, Message, KindsLegal, IsSendable;
    var more := PacketRows(e.params, answers);
    PutAllConcat(e, rows, more);
    PacketIsGathered(PutAll(e, rows), answers);
    if IsSilent(answers) {
      NoRows(e.params, answers);
      assert rows + more == rows;
    }
  }

  lemma NoRows(params: Params, answers: seq<Answer>)
    requires params.Even() && IsLegal(params, answers) && IsSilent(answers)
    ensures PacketRows(params, answers) == [] && AllReadable(params, answers)
  {
  }

  lemma LastPacket(e: Exchange, packets: seq<seq<Answer>>)
    requires e.params.Even() && IsRun(e.params, packets) && KindsKept(e.params, packets) && packets != []
    ensures var n := |packets| - 1;
            && IsRun(e.params, packets[..n]) && IsLegal(e.params, packets[n])
            && var before, after := PutAll(e, RunRows(e.params, packets[..n])), PutAll(e, RunRows(e.params, packets));
            && Parse(before, Framed(packets)[n]) == Outcome(packets[n], AllReadable(e.params, packets[n]), after)
            && (IsSilent(packets[n]) ==> before == after && AllReadable(e.params, packets[n]))
  {
    hide Parse, PutAll, RunRows, AllReadable, PacketRows, IsRun, Framed, Short, Message, KindsKept, KeepsKinds;
    hide IsReadable, KindsLegal, IsSendable, IsSilent;
    var n := |packets| - 1;
    LastRows(e.params, packets);
    LegalIsSendable(e.params, packets);
    LastFrame(packets);
    KeptBefore(e.params, packets);
    NextPacket(e, packets[..n], packets[n]);
    NextParse(e, RunRows(e.params, packets[..n]), packets[n]);
  }

  lemma LegalIsSendable(params: Params, packets: seq<seq<Answer>>)
    requires params.Even() && IsRun(params, packets)
    ensures forall k | 0 <= k < |packets| :: IsSendable(packets[k])
  {
    hide IsSendable, KindsLegal;
    forall k | 0 <= k < |packets|
      ensures IsSendable(packets[k])
    {
      assert IsLegal(params, packets[k]);
    }
  }

  /** After any number of packets, in any mixture, the exchange is the request with all their rows
      put in, unless one of their strings had no end. */
  lemma {:induction false} RunIsGathered(e: Exchange, packets: seq<seq<Answer>>)
    requires e.params.Even() && IsRun(e.params, packets) && KindsKept(e.params, packets)
    ensures After(e, Framed(packets)) ==
            if IsReadable(e.params, packets) then Some(PutAll(e, RunRows(e.params, packets))) else None
  {
    hide IsRun, RunRows, Parse, PutAll, IsSilent, Framed, KindsKept, KeepsKinds, IsSendable, IsLegal, IsReadable;
    hide AllReadable;
    LegalIsSendable(e.params, packets);
    if packets == [] {
      NothingCame(e);
    } else {
      LastReads(e.params, packets);
      LastFrame(packets);
      KeptBefore(e.params, packets);
      LastPacket(e, packets);
      RunIsGathered(e, packets[..|packets| - 1]);
    }
  }

  lemma NothingCame(e: Exchange)
    requires e.params.Even()
    ensures IsReadable(e.params, [])
    ensures After(e, Framed([])) == Some(PutAll(e, RunRows(e.params, [])))
  {
  }

  // ----- when no id is answered twice --------------------------------------------------------------

  lemma StatusIsAnswer(params: Params, answers: seq<Answer>, id: int)
    requires params.Even() && IsLegal(params, answers) && StatusIn(answers, id)
    ensures Answered(PacketRows(params, answers), id)
  {
    hide Statuses;
    var i :| 0 <= i < |Statuses(answers)| && IdOf(Statuses(answers)[i]) == id;
    assert PacketRows(params, answers)[i].id == id;
  }

  lemma ValueIsAnswer(params: Params, answers: seq<Answer>, i: nat)
    requires params.Even() && IsLegal(params, answers) && i < |Values(answers)|
    ensures Answered(PacketRows(params, answers), IdOf(Values(answers)[i]))
  {
    hide KindIn, IsKind, IdOf, RowIn, IsSendable;
    RowFits(params, Values(answers)[i], Tails(answers)[i]);
    assert PacketRows(params, answers)[i] == RowIn(params, Values(answers)[i], Tails(answers)[i]);
  }

  lemma AnsweredConcat(a: seq<Row>, b: seq<Row>, id: int)
    ensures Answered(a + b, id) <==> Answered(a, id) || Answered(b, id)
  {
    var c := a + b;
    assert forall k | 0 <= k < |a| :: c[k] == a[k];
    assert forall k | 0 <= k < |b| :: c[|a| + k] == b[k];
    if Answered(c, id) && !Answered(a, id) {
      var k :| 0 <= k < |c| && c[k].id == id;
      assert b[k - |a|].id == id;
    }
  }

  lemma {:induction false} StatusesAreAnswers(params: Params, packets: seq<seq<Answer>>, id: int)
    requires params.Even() && IsRun(params, packets) && StatusCame(packets, id)
    ensures Answered(RunRows(params, packets), id)
  {
    hide StatusIn, PacketRows, AllReadable, IsReadable, KindsLegal, IsSendable, Answered;
    var n := |packets| - 1;
    LastRows(params, packets);
    StatusCameLast(packets, id);
    AnsweredConcat(RunRows(params, packets[..n]), PacketRows(params, packets[n]), id);
    if StatusCame(packets[..n], id) {
      StatusesAreAnswers(params, packets[..n], id);
    } else {
      StatusIsAnswer(params, packets[n], id);
    }
  }

  lemma DistinctParts(a: seq<int>, b: seq<int>)
    requires Distinct(a + b)
    ensures Distinct(a) && forall x :: x in a ==> x !in b
  {
    var c := a + b;
    assert forall k | 0 <= k < |a| :: c[k] == a[k];
    assert forall k | 0 <= k < |b| :: c[|a| + k] == b[k];
  }

  /** If no requested id is answered twice, every value is read by the kind of its request. */
  lemma {:induction false} NoRepeatKeepsKinds(params: Params, packets: seq<seq<Answer>>)
    requires params.Even() && IsRun(params, packets)
    requires Distinct(MatchedIds(params.ids, RunRows(params, packets)))
    ensures KindsKept(params, packets)
  {
    hide RunRows, PacketRows, AllReadable, IsReadable, KindsLegal, IsSendable, Answered, KeepsKinds, Distinct, IsRun;
    if packets != [] {
      var n := |packets| - 1;
      LastRows(params, packets);
      var a, b := RunRows(params, packets[..n]), PacketRows(params, packets[n]);
      MatchedConcat(params.ids, a, b);
      DistinctParts(MatchedIds(params.ids, a), MatchedIds(params.ids, b));
      NoRepeatKeepsKinds(params, packets[..n]);
      LastKeepsKinds(params, packets);
      KeptAfter(params, packets);
    }
  }

  lemma LastKeepsKinds(params: Params, packets: seq<seq<Answer>>)
    requires params.Even() && IsRun(params, packets) && packets != []
    requires var n := |packets| - 1;
             && IsRun(params, packets[..n]) && IsLegal(params, packets[n])
             && var a, b := RunRows(params, packets[..n]), PacketRows(params, packets[n]);
             && forall x :: x in MatchedIds(params.ids, a) ==> x !in MatchedIds(params.ids, b)
    ensures KeepsKinds(params, packets[..|packets| - 1], packets[|packets| - 1])
  {
    hide RunRows, PacketRows, AllReadable, IsReadable, KindsLegal, IsSendable, Answered, IsRun, StatusCame;
    hide KindIn, IdOf;
    var n := |packets| - 1;
    var values := Values(packets[n]);
    forall i | 0 <= i < |values|
      ensures KeepsKind(params, packets[..n], IdOf(values[i]))
    {
      var id := IdOf(values[i]);
      ValueIsAnswer(params, packets[n], i);
      assert id in params.ids ==> id in MatchedIds(params.ids, PacketRows(params, packets[n]));
      var before := RunRows(params, packets[..n]);
      assert id in params.ids && Answered(before, id) ==> id in MatchedIds(params.ids, before);
      if StatusCame(packets[..n], id) {
        StatusesAreAnswers(params, packets[..n], id);
      }
    }
  }

  lemma KeptAfter(params: Params, packets: seq<seq<Answer>>)
    requires params.Even() && packets != []
    requires KindsKept(params, packets[..|packets| - 1])
    requires KeepsKinds(params, packets[..|packets| - 1], packets[|packets| - 1])
    ensures KindsKept(params, packets)
  {
    hide KeepsKinds;
    var n := |packets| - 1;
    forall k | 0 <= k < |packets|
      ensures KeepsKinds(params, packets[..k], packets[k])
    {
      if k < n {
        assert packets[..n][..k] == packets[..k] && packets[..n][k] == packets[k];
      }
    }
  }

  // ----- what was sent ---------------------------------------------------------------------------

  ghost predicate IsWhole(params: Params, answers: seq<Answer>)
    requires params.Even()
  {
    IsLegal(params, answers) && AllTerminated(params, answers)
  }

  /** Every string of the run brings its zero, or ends its packet in front of a zero. */
  ghost predicate IsTerminated(params: Params, packets: seq<seq<Answer>>)
    requires params.Even()
  {
    forall k | 0 <= k < |packets| :: IsWhole(params, packets[k])
  }

  /** What the packets carry, by the kinds of the request. */
  ghost function RunSent(params: Params, packets: seq<seq<Answer>>): seq<Row>
    requires params.Even() && IsRun(params, packets)
  {
    if packets == [] then []
    else
      var n := |packets| - 1;
      assert IsLegal(params, packets[n]);
      RunSent(params, packets[..n]) + SentRows(params, packets[n])
  }

  lemma LastSent(params: Params, packets: seq<seq<Answer>>)
    requires params.Even() && IsRun(params, packets) && packets != []
    ensures var n := |packets| - 1;
            && IsRun(params, packets[..n]) && IsLegal(params, packets[n])
            && RunSent(params, packets) == RunSent(params, packets[..n]) + SentRows(params, packets[n])
  {
    hide IsLegal, SentRows;
    assert IsLegal(params, packets[|packets| - 1]);
  }

  lemma LastWhole(params: Params, packets: seq<seq<Answer>>)
    requires params.Even() && packets != []
    ensures var n := |packets| - 1;
            IsTerminated(params, packets) <==> IsTerminated(params, packets[..n]) && IsWhole(params, packets[n])
  {
    hide IsWhole;
    var n := |packets| - 1;
    if IsTerminated(params, packets) {
      assert forall k | 0 <= k < n :: packets[..n][k] == packets[k];
    }
    if IsTerminated(params, packets[..n]) && IsWhole(params, packets[n]) {
      forall k | 0 <= k < |packets|
        ensures IsWhole(params, packets[k])
      {
        assert k < n ==> packets[..n][k] == packets[k];
      }
    }
  }

  lemma PacketAsSent(params: Params, answers: seq<Answer>)
    requires params.Even() && IsLegal(params, answers)
    ensures IsSendable(answers) && KindsLegal(params, Values(answers))
    ensures |PacketRows(params, answers)| == |SentRows(params, answers)|
    ensures IsWhole(params, answers) ==> AllReadable(params, answers)
    ensures AllReadable(params, answers) ==>
              (PacketRows(params, answers) == SentRows(params, answers) <==> IsWhole(params, answers))
  {
    ReadAsSent(params, answers);
    hide AllTerminated, AllReadable, KindsLegal, IsSendable;
  }

  lemma SamePieces(a: seq<Row>, b: seq<Row>, c: seq<Row>, d: seq<Row>)
    requires |a| == |c| && |b| == |d|
    ensures a + b == c + d <==> a == c && b == d
  {
    if a + b == c + d {
      assert a == (a + b)[..|a|] && c == (c + d)[..|c|];
      assert b == (a + b)[|a|..] && d == (c + d)[|c|..];
    }
  }

  /** A run that can be read at all is read as it was sent exactly if all its strings are
      terminated. */
  lemma {:induction false} RunReadAsSent(params: Params, packets: seq<seq<Answer>>)
    requires params.Even() && IsRun(params, packets)
    ensures |RunRows(params, packets)| == |RunSent(params, packets)|
    ensures IsTerminated(params, packets) ==> IsReadable(params, packets)
    ensures IsReadable(params, packets) ==>
              (RunRows(params, packets) == RunSent(params, packets) <==> IsTerminated(params, packets))
  {
    hide IsRun, RunRows, RunSent, IsTerminated, IsReadable, IsWhole, AllReadable, PacketRows, SentRows, IsLegal;
    hide KindsLegal, IsSendable;
    if packets == [] {
      NothingSent(params);
    } else {
      var n := |packets| - 1;
      LastRows(params, packets);
      LastReads(params, packets);
      LastSent(params, packets);
      LastWhole(params, packets);
      PacketAsSent(params, packets[n]);
      RunReadAsSent(params, packets[..n]);
      SamePieces(RunRows(params, packets[..n]), PacketRows(params, packets[n]),
                 RunSent(params, packets[..n]), SentRows(params, packets[n]));
    }
  }

  lemma NothingSent(params: Params)
    requires params.Even()
    ensures RunRows(params, []) == RunSent(params, []) == []
    ensures IsTerminated(params, []) && IsReadable(params, [])
  {
  }

  // ----- the main results ------------------------------------------------------------------------

  /** Every slot ends up with the last value the run brought for its id, or what the request held
      there, and the counter with the number of answers to requested ids. */
  lemma SlotsHoldTheirAnswers(request: Params, packets: seq<seq<Answer>>, j: nat)
    requires request.Even() && Distinct(request.ids) && j < |request.ids|
    requires IsRun(request, packets) && IsReadable(request, packets) && KindsKept(request, packets)
    ensures var rows, after := RunRows(request, packets), After(Exchange(request, 0), Framed(packets));
            && after.Some? && after.value.params.Even() && after.value.params.ids == request.ids
            && after.value.count == |MatchedIds(request.ids, rows)|
            && after.value.params.RowAt(j) == SlotAfter(request.RowAt(j), rows, request.ids[j])
  {
    hide IsRun, RunRows, PutAll, MatchedIds, Distinct, SlotAfter, Framed, KindsKept, IsSendable, IsReadable;
    LegalIsSendable(request, packets);
    RunIsGathered(Exchange(request, 0), packets);
    StateAfter(Exchange(request, 0), RunRows(request, packets), j);
  }

  /** If no requested id is answered twice and every string is terminated, every slot ends up with
      what its own answer carries. */
  lemma SlotsHoldWhatWasSent(request: Params, packets: seq<seq<Answer>>, j: nat)
    requires request.Even() && Distinct(request.ids) && j < |request.ids|
    requires IsRun(request, packets) && IsTerminated(request, packets)
    requires Distinct(MatchedIds(request.ids, RunSent(request, packets)))
    ensures var sent, after := RunSent(request, packets), After(Exchange(request, 0), Framed(packets));
            && after.Some? && after.value.params.Even() && after.value.params.ids == request.ids
            && after.value.count == |MatchedIds(request.ids, sent)|
            && after.value.params.RowAt(j) == SlotAfter(request.RowAt(j), sent, request.ids[j])
  {
    hide IsRun, RunRows, RunSent, MatchedIds, Distinct, SlotAfter, Framed, KindsKept, IsSendable, IsReadable;
    hide IsTerminated;
    LegalIsSendable(request, packets);
    RunReadAsSent(request, packets);
    NoRepeatKeepsKinds(request, packets);
    SlotsHoldTheirAnswers(request, packets, j);
  }

  /** What the parser says of the last packet. */
  function LastOutcome(e: Exchange, packets: seq<seq<Answer>>): Parsed
    requires packets != [] && forall k | 0 <= k < |packets| :: IsSendable(packets[k])
  {
    var n := |packets| - 1;
    match After(e, Framed(packets)[..n])
    case None => Overread
    case Some(before) => Parse(before, Framed(packets)[n])
  }

  lemma LastIsCounted(e: Exchange, packets: seq<seq<Answer>>)
    requires e.params.Even() && IsRun(e.params, packets) && KindsKept(e.params, packets) && packets != []
    requires IsReadable(e.params, packets)
    ensures forall k | 0 <= k < |packets| :: IsSendable(packets[k])
    ensures var after := PutAll(e, RunRows(e.params, packets));
            && LastOutcome(e, packets) == Outcome(packets[|packets| - 1], true, after)
            && after.count == e.count + |MatchedIds(e.params.ids, RunRows(e.params, packets))|
            && |after.params.ids| == |e.params.ids|
  {
    hide IsRun, RunRows, PutAll, MatchedIds, Parse, Framed, IsSilent, KindsKept, KeepsKinds, IsSendable, IsLegal;
    hide IsReadable, AllReadable, Outcome;
    LegalIsSendable(e.params, packets);
    LastReads(e.params, packets);
    LastFrame(packets);
    LastPacket(e, packets);
    KeptBefore(e.params, packets);
    RunIsGathered(e, packets[..|packets| - 1]);
    CountAfter(e, RunRows(e.params, packets));
  }

  /** The last packet of a run is refused if it does not concern parameters. Otherwise it completes
      the exchange when the answers to requested ids are as many as the ids. That agrees with all
      ids being answered exactly if none was answered twice, or one is missing and the repeated
      answers do not happen to make up the number. */
  lemma CompletionExactly(request: Params, packets: seq<seq<Answer>>)
    requires request.Even() && Distinct(request.ids) && packets != []
    requires IsRun(request, packets) && IsReadable(request, packets) && KindsKept(request, packets)
    ensures forall k | 0 <= k < |packets| :: IsSendable(packets[k])
    ensures var outcome, rows := LastOutcome(Exchange(request, 0), packets), RunRows(request, packets);
            var matched, all := MatchedIds(request.ids, rows), AllAnswered(request.ids, rows);
            && (if IsSilent(packets[|packets| - 1]) then outcome.Refused? else outcome.Gathered?)
            && (outcome.Gathered? ==> (outcome.complete <==> |matched| == |request.ids|))
            && (outcome.Gathered? ==>
                  ((outcome.complete <==> all) <==> Distinct(matched) || (!all && |matched| != |request.ids|)))
  {
    hide IsRun, RunRows, PutAll, MatchedIds, Distinct, LastOutcome, IsSilent, AllAnswered, KindsKept, IsSendable;
    hide IsReadable;
    LastIsCounted(Exchange(request, 0), packets);
    CompleteExactly(request.ids, RunRows(request, packets));
  }

  /** If no requested id is answered twice, the parser reports the exchange as complete on a packet
      that concerns parameters exactly when all ids have been answered, and refuses the others. */
  lemma CompletesWhenAllAnswered(request: Params, packets: seq<seq<Answer>>)
    requires request.Even() && Distinct(request.ids) && packets != []
    requires IsRun(request, packets) && IsReadable(request, packets)
    requires Distinct(MatchedIds(request.ids, RunRows(request, packets)))
    ensures forall k | 0 <= k < |packets| :: IsSendable(packets[k])
    ensures var outcome := LastOutcome(Exchange(request, 0), packets);
            && (if IsSilent(packets[|packets| - 1]) then outcome.Refused? else outcome.Gathered?)
            && (outcome.Gathered? ==> (outcome.complete <==> AllAnswered(request.ids, RunRows(request, packets))))
  {
    hide IsRun, RunRows, MatchedIds, Distinct, LastOutcome, IsSilent, AllAnswered, KindsKept, IsSendable;
    hide IsReadable;
    NoRepeatKeepsKinds(request, packets);
    CompletionExactly(request, packets);
  }
}
