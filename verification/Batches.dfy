/** A whole session from the tracker's records to the receiver's: handshake, framed batches of
    records, acknowledgements. */
module Batches {
  import opened Bytes
  import ElementStore
  import opened Records
  import opened TcpStream
  import opened Session
  import Codec7
  import Codec8
  import Codec12
  import CountedFrame

  /** The records a tracker sends in one frame, and the frame's last four bytes. */
  datatype Batch =
    | Gh(gh: seq<Codec7.Sent>, trailer: seq<byte>)
    | Fm(fm: seq<Codec8.Sent>, trailer: seq<byte>)
  {
    ghost predicate Legal() {
      match this
      case Gh(rs, trailer) => |rs| < 256 && (forall r | r in rs :: r.Legal()) && Guards(trailer, Codec7.Payload(rs))
      case Fm(rs, trailer) => |rs| < 256 && (forall r | r in rs :: r.Legal()) && Guards(trailer, Codec8.Payload(rs))
    }

    function Count(): byte
      requires Legal()
    {
      match this
      case Gh(rs, _) => |rs|
      case Fm(rs, _) => |rs|
    }

    function Payload(): seq<byte>
      requires Legal()
    {
      match this
      case Gh(rs, _) => Codec7.Payload(rs)
      case Fm(rs, _) => Codec8.Payload(rs)
    }

    function Frame(): seq<byte>
      requires Legal()
    {
      Wrap(Payload(), trailer)
    }

    /** The parser of its codec makes the sent records of these bytes. */
    predicate IsReadFrom(p: seq<byte>)
      requires Legal()
    {
      match this
      case Gh(rs, _) => Codec7.ParseFrame(p).records == Codec7.ExpectedAll(rs)
      case Fm(rs, _) => Codec8.ParseFrame(p).records == Codec8.ExpectedAll(rs)
    }
  }

  ghost predicate AllLegal(batches: seq<Batch>) {
    forall k | 0 <= k < |batches| :: batches[k].Legal()
  }

  function FramesOf(batches: seq<Batch>): (ps: seq<seq<byte>>)
    requires AllLegal(batches)
    ensures |ps| == |batches|
  {
    seq(|batches|, k requires 0 <= k < |batches| => batches[k].Frame())
  }

  lemma FramesApart(batches: seq<Batch>)
    requires AllLegal(batches) && batches != []
    ensures var n := |batches| - 1;
            && batches[0].Legal() && batches[n].Legal()
            && FramesOf(batches)[0] == batches[0].Frame() && FramesOf(batches)[1..] == FramesOf(batches[1..])
            && FramesOf(batches)[n] == batches[n].Frame() && FramesOf(batches)[..n] == FramesOf(batches[..n])
  {
    hide Batch.Legal, Batch.Frame;
  }

  // ----- frames stay below the limit ---------------------------------------------------------

  lemma {:induction false} ListSize(es: seq<ElementStore.Element>)
    requires forall e | e in es :: |e.data| <= 8
    ensures |Serialised(es)| <= 9 * |es|
  {
    if es != [] {
      ListSize(es[1..]);
    }
  }

  lemma CountedSize(es: seq<ElementStore.Element>)
    requires |es| < 256 && forall e | e in es :: |e.data| <= 8
    ensures |Counted(es)| <= 2296
  {
    ListSize(es);
  }

  lemma {:induction false} FieldBytesSize(gps: seq<Option<seq<byte>>>, k: nat)
    requires Codec7.LegalFields(gps) && k <= 8
    ensures |Codec7.FieldBytes(gps, k)| <= 8 * (8 - k)
    decreases 8 - k
  {
    if k < 8 {
      FieldBytesSize(gps, k + 1);
    }
  }

  lemma GhSize(r: Codec7.Sent)
    requires r.Legal()
    ensures |Codec7.Encode(r)| <= 10_000
  {
    FieldBytesSize(r.gps, 0);
    CountedSize(r.one);
    CountedSize(r.two);
    CountedSize(r.four);
    hide Codec7.FieldBytes, Counted, Codec7.LegalFields;
  }

  lemma FmSize(r: Codec8.Sent)
    requires r.Legal()
    ensures |Codec8.Encode(r)| <= 10_000
  {
    CountedSize(r.one);
    CountedSize(r.two);
    CountedSize(r.four);
    CountedSize(r.eight);
    hide Counted, Codec8.Position;
  }

  lemma {:induction false} GhSizes(rs: seq<Codec7.Sent>)
    requires forall r | r in rs :: r.Legal()
    ensures |Codec7.EncodeAll(rs)| <= 10_000 * |rs|
  {
    hide Codec7.Encode, Codec7.Sent.Legal;
    if rs != [] {
      GhSize(rs[0]);
      GhSizes(rs[1..]);
    }
  }

  lemma {:induction false} FmSizes(rs: seq<Codec8.Sent>)
    requires forall r | r in rs :: r.Legal()
    ensures |Codec8.EncodeAll(rs)| <= 10_000 * |rs|
  {
    hide Codec8.Encode, Codec8.Sent.Legal;
    if rs != [] {
      FmSize(rs[0]);
      FmSizes(rs[1..]);
    }
  }

  lemma PayloadSize(b: Batch)
    requires b.Legal()
    ensures |b.Payload()| < FIELD_LIMIT
  {
    match b
    case Gh(rs, _) => GhSizes(rs);
    case Fm(rs, _) => FmSizes(rs);
  }

  // ----- one batch -----------------------------------------------------------------------------

  lemma BatchReadsBack(b: Batch)
    requires b.Legal()
    ensures b.IsReadFrom(b.Frame())
  {
    hide Wrap, Codec7.Payload, Codec8.Payload, Codec7.ParseFrame, Codec8.ParseFrame;
    match b
    case Gh(rs, trailer) => Codec7.FrameReadsBack(rs, trailer);
    case Fm(rs, trailer) => Codec8.FrameReadsBack(rs, trailer);
  }

  lemma BatchLayout(b: Batch)
    requires b.Legal()
    ensures |b.Frame()| >= 15 && b.Frame()[9] == b.Count()
  {
    hide Wrap, Codec7.EncodeAll, Codec8.EncodeAll, CountedFrame.CountedPayload;
    match b
    case Gh(rs, trailer) => CountedFrame.Layout(7, |rs|, Codec7.EncodeAll(rs), trailer);
    case Fm(rs, trailer) => CountedFrame.Layout(8, |rs|, Codec8.EncodeAll(rs), trailer);
  }

  lemma BatchIsAcknowledged(id: seq<byte>, b: Batch)
    requires b.Legal() && |id| < 0x1_0000
    ensures NeedAnswer(id, true, b.Frame(), []) == Answer(true, [0, 0, 0, b.Count()])
  {
    BatchLayout(b);
    FrameIsNoHandshake(id, b.Payload(), b.trailer);
    hide IsConnectPacket, Wrap;
  }

  lemma BatchIsSplitOff(b: Batch, rest: seq<byte>)
    requires b.Legal()
    ensures Frames(b.Frame() + rest) == Frames(rest).Behind([b.Frame()])
  {
    hide Frames, Wrap, Codec7.Payload, Codec8.Payload;
    PayloadSize(b);
    HeadFrameIsScanned(b.Payload(), b.trailer, rest);
  }

  // ----- all of them ------------------------------------------------------------------------------

  lemma {:induction false} BatchesAreSplit(batches: seq<Batch>)
    requires AllLegal(batches)
    ensures Frames(Flatten(FramesOf(batches))) == Scan(FramesOf(batches), [], false)
  {
    hide Frames, Batch.Frame, Batch.Legal;
    if batches == [] {
      NothingSplit();
    } else {
      FramesApart(batches);
      BatchesAreSplit(batches[1..]);
      BatchIsSplitOff(batches[0], Flatten(FramesOf(batches[1..])));
    }
  }

  lemma NothingSplit()
    ensures Frames([]) == Scan([], [], false)
  {
    assert FindZeros([], 4) == 0;
  }

  /** The counts, each in four bytes. */
  function Counts(batches: seq<Batch>): seq<seq<byte>>
    requires AllLegal(batches)
  {
    if batches == [] then []
    else
      var n := |batches| - 1;
      Counts(batches[..n]) + [[0, 0, 0, batches[n].Count()]]
  }

  lemma {:induction false} BatchesAreAnswered(id: seq<byte>, batches: seq<Batch>)
    requires AllLegal(batches) && |id| < 0x1_0000
    ensures Answers(id, [Handshake(id)] + FramesOf(batches)) == [[1]] + Counts(batches)
  {
    hide NeedAnswer, Handshake, Batch.Frame, Batch.Legal;
    var ps := [Handshake(id)] + FramesOf(batches);
    if batches == [] {
      HandshakeIsAnswered(id);
      assert ps[..0] == [] && ps[0] == Handshake(id) && |ps| == 1;
      assert [] + [[1]] == [[1]];
    } else {
      var n := |batches| - 1;
      BatchesAreAnswered(id, batches[..n]);
      BatchIsAcknowledged(id, batches[n]);
      FramesApart(batches);
      assert ps[..n + 1] == [Handshake(id)] + FramesOf(batches[..n]);
      assert ps[n + 1] == batches[n].Frame();
    }
  }

  /** From end to end: however the bytes of a handshake and any batches are cut into arrivals, the
      session delivers exactly the handshake and the frames, answers 1 and then the number of records
      of each batch, keeps nothing, and every frame is parsed into the records sent in it. */
  lemma SessionDelivers(id: seq<byte>, batches: seq<Batch>, chunks: seq<seq<byte>>)
    requires AllLegal(batches) && |id| < 0x1_0000
    requires Flatten(chunks) == Handshake(id) + Flatten(FramesOf(batches))
    ensures Run(id, chunks) ==
            Arrival([Handshake(id)] + FramesOf(batches), SessionState(true, StreamState(true, [])), false)
    ensures Answers(id, Run(id, chunks).packets) == [[1]] + Counts(batches)
    ensures forall k | 0 <= k < |batches| :: batches[k].IsReadFrom(Run(id, chunks).packets[k + 1])
  {
    hide Frames, Handshake, Answers, Run, Whole, Batch.Frame, Batch.IsReadFrom, Counts, Flatten, FramesOf;
    hide Batch.Legal, Codec7.Payload, Codec8.Payload;
    RunDependsOnBytes(id, chunks);
    BatchesAreSplit(batches);
    WholeDelivers(id, FramesOf(batches));
    BatchesAreAnswered(id, batches);
    BatchesReadBack(id, batches);
    assert Run(id, chunks).packets == [Handshake(id)] + FramesOf(batches);
  }

  lemma WholeDelivers(id: seq<byte>, frames: seq<seq<byte>>)
    requires Frames(Flatten(frames)) == Scan(frames, [], false)
    ensures Whole(id, Handshake(id) + Flatten(frames)) ==
            Arrival([Handshake(id)] + frames, SessionState(true, StreamState(true, [])), false)
  {
    hide Frames, Handshake, Flatten;
    var all := Handshake(id) + Flatten(frames);
    assert all[|id| + 2..] == Flatten(frames) && all[..|id| + 2] == Handshake(id);
    assert FRESH.(buffer := FRESH.buffer + all) == StreamState(false, all);
  }

  lemma BatchesReadBack(id: seq<byte>, batches: seq<Batch>)
    requires AllLegal(batches)
    ensures var ps := [Handshake(id)] + FramesOf(batches);
            forall k | 0 <= k < |batches| :: batches[k].IsReadFrom(ps[k + 1])
  {
    hide Handshake, Batch.Frame, Batch.Legal, Batch.IsReadFrom;
    forall k | 0 <= k < |batches|
      ensures batches[k].IsReadFrom(([Handshake(id)] + FramesOf(batches))[k + 1])
    {
      BatchReadsBack(batches[k]);
    }
  }

  // ----- a frame that promises too much -----------------------------------------------------------

  lemma PromiseLayout(codec: byte, trailer: seq<byte>)
    requires |trailer| == 4
    ensures var p := Wrap(CountedFrame.CountedPayload(codec, 1, [0, 0, 0, 0, 1]), trailer);
            && |p| == 20 && p[8] == codec && p[9] == 1 && p[14] == 1
  {
    var body := [0, 0, 0, 0, 1];
    CountedFrame.Layout(codec, 1, body, trailer);
    hide Wrap, CountedFrame.CountedPayload;
    var p := Wrap(CountedFrame.CountedPayload(codec, 1, body), trailer);
    assert p[10..15] == body;
    assert p[14] == p[10..15][4];
  }

  /** An intact frame, of either codec, that is acknowledged with one record and holds none: for
      codec 7 its record announces a position that is missing, for codec 8 it is too short. */
  lemma OverstatedFrame(id: seq<byte>, codec: byte) returns (p: seq<byte>)
    requires |id| < 0x1_0000
    ensures IsDelivered(p) && p[8] == codec
    ensures NeedAnswer(id, true, p, []) == Answer(true, [0, 0, 0, 1])
    ensures Codec7.ParseFrame(p).records == [] && Codec8.ParseFrame(p).records == []
  {
    var payload := CountedFrame.CountedPayload(codec, 1, [0, 0, 0, 0, 1]);
    var trailer := Codec12.Trailer(payload);
    p := Wrap(payload, trailer);
    Codec12.TrailerGuards(payload);
    PromiseLayout(codec, trailer);
    WrapIsDelivered(payload, trailer);
    hide IsDelivered, Wrap, Guards, CountedFrame.CountedPayload, Codec12.Trailer;
    DeliveredFrameIsAnswered(id, p);
  }

  lemma WrapIsDelivered(payload: seq<byte>, trailer: seq<byte>)
    requires |payload| < FIELD_LIMIT && Guards(trailer, payload)
    ensures IsDelivered(Wrap(payload, trailer))
  {
    WrapLayout(payload, trailer);
    hide Wrap;
    var p := Wrap(payload, trailer);
    assert p[..4] == p[0..4];
    assert p[8..|p| - 4] == payload && p[|p| - 4..] == trailer;
  }
}
