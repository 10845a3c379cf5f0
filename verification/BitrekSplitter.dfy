/** The Bitrek stream with its handshake: when the splitter depends on how the stream is cut into
    arrivals, and where every byte goes. */
module BitrekSplitter {
  import opened Bytes
  import Crc16
  import TcpStream
  import opened BitrekStream

  // ----- chunking ---------------------------------------------------------------------

  /** A short frame has begun but is not complete, and a long frame that seems to start inside it
      is taken instead. */
  predicate Premature(buf: seq<byte>) {
    && FindZeros(buf, 2) < FindZeros(buf, 4)
    && ShortAhead(buf).None?
    && TcpStream.NextCut(buf).Frame?
  }

  /** No pass over the buffer is premature. */
  predicate Patient(buf: seq<byte>)
    decreases |buf|
  {
    !Premature(buf) && (NextCut(buf).Taken? ==> Patient(NextCut(buf).rest))
  }

  lemma ShortAheadIsStable(buf: seq<byte>, more: seq<byte>)
    requires ShortAhead(buf).Some?
    ensures ShortAhead(buf + more) == ShortAhead(buf) && FindZeros(buf + more, 2) == FindZeros(buf, 2)
  {
    hide FromBE, FindZerosFrom;
    var s, at := FindZeros(buf, 2), FindZeros(buf, 4);
    var at' := FindZeros(buf + more, 4);
    FindZerosStable(buf, more, 2);
    assert (buf + more)[s + 2..s + 4] == buf[s + 2..s + 4];
    if at < |buf| {
      FindZerosStable(buf, more, 4);
    } else if at' <= s {
      assert ZerosAt(buf + more, 4, at');
      RunStartsLater(buf, more, at', s);
      assert false;
    }
  }

  lemma ZerosStay(buf: seq<byte>, more: seq<byte>, count: nat, at: nat)
    requires at + count <= |buf|
    ensures ZerosAt(buf + more, count, at) <==> ZerosAt(buf, count, at)
  {
    if ZerosAt(buf + more, count, at) {
      forall t | at <= t < at + count
        ensures buf[t] == 0
      {
        assert (buf + more)[t] == 0;
      }
    }
  }

  /** Zeros that were not there before lie behind the first pair of zeros. */
  lemma RunStartsLater(buf: seq<byte>, more: seq<byte>, at: nat, s: nat)
    requires s + 4 <= |buf| && s == FindZeros(buf, 2) && !ZerosAt(buf, 4, s)
    requires ZerosAt(buf + more, 4, at)
    ensures at > s
  {
    ZerosStay(buf, more, 4, s);
    if at < s {
      ZerosStay(buf, more, 2, at);
      assert false;
    }
  }

  function Extended(cut: Cut, more: seq<byte>): Cut {
    if cut.Taken? then cut.(rest := cut.rest + more) else cut
  }

  /** A pass that was not premature cannot be changed by bytes that arrive later. */
  lemma PassIsStable(buf: seq<byte>, more: seq<byte>)
    requires !Premature(buf) && NextCut(buf).Taken?
    ensures NextCut(buf + more) == Extended(NextCut(buf), more)
  {
    if ShortAhead(buf).Some? {
      ShortAheadIsStable(buf, more);
      ShortSlices(buf, more);
    } else {
      LongPassIsStable(buf, more);
    }
  }

  lemma ShortSlices(buf: seq<byte>, more: seq<byte>)
    requires ShortAhead(buf).Some?
    requires ShortAhead(buf + more) == ShortAhead(buf) && FindZeros(buf + more, 2) == FindZeros(buf, 2)
    ensures NextCut(buf + more) == Extended(NextCut(buf), more)
  {
    hide ShortAhead, FindZeros, ShortCrcMatches;
    var s, size := FindZeros(buf, 2), ShortAhead(buf).value;
    assert (buf + more)[..s] == buf[..s];
    assert (buf + more)[s..s + size] == buf[s..s + size];
    assert (buf + more)[s + size..] == buf[s + size..] + more;
  }

  lemma LongPassIsStable(buf: seq<byte>, more: seq<byte>)
    requires FindZeros(buf, 2) >= FindZeros(buf, 4) && TcpStream.NextCut(buf).Frame?
    ensures NextCut(buf + more) == Extended(NextCut(buf), more)
  {
    LongNeedsZeros(buf);
    FirstZeros(buf);
    TcpStream.CutIsStable(buf, more);
    FindZerosStable(buf, more, 4);
    FindZerosStable(buf, more, 2);
    hide TcpStream.NextCut, FindZeros;
    assert ShortAhead(buf).None? && ShortAhead(buf + more).None?;
    assert (buf + more)[..FindZeros(buf, 4)] == buf[..FindZeros(buf, 4)];
  }

  lemma LongNeedsZeros(buf: seq<byte>)
    requires TcpStream.NextCut(buf).Frame?
    ensures FindZeros(buf, 4) + 12 <= |buf|
  {
  }

  /** Four zeros begin with two. */
  lemma FirstZeros(buf: seq<byte>)
    requires FindZeros(buf, 4) < |buf|
    ensures FindZeros(buf, 2) <= FindZeros(buf, 4)
  {
    var at := FindZeros(buf, 4);
    assert ZerosAt(buf, 4, at);
    assert ZerosAt(buf, 2, at);
  }

  /** Scanning everything at once is scanning a part, then what is left together with the rest. */
  lemma {:induction false} PiecesInTwoSteps(buf: seq<byte>, more: seq<byte>)
    requires Patient(buf)
    ensures var first := Pieces(buf);
            Pieces(buf + more) == Pieces(first.rest + more).Behind(first.pieces)
    decreases |buf|
  {
    var cut := NextCut(buf);
    if cut.Taken? {
      PassIsStable(buf, more);
      PiecesInTwoSteps(cut.rest, more);
      hide NextCut, Premature;
      var later := Pieces(cut.rest);
      Pieces(later.rest + more).BehindTwice([cut.piece], later.pieces);
    } else {
      hide NextCut, Premature;
      assert [] + Pieces(buf + more).pieces == Pieces(buf + more).pieces;
    }
  }

  /** The bytes that complete the short frame a premature pass has overlooked. */
  function Missing(buf: seq<byte>): (more: seq<byte>)
    requires Premature(buf)
  {
    var s := FindZeros(buf, 2);
    ToBE(0, s + FromBE(buf[s + 2..s + 4]) + 6 - |buf|)
  }

  lemma PrematureIsUnstable(buf: seq<byte>)
    requires Premature(buf)
    ensures NextCut(buf).Taken? && NextCut(buf).piece.kind == LongFrame
    ensures var whole := NextCut(buf + Missing(buf));
            whole.Taken? && whole.piece.kind == ShortFrame
  {
    hide TcpStream.NextCut, FindZerosFrom, ToBE, FromBE;
    LongNeedsZeros(buf);
    var s, more := FindZeros(buf, 2), Missing(buf);
    FindZerosStable(buf, more, 2);
    FindZerosStable(buf, more, 4);
    assert (buf + more)[s + 2..s + 4] == buf[s + 2..s + 4];
  }

  predicate InTwoSteps(buf: seq<byte>, more: seq<byte>) {
    Pieces(buf + more) == Pieces(Pieces(buf).rest + more).Behind(Pieces(buf).pieces)
  }

  lemma FirstPieceDiffers(buf: seq<byte>)
    requires Premature(buf)
    ensures !InTwoSteps(buf, Missing(buf))
  {
    PrematureIsUnstable(buf);
    hide NextCut, Premature, Missing;
    var more := Missing(buf);
    assert Pieces(buf).pieces[0] == NextCut(buf).piece;
    assert Pieces(buf + more).pieces[0] == NextCut(buf + more).piece;
  }

  lemma LaterPieceDiffers(buf: seq<byte>, more: seq<byte>)
    requires NextCut(buf).Taken? && NextCut(buf + more) == Extended(NextCut(buf), more)
    requires !InTwoSteps(NextCut(buf).rest, more)
    ensures !InTwoSteps(buf, more)
  {
    hide NextCut;
    var cut := NextCut(buf);
    var later := Pieces(cut.rest);
    var second := Pieces(later.rest + more);
    second.BehindTwice([cut.piece], later.pieces);
    assert Pieces(buf + more).pieces[1..] == Pieces(cut.rest + more).pieces;
    assert second.Behind(later.pieces).Behind([cut.piece]).pieces[1..] == second.Behind(later.pieces).pieces;
  }

  /** An impatient scan is refuted by some later arrival. */
  lemma {:induction false} Disagreement(buf: seq<byte>) returns (more: seq<byte>)
    requires !Patient(buf)
    ensures !InTwoSteps(buf, more)
    decreases |buf|
  {
    if Premature(buf) {
      more := Missing(buf);
      FirstPieceDiffers(buf);
    } else {
      more := Disagreement(NextCut(buf).rest);
      PassIsStable(buf, more);
      LaterPieceDiffers(buf, more);
    }
  }

  /** The pieces taken off a buffer are independent of what arrives later exactly when no pass
      was premature. */
  lemma PatientExactly(buf: seq<byte>)
    ensures Patient(buf) <==> forall more: seq<byte> :: InTwoSteps(buf, more)
  {
    if Patient(buf) {
      forall more: seq<byte>
        ensures InTwoSteps(buf, more)
      {
        PiecesInTwoSteps(buf, more);
      }
    } else {
      var more := Disagreement(buf);
    }
  }

  // ----- the stream with its handshake --------------------------------------------------

  function Accepted(scan: Scan): TcpStream.SplitResult {
    TcpStream.SplitResult(Pushed(scan.pieces), TcpStream.StreamState(true, scan.rest), scan.overrun)
  }

  /** split_tcp_stream of the Bitrek device. */
  function Split(id: seq<byte>, state: TcpStream.StreamState): TcpStream.SplitResult {
    var n := |id| + 2;
    if state.accepted then Accepted(Pieces(state.buffer))
    else if |state.buffer| < n then TcpStream.SplitResult([], state, false)
    else Accepted(Pieces(state.buffer[n..])).Behind([state.buffer[..n]])
  }

  function Feed(id: seq<byte>, state: TcpStream.StreamState, chunk: seq<byte>): TcpStream.SplitResult {
    Split(id, state.(buffer := state.buffer + chunk))
  }

  function FeedAll(id: seq<byte>, state: TcpStream.StreamState, chunks: seq<seq<byte>>): TcpStream.SplitResult {
    if chunks == [] then TcpStream.SplitResult([], state, false)
    else
      var n := |chunks| - 1;
      var before := FeedAll(id, state, chunks[..n]);
      var last := Feed(id, before.state, chunks[n]);
      TcpStream.SplitResult(before.packets + last.packets, last.state, last.overrun)
  }

  lemma {:induction false} PushedConcat(a: seq<Piece>, b: seq<Piece>)
    ensures Pushed(a + b) == Pushed(a) + Pushed(b)
  {
    hide PushedFor, Pushed;
    if a == [] {
      NothingPushed();
      assert a + b == b && [] + Pushed(b) == Pushed(b);
    } else {
      var first, rest := a[0], a[1..];
      PushedConcat(rest, b);
      PushedFirst(first, rest);
      PushedFirst(first, rest + b);
      assert a == [first] + rest && a + b == [first] + (rest + b);
      Regroup(PushedFor(first), Pushed(rest), Pushed(b));
    }
  }

  lemma AcceptedBehind(scan: Scan, earlier: seq<Piece>)
    ensures Accepted(scan.Behind(earlier)) == Accepted(scan).Behind(Pushed(earlier))
  {
    PushedConcat(earlier, scan.pieces);
  }

  /** Handshake, frames, discarded bytes and leftover make up the stream, and every packet behind
      the handshake is an intact short or long frame. */
  lemma Accounting(id: seq<byte>, buf: seq<byte>)
    requires |buf| >= |id| + 2
    ensures var n := |id| + 2;
            var result := Split(id, TcpStream.StreamState(false, buf));
            && result.packets == [buf[..n]] + Pushed(Pieces(buf[n..]).pieces)
            && buf == result.packets[0] + Consumed(Pieces(buf[n..]).pieces) + result.state.buffer
            && forall p | p in result.packets[1..] :: IsFrame(p)
  {
    hide Pieces, Pushed, Consumed, IsFrame;
    var n := |id| + 2;
    NothingIsLost(buf[n..]);
    OnlyFramesArePushed(buf[n..]);
    assert ([buf[..n]] + Pushed(Pieces(buf[n..]).pieces))[1..] == Pushed(Pieces(buf[n..]).pieces);
  }

  /** The pieces one arrival takes off the stream. */
  function PiecesOf(id: seq<byte>, state: TcpStream.StreamState, chunk: seq<byte>): seq<Piece> {
    var buf, n := state.buffer + chunk, |id| + 2;
    if state.accepted then Pieces(buf).pieces
    else if |buf| < n then []
    else Pieces(buf[n..]).pieces
  }

  /** The pieces all arrivals take off, one after the other. */
  function PiecesOfAll(id: seq<byte>, chunks: seq<seq<byte>>): seq<Piece> {
    if chunks == [] then []
    else
      var n := |chunks| - 1;
      PiecesOfAll(id, chunks[..n]) + PiecesOf(id, FeedAll(id, TcpStream.FRESH, chunks[..n]).state, chunks[n])
  }

  /** What a stream has come to: nothing but a buffer that is too short for the handshake, or the
      handshake, some pieces and the leftover. */
  ghost predicate Accounted(id: seq<byte>, all: seq<byte>, pieces: seq<Piece>, packets: seq<seq<byte>>,
                            state: TcpStream.StreamState)
  {
    var n := |id| + 2;
    if state.accepted then
      && |all| >= n
      && all == all[..n] + Consumed(pieces) + state.buffer
      && packets == [all[..n]] + Pushed(pieces)
    else
      |all| < n && state.buffer == all && pieces == [] && packets == []
  }

  lemma {:induction false} ConsumedConcat(a: seq<Piece>, b: seq<Piece>)
    ensures Consumed(a + b) == Consumed(a) + Consumed(b)
  {
    hide Consumed;
    if a == [] {
      NothingConsumed(Consumed(b));
      assert a + b == b;
    } else {
      var first, rest := a[0], a[1..];
      ConsumedConcat(rest, b);
      ConsumedFirst(first, rest);
      ConsumedFirst(first, rest + b);
      assert a == [first] + rest && a + b == [first] + (rest + b);
      Regroup(first.skipped + first.bytes, Consumed(rest), Consumed(b));
    }
  }

  lemma AcceptedAccounts(id: seq<byte>, all: seq<byte>, pieces: seq<Piece>, packets: seq<seq<byte>>,
                         state: TcpStream.StreamState, chunk: seq<byte>)
    requires state.accepted && Accounted(id, all, pieces, packets, state)
    ensures var next := Feed(id, state, chunk);
            Accounted(id, all + chunk, pieces + PiecesOf(id, state, chunk), packets + next.packets, next.state)
  {
    var n, more := |id| + 2, PiecesOf(id, state, chunk);
    var next := Feed(id, state, chunk);
    NothingIsLost(state.buffer + chunk);
    ConsumedConcat(pieces, more);
    PushedConcat(pieces, more);
    hide Pieces, Pushed, Consumed;
    var head := all[..n];
    assert (all + chunk)[..n] == head;
    assert head + Consumed(pieces) + state.buffer + chunk == head + Consumed(pieces) + (state.buffer + chunk);
    assert head + Consumed(pieces) + (Consumed(more) + next.state.buffer)
        == head + (Consumed(pieces) + Consumed(more)) + next.state.buffer;
    assert [head] + Pushed(pieces) + Pushed(more) == [head] + (Pushed(pieces) + Pushed(more));
  }

  lemma WaitingAccounts(id: seq<byte>, all: seq<byte>, chunk: seq<byte>)
    requires |all| < |id| + 2
    ensures var state := TcpStream.StreamState(false, all);
            var next := Feed(id, state, chunk);
            Accounted(id, all + chunk, PiecesOf(id, state, chunk), next.packets, next.state)
  {
    var n, buf := |id| + 2, all + chunk;
    if |buf| >= n {
      NothingIsLost(buf[n..]);
      hide Pieces, Pushed, Consumed;
      assert buf == buf[..n] + buf[n..];
      assert buf[..n] + (Consumed(Pieces(buf[n..]).pieces) + Pieces(buf[n..]).rest)
          == buf[..n] + Consumed(Pieces(buf[n..]).pieces) + Pieces(buf[n..]).rest;
    }
  }

  lemma {:induction false} StreamIsAccounted(id: seq<byte>, chunks: seq<seq<byte>>)
    ensures var result := FeedAll(id, TcpStream.FRESH, chunks);
            Accounted(id, Flatten(chunks), PiecesOfAll(id, chunks), result.packets, result.state)
  {
    hide Feed, PiecesOf, Accounted, Flatten;
    if chunks == [] {
      NothingAccounted(id);
    } else {
      var n := |chunks| - 1;
      StreamIsAccounted(id, chunks[..n]);
      FlattenSnoc(chunks[..n], chunks[n]);
      assert chunks == chunks[..n] + [chunks[n]];
      var before := FeedAll(id, TcpStream.FRESH, chunks[..n]);
      ArrivalIsAccounted(id, Flatten(chunks[..n]), PiecesOfAll(id, chunks[..n]), before.packets, before.state,
                         chunks[n]);
    }
  }

  lemma NothingAccounted(id: seq<byte>)
    ensures Accounted(id, Flatten([]), [], [], TcpStream.FRESH)
  {
  }

  lemma ArrivalIsAccounted(id: seq<byte>, all: seq<byte>, pieces: seq<Piece>, packets: seq<seq<byte>>,
                           state: TcpStream.StreamState, chunk: seq<byte>)
    requires Accounted(id, all, pieces, packets, state)
    ensures var next := Feed(id, state, chunk);
            Accounted(id, all + chunk, pieces + PiecesOf(id, state, chunk), packets + next.packets, next.state)
  {
    if state.accepted {
      AcceptedAccounts(id, all, pieces, packets, state, chunk);
    } else {
      WaitingAccounts(id, all, chunk);
      assert state == TcpStream.StreamState(false, all) && pieces == [] && packets == [];
      hide Accounted, Feed, PiecesOf;
      assert [] + PiecesOf(id, state, chunk) == PiecesOf(id, state, chunk);
      assert [] + Feed(id, state, chunk).packets == Feed(id, state, chunk).packets;
    }
  }

  lemma {:induction false} PiecesAreFrames(id: seq<byte>, chunks: seq<seq<byte>>)
    ensures forall p | p in Pushed(PiecesOfAll(id, chunks)) :: IsFrame(p)
  {
    hide IsFrame, Pushed, Feed;
    if chunks == [] {
      NothingPushed();
    } else {
      var n := |chunks| - 1;
      PiecesAreFrames(id, chunks[..n]);
      var state := FeedAll(id, TcpStream.FRESH, chunks[..n]).state;
      PushedConcat(PiecesOfAll(id, chunks[..n]), PiecesOf(id, state, chunks[n]));
      ArrivalIsFrames(id, state, chunks[n]);
    }
  }

  lemma NothingPushed()
    ensures Pushed([]) == []
  {
  }

  lemma ArrivalIsFrames(id: seq<byte>, state: TcpStream.StreamState, chunk: seq<byte>)
    ensures forall p | p in Pushed(PiecesOf(id, state, chunk)) :: IsFrame(p)
  {
    var buf, n := state.buffer + chunk, |id| + 2;
    NothingPushed();
    OnlyFramesArePushed(buf);
    if |buf| >= n {
      OnlyFramesArePushed(buf[n..]);
    }
    hide Pieces, Pushed, IsFrame;
  }

  /** However a stream is cut into arrivals: handshake, pushed frames, discarded bytes and leftover
      make up all that has arrived, and every packet behind the handshake is an intact frame. */
  lemma ArrivalsAreAccounted(id: seq<byte>, chunks: seq<seq<byte>>)
    ensures var result := FeedAll(id, TcpStream.FRESH, chunks);
            && Accounted(id, Flatten(chunks), PiecesOfAll(id, chunks), result.packets, result.state)
            && forall k | 1 <= k < |result.packets| :: IsFrame(result.packets[k])
  {
    StreamIsAccounted(id, chunks);
    PiecesAreFrames(id, chunks);
    hide FeedAll, Pushed, Consumed, IsFrame, PiecesOfAll, Flatten;
    var packets, pieces := FeedAll(id, TcpStream.FRESH, chunks).packets, PiecesOfAll(id, chunks);
    forall k | 1 <= k < |packets|
      ensures IsFrame(packets[k])
    {
      assert packets[k] == Pushed(pieces)[k - 1] && packets[k] in Pushed(pieces);
    }
  }

  /** Chunking independence under the condition that makes it hold: no premature pass happens over
      what is buffered when an arrival has been added. */
  lemma FeedInTwoSteps(id: seq<byte>, state: TcpStream.StreamState, a: seq<byte>, b: seq<byte>)
    requires PatientStream(id, state, a)
    ensures var first := Feed(id, state, a);
            var second := Feed(id, first.state, b);
            Feed(id, state, a + b) ==
            TcpStream.SplitResult(first.packets + second.packets, second.state, second.overrun)
  {
    hide Pieces, Pushed, Patient;
    var n := |id| + 2;
    var buf := state.buffer + a;
    assert state.buffer + (a + b) == buf + b;
    if state.accepted {
      AcceptedInTwoSteps(buf, b);
    } else if |buf| >= n {
      assert (buf + b)[..n] == buf[..n] && (buf + b)[n..] == buf[n..] + b;
      AcceptedInTwoSteps(buf[n..], b);
    } else {
      assert state.(buffer := buf).buffer + b == buf + b;
      assert [] + Feed(id, state.(buffer := buf), b).packets == Feed(id, state.(buffer := buf), b).packets;
    }
  }

  lemma AcceptedInTwoSteps(buf: seq<byte>, more: seq<byte>)
    requires Patient(buf)
    ensures Accepted(Pieces(buf + more)) ==
            Accepted(Pieces(Pieces(buf).rest + more)).Behind(Accepted(Pieces(buf)).packets)
  {
    PiecesInTwoSteps(buf, more);
    hide Pieces, Pushed, Patient;
    AcceptedBehind(Pieces(Pieces(buf).rest + more), Pieces(buf).pieces);
  }

  /** The bytes the frame loop works on when `a` arrives. */
  predicate PatientStream(id: seq<byte>, state: TcpStream.StreamState, a: seq<byte>) {
    var buf, n := state.buffer + a, |id| + 2;
    if state.accepted then Patient(buf) else |buf| >= n ==> Patient(buf[n..])
  }

  /** If every arrival ends where the stream so far leaves no premature pass, the packets, the
      leftover and the outcome are those of one arrival of the whole stream. */
  lemma {:induction false} ChunkingIndependence(id: seq<byte>, chunks: seq<seq<byte>>)
    requires forall k | 0 <= k < |chunks| :: PatientStream(id, TcpStream.FRESH, Flatten(chunks[..k]))
    ensures FeedAll(id, TcpStream.FRESH, chunks) == Feed(id, TcpStream.FRESH, Flatten(chunks))
  {
    hide PatientStream, Split;
    if chunks == [] {
      NothingFed(id);
    } else {
      var n := |chunks| - 1;
      forall k | 0 <= k < n
        ensures PatientStream(id, TcpStream.FRESH, Flatten(chunks[..n][..k]))
      {
        assert chunks[..n][..k] == chunks[..k];
      }
      ChunkingIndependence(id, chunks[..n]);
      FlattenSnoc(chunks[..n], chunks[n]);
      assert chunks == chunks[..n] + [chunks[n]];
      FeedInTwoSteps(id, TcpStream.FRESH, Flatten(chunks[..n]), chunks[n]);
    }
  }

  lemma NothingFed(id: seq<byte>)
    ensures Feed(id, TcpStream.FRESH, []) == TcpStream.SplitResult([], TcpStream.FRESH, false)
  {
    assert TcpStream.FRESH.buffer + [] == [];
  }

  // ----- why it does not hold for every cut -----------------------------------------------

  /** An intact short frame with twenty zero bytes of payload. */
  function ZeroFrame(): seq<byte> {
    [0, 0, 0, 20] + ToBE(0, 22)
  }

  /** A short frame whose payload holds zeros arrives as one packet or is torn apart, depending
      on where the arrival ends. */
  lemma CutChangesThePackets()
    ensures Accepted(Pieces(ZeroFrame())).packets == [ZeroFrame()]
    ensures Accepted(Pieces(ZeroFrame()[..16])).packets == [ZeroFrame()[4..16]]
    ensures !Patient(ZeroFrame()[..16])
  {
    hide ZeroFrame, NextCut, Pieces, Pushed, Premature;
    ZeroFrameZeros();
    var f := ZeroFrame();
    var torn := f[..16];
    WholePass(f);
    OnePiece(f, Piece(ShortFrame, [], f, true));
    TornPass(torn);
    OnePiece(torn, Piece(LongFrame, torn[..4], torn[4..16], true));
    assert torn[4..16] == f[4..16];
  }

  lemma OnePiece(buf: seq<byte>, piece: Piece)
    requires NextCut(buf) == Taken(piece, []) && piece.valid
    ensures Accepted(Pieces(buf)).packets == [piece.bytes]
  {
    NothingToCut();
    hide NextCut;
    PushedFirst(piece, []);
    assert Pieces(buf) == Pieces([]).Behind([piece]);
    assert Pieces([]).pieces == [] && PushedFor(piece) + [] == [piece.bytes];
  }

  lemma {:induction false} ZeroBytes(n: nat)
    ensures forall t | 0 <= t < n :: ToBE(0, n)[t] == 0
  {
    if n > 0 {
      ZeroBytes(n - 1);
    }
  }

  lemma ZeroFrameZeros()
    ensures |ZeroFrame()| == 26 && ZeroFrame()[3] == 20
    ensures forall t | 0 <= t < 26 :: t != 3 ==> ZeroFrame()[t] == 0
  {
    ZeroBytes(22);
  }

  lemma LengthTwenty(f: seq<byte>)
    requires f == [0, 20]
    ensures FromBE(f) == 20
  {
    assert f[..1] == [0];
    assert FromBE([0]) == 0 by {
      assert [0][..0] == [];
    }
  }

  lemma WholePass(f: seq<byte>)
    requires |f| == 26 && f[3] == 20 && forall t | 0 <= t < 26 :: t != 3 ==> f[t] == 0
    ensures NextCut(f) == Taken(Piece(ShortFrame, [], f, true), [])
  {
    ZeroPayloadIsValid(f);
    hide FindZerosFrom, ShortCrcMatches;
    assert ZerosAt(f, 2, 0) && !ZerosAt(f, 4, 0);
    assert FindZeros(f, 2) == 0 && FindZeros(f, 4) > 0;
    LengthTwenty(f[2..4]);
    hide FromBE, FindZeros;
    assert f[0..26] == f;
  }

  lemma ZeroPayloadIsValid(f: seq<byte>)
    requires |f| == 26 && forall t | 0 <= t < 26 :: t != 3 ==> f[t] == 0
    ensures ShortCrcMatches(f)
  {
    Crc16.ZerosHaveZeroCrc(f[4..24]);
    Crc16.ZeroField();
    hide Crc16.Of, Crc16.FromField;
  }

  lemma TornPass(f: seq<byte>)
    requires |f| == 16 && f[3] == 20 && forall t | 0 <= t < 16 :: t != 3 ==> f[t] == 0
    ensures Premature(f)
    ensures NextCut(f) == Taken(Piece(LongFrame, f[..4], f[4..16], true), [])
  {
    TornLong(f);
    hide TcpStream.NextCut, FindZerosFrom;
    assert ZerosAt(f, 2, 0) && ZerosAt(f, 4, 4);
    assert !ZerosAt(f, 4, 0) && !ZerosAt(f, 4, 1) && !ZerosAt(f, 4, 2) && !ZerosAt(f, 4, 3);
    assert FindZeros(f, 2) == 0 && FindZeros(f, 4) == 4;
    LengthTwenty(f[2..4]);
    hide FromBE, FindZeros;
  }

  lemma NothingToCut()
    ensures NextCut([]) == Incomplete
  {
  }

  /** Twelve zero bytes are an intact empty long frame. */
  lemma TornLong(f: seq<byte>)
    requires |f| == 16 && f[3] == 20 && forall t | 0 <= t < 16 :: t != 3 ==> f[t] == 0
    ensures TcpStream.NextCut(f) == TcpStream.Frame(f[4..16], true, [])
  {
    hide FindZerosFrom, Crc16.FromField;
    assert ZerosAt(f, 4, 4);
    assert !ZerosAt(f, 4, 0) && !ZerosAt(f, 4, 1) && !ZerosAt(f, 4, 2) && !ZerosAt(f, 4, 3);
    assert FindZeros(f, 4) == 4;
    ZeroField(f[8..12]);
    Crc16.ZeroField();
    assert f[4..16][8..8] == [];
    assert f[16..] == [];
    hide FromBE;
  }

  lemma ZeroField(field: seq<byte>)
    requires field == [0, 0, 0, 0]
    ensures FromBE(field) == 0
  {
    ZeroBytes(4);
    assert field == ToBE(0, 4);
    ToThenFromBE(0, 4);
  }
}
