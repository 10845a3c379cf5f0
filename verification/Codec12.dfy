/** Building codec 12 command packets (FMB920), and the stream splitter taking them apart again. */
module Codec12 {
  import opened Bytes
  import opened TcpStream
  import Crc16

  /** Codec, one command of type 5 with its size, the command and its end mark, the count again. */
  function Payload(cmd: seq<byte>): (p: seq<byte>)
    ensures |p| == |cmd| + 10
  {
    [0x0C, 0x01, 0x05] + ToBE(|cmd| + 2, 4) + cmd + [0x0D, 0x0A, 0x01]
  }

  function Trailer(payload: seq<byte>): (t: seq<byte>)
    ensures |t| == 4
  {
    [0, 0] + Crc16.ToField(Crc16.Of(payload))
  }

  function Packet(cmd: seq<byte>): seq<byte> {
    Wrap(Payload(cmd), Trailer(Payload(cmd)))
  }

  // ----- the builder -------------------------------------------------------------

  /** The bytes of a size_t as they lie in memory. */
  function InMemory(n: nat): (s: seq<byte>)
    ensures |s| == 4
  {
    [n % 256, n / 256 % 256, n / 0x1_0000 % 256, n / 0x100_0000 % 256]
  }

  lemma BackwardsIsBigEndian(n: nat)
    ensures var s := InMemory(n); [s[3], s[2], s[1], s[0]] == ToBE(n, 4)
  {
    assert ToBE(n / 0x100_0000, 1) == [n / 0x100_0000 % 256];
    assert ToBE(n / 0x1_0000, 2) == ToBE(n / 0x1_0000 / 256, 1) + [n / 0x1_0000 % 256];
    assert ToBE(n / 256, 3) == ToBE(n / 256 / 256, 2) + [n / 256 % 256];
    assert ToBE(n, 4) == ToBE(n / 256, 3) + [n % 256];
    assert n / 256 / 256 == n / 0x1_0000 && n / 0x1_0000 / 256 == n / 0x100_0000;
  }

  /** Appends a size, last byte in memory first. */
  method PushSize(c: seq<byte>, n: nat) returns (r: seq<byte>)
    ensures r == c + ToBE(n, 4)
  {
    r := c;
    var sizeData := InMemory(n);
    var i := 3;
    while i >= 0
      invariant -1 <= i <= 3
      invariant r == c + [sizeData[3], sizeData[2], sizeData[1], sizeData[0]][..3 - i]
    {
      r := r + [sizeData[i]];
      i := i - 1;
    }
    BackwardsIsBigEndian(n);
  }

  /** Overwrites the four length bytes. */
  method PatchSize(c: seq<byte>, n: nat) returns (r: seq<byte>)
    requires |c| >= 8
    ensures r == c[..4] + ToBE(n, 4) + c[8..]
  {
    r := c;
    var sizeData := InMemory(n);
    var i, j := 3, 4;
    while i >= 0
      invariant -1 <= i <= 3 && j == 7 - i && |r| == |c|
      invariant forall k | 4 <= k < j :: r[k] == sizeData[7 - k]
      invariant forall k | 0 <= k < |r| && !(4 <= k < j) :: r[k] == c[k]
    {
      r := r[j := sizeData[i]];
      i, j := i - 1, j + 1;
    }
    BackwardsIsBigEndian(n);
  }

  method BuildCodec12Packet(cmd: seq<byte>, buff: seq<byte>) returns (r: seq<byte>)
    ensures r == buff + Packet(cmd)
  {
    hide ToBE, Crc16.Of;
    var c: seq<byte> := [0, 0, 0, 0, 0, 0, 0, 0];
    c := c + [0x0C];
    c := c + [0x01];
    c := c + [0x05];
    c := PushSize(c, |cmd| + 2);
    c := c + cmd;
    c := c + [0x0D];
    c := c + [0x0A];
    c := c + [0x01];
    assert c[8..] == Payload(cmd);
    ghost var body := c[8..];
    c := PatchSize(c, |c| - 8);
    assert c == PREAMBLE + ToBE(|body|, 4) + body;
    assert c[8..] == body;
    var crc := Crc16.GetCrc(c[8..]);
    var crcData := Crc16.ToField(crc);
    c := c + [0, 0, crcData[0], crcData[1]];
    assert [0, 0, crcData[0], crcData[1]] == Trailer(Payload(cmd));
    r := buff + c;
  }

  // ----- builder and splitter undo each other ---------------------------------------

  function Packets(cmds: seq<seq<byte>>): (ps: seq<seq<byte>>)
    ensures |ps| == |cmds| && forall k | 0 <= k < |ps| :: ps[k] == Packet(cmds[k])
  {
    if cmds == [] then [] else [Packet(cmds[0])] + Packets(cmds[1..])
  }

  /** A command whose packet the 32-bit size arithmetic of the splitter can handle. */
  predicate Sendable(cmd: seq<byte>) {
    |cmd| + 10 < FIELD_LIMIT
  }

  lemma TrailerGuards(payload: seq<byte>)
    ensures Guards(Trailer(payload), payload)
  {
    Crc16.FieldRoundTrip(Crc16.Of(payload));
  }

  lemma PacketIsSplitOff(cmd: seq<byte>, rest: seq<byte>)
    requires Sendable(cmd)
    ensures Frames(Packet(cmd) + rest) == Frames(rest).Behind([Packet(cmd)])
  {
    hide Frames, Trailer, Guards, Wrap;
    var payload := Payload(cmd);
    TrailerGuards(payload);
    HeadFrameIsScanned(payload, Trailer(payload), rest);
  }

  /** The concatenated packets of any commands are split into exactly those packets. */
  lemma {:induction false} PacketsAreSplit(cmds: seq<seq<byte>>)
    requires forall cmd | cmd in cmds :: Sendable(cmd)
    ensures Frames(Flatten(Packets(cmds))) == Scan(Packets(cmds), [], false)
    decreases |cmds|
  {
    if cmds == [] {
      assert FindZeros([], 4) == 0;
    } else {
      hide Frames, Packet;
      PacketsAreSplit(cmds[1..]);
      PacketIsSplitOff(cmds[0], Flatten(Packets(cmds[1..])));
      assert Packets(cmds) == [Packet(cmds[0])] + Packets(cmds[1..]);
    }
  }

  /** A stream that was accepted hands over the packets and keeps nothing. */
  lemma BuilderThenSplitter(id: seq<byte>, cmds: seq<seq<byte>>)
    requires forall cmd | cmd in cmds :: Sendable(cmd)
    ensures Split(id, StreamState(true, Flatten(Packets(cmds)))) ==
            SplitResult(Packets(cmds), StreamState(true, []), false)
  {
    PacketsAreSplit(cmds);
  }

  /** Which packets come through at all, as long as their size fits a 32-bit size_t. */
  lemma DeliveredExactly(cmd: seq<byte>, rest: seq<byte>)
    requires |cmd| + 10 < TWO_TO_THE_32
    ensures Sendable(cmd) ==> NextCut(Packet(cmd) + rest) == Frame(Packet(cmd), true, rest)
    ensures !Sendable(cmd) ==> NextCut(Packet(cmd) + rest) == Overrun
  {
    var payload := Payload(cmd);
    TrailerGuards(payload);
    hide Payload, Trailer, Guards, ToBE, FromBE, FindZeros;
    if Sendable(cmd) {
      HeadFrameIsCut(payload, Trailer(payload), rest);
    } else {
      OversizedFrameOverruns(payload, Trailer(payload), rest);
    }
  }

  lemma OversizedFrameOverruns(payload: seq<byte>, trailer: seq<byte>, rest: seq<byte>)
    requires FIELD_LIMIT <= |payload| < TWO_TO_THE_32 && |trailer| == 4
    ensures NextCut(Wrap(payload, trailer) + rest) == Overrun
  {
    hide ToBE, FromBE;
    var buf := Wrap(payload, trailer) + rest;
    assert ZerosAt(buf, 4, 0);
    assert FindZeros(buf, 4) == 0;
    assert buf[4..8] == ToBE(|payload|, 4);
    assert Pow256(4) == TWO_TO_THE_32;
    ToThenFromBE(|payload|, 4);
    OverrunExactly(buf);
  }

  /** The command lies in its packet at the stated size, closed by CR LF. */
  lemma CommandIsInside(cmd: seq<byte>)
    requires |cmd| + 2 < TWO_TO_THE_32
    ensures var p := Packet(cmd);
            && |p| == |cmd| + 22 && p[8] == 0x0C && p[9] == 1 && p[10] == 5
            && FromBE(p[11..15]) == |cmd| + 2
            && p[15..15 + (|cmd| + 2)] == cmd + [0x0D, 0x0A]
            && p[15 + (|cmd| + 2)] == 1
            && p[18 + |cmd|] == 0 && p[19 + |cmd|] == 0
            && Crc16.FromField(p[20 + |cmd|], p[21 + |cmd|]) == Crc16.Of(p[8..18 + |cmd|])
  {
    hide Wrap, ToBE, FromBE, Trailer, Payload, Crc16.Of, Crc16.FromField;
    var payload, p := Payload(cmd), Packet(cmd);
    TrailerLayout(payload);
    PayloadLayout(cmd);
    WrapLayout(payload, Trailer(payload));
    assert p[8..8 + |payload|] == payload;
    SliceOfSlice(p, 8, |payload|, 3, 7);
    SliceOfSlice(p, 8, |payload|, 7, 9 + |cmd|);
    assert p[8] == payload[0] && p[9] == payload[1] && p[10] == payload[2] && p[17 + |cmd|] == payload[9 + |cmd|];
  }

  lemma TrailerLayout(payload: seq<byte>)
    ensures var t := Trailer(payload);
            |t| == 4 && t[0] == 0 && t[1] == 0 && Crc16.FromField(t[2], t[3]) == Crc16.Of(payload)
  {
    TrailerGuards(payload);
  }

  lemma PayloadLayout(cmd: seq<byte>)
    requires |cmd| + 2 < TWO_TO_THE_32
    ensures var payload := Payload(cmd);
            && |payload| == |cmd| + 10 && payload[0] == 0x0C && payload[1] == 1 && payload[2] == 5
            && FromBE(payload[3..7]) == |cmd| + 2
            && payload[7..9 + |cmd|] == cmd + [0x0D, 0x0A] && payload[9 + |cmd|] == 1
  {
    hide ToBE, FromBE;
    var payload := Payload(cmd);
    assert Pow256(4) == TWO_TO_THE_32;
    ToThenFromBE(|cmd| + 2, 4);
    assert payload[3..7] == ToBE(|cmd| + 2, 4);
    assert payload[7..9 + |cmd|] == cmd + [0x0D, 0x0A];
  }
}
