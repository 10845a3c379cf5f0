/** The TCP layout that codecs 7 and 8 share: codec, record count, records, record count. */
module CountedFrame {
  import opened Bytes
  import opened Records
  import TcpStream

  function CountedPayload(codec: byte, count: byte, body: seq<byte>): seq<byte> {
    [codec] + ([count] + (body + [count]))
  }

  lemma Layout(codec: byte, count: byte, body: seq<byte>, trailer: seq<byte>)
    requires |trailer| == 4
    ensures var ud := TcpStream.Wrap(CountedPayload(codec, count, body), trailer);
            && |ud| == 15 + |body| && ud[0..4] == [0, 0, 0, 0] && ud[8] == codec && ud[9] == count && At(ud, 10, body)
  {
    var payload := CountedPayload(codec, count, body);
    var ud := TcpStream.Wrap(payload, trailer);
    TcpStream.WrapLayout(payload, trailer);
    hide TcpStream.Wrap;
    ByteAt(ud, 8, codec, [count] + (body + [count]));
    ByteAt(ud, 9, count, body + [count]);
    AtConcat(ud, 10, body, [count]);
  }
}
