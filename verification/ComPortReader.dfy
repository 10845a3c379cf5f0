/** The serial port object: a fixed buffer that reads and line reading change in place. */
module ComPortReader {
  import opened Bytes
  import opened ComPort

  class Reader {
    const buf: array<byte>
    var bufPos: nat
    var isOpen: bool
    // what has passed through the buffer
    ghost var port: Port

    ghost predicate Valid()
      reads this, buf
    {
      && buf.Length == SIZE && bufPos < SIZE
      && port.content == buf[..bufPos] && port.isOpen == isOpen
    }

    constructor ()
      ensures Valid() && port == NEW && fresh(buf)
    {
      buf := new byte[SIZE](_ => 0);
      bufPos, isOpen, port := 0, false, NEW;
    }

    method SetHandle(open: bool)
      requires Valid()
      modifies this
      ensures Valid() && port == old(port).(isOpen := open)
    {
      isOpen := open;
      port := port.(isOpen := open);
    }

    method DropFirst(len: nat)
      requires Valid()
      modifies this, buf
      ensures Valid() && port == Drop(old(port), len)
    {
      var n := if len > bufPos then bufPos else len;
      ghost var rest := port.content[n..];
      bufPos := bufPos - n;
      assert |rest| == bufPos && forall j | 0 <= j < bufPos :: rest[j] == buf[j + n];
      forall j | 0 <= j < bufPos {
        buf[j] := buf[j + n];
      }
      assert buf[..bufPos] == rest;
      port := Drop(port, len);
    }

    /** What the driver writes behind the buffered bytes, and the zero the read ends them with. */
    method Append(taken: seq<byte>)
      requires Valid() && bufPos + |taken| < SIZE
      modifies this, buf
      ensures Valid() && port == Fill(old(port), taken)
    {
      forall j | 0 <= j < |taken| {
        buf[bufPos + j] := taken[j];
      }
      port := Fill(port, taken);
      bufPos := bufPos + |taken|;
      buf[bufPos] := 0;
    }

    /** Reads what the driver has into the free part of the buffer. */
    method Read(arrival: Arrival) returns (ok: bool)
      requires Valid()
      modifies this, buf
      ensures Valid() && port == AfterRead(old(port), arrival)
      ensures ok <==> ReadSucceeds(old(port), arrival)
    {
      hide Drop, Fill;
      if !isOpen {
        return false;
      }
      if bufPos > SIZE - 64 {
        DropFirst(4 / 3);
      }
      if arrival.Failed? {
        return false;
      }
      var taken := Fitting(arrival.bytes, SIZE - bufPos - 1);
      Append(taken);
      ok := true;
    }

    method Flush(arrival: Arrival)
      requires Valid()
      modifies this, buf
      ensures Valid() && port == AfterFlush(old(port), arrival)
    {
      hide AfterRead;
      if !isOpen {
        return;
      }
      var _ := Read(arrival);
      port := port.(content := [], consumed := port.consumed + port.content,
                    intact := port.intact && port.content == []);
      bufPos := 0;
      buf[0] := 0;
    }

    /** Where the first separator is buffered. */
    method FindSeparator() returns (i: nat)
      requires Valid()
      ensures i == FirstSeparator(port.content)
    {
      i := 0;
      while i < bufPos
        invariant i <= bufPos && forall k | 0 <= k < i :: !IsSeparator(port.content[k])
      {
        assert buf[i] == port.content[i];
        if IsSeparator(buf[i]) {
          return;
        }
        i := i + 1;
      }
    }

    /** Drops a line with its separator. */
    method DropLine(i: nat)
      requires Valid() && i == FirstSeparator(port.content) && i < bufPos
      modifies this, buf
      ensures Valid() && port == TakeLine(old(port))
    {
      hide FirstSeparator, NonEmpty;
      DropFirst(i + 1);
      port := TakeLine(old(port));
    }

    /** Waits for a nonempty line. Each turn of the loop is one poll; when there are no more, the
        time is up. */
    method ReadLine(polls: seq<Poll>) returns (ok: bool, answer: seq<byte>)
      requires Valid()
      modifies this, buf
      ensures Valid() && AnswerResult(port, ok, answer) == ReadAnswer(old(port), polls)
    {
      hide FirstSeparator, AfterRead, TakeLine;
      ok, answer := false, [];
      var k := 0;
      while k < |polls|
        invariant k <= |polls| && Valid() && !ok && answer == []
        invariant ReadAnswer(old(port), polls) == ReadAnswer(port, polls[k..])
      {
        assert polls[k..][1..] == polls[k + 1..];
        var done := Read(polls[k].arrival);
        if !done {
          return;
        }
        var i := FindSeparator();
        if i == bufPos {
          if !polls[k].slept {
            return;
          }
        } else {
          answer := answer + buf[..i];
          DropLine(i);
          if answer != [] {
            return true, answer;
          }
        }
        k := k + 1;
      }
    }
  }

}
