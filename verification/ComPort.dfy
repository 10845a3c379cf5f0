/** The receive buffer of a serial port and its line reader. */
module ComPort {
  import opened Bytes

  const SIZE: nat := 50000

  // ----- lines ------------------------------------------------------------------------------

  /** CR and LF end a line; strchr also finds the zero that ends its string. */
  predicate IsSeparator(b: byte) {
    b == 13 || b == 10 || b == 0
  }

  /** Where the first separator is, or the length. */
  function FirstSeparator(s: seq<byte>): (i: nat)
    ensures i <= |s| && (i < |s| ==> IsSeparator(s[i]))
    ensures forall k | 0 <= k < i :: !IsSeparator(s[k])
  {
    if s == [] || IsSeparator(s[0]) then 0 else 1 + FirstSeparator(s[1..])
  }

  function NonEmpty(s: seq<byte>): seq<seq<byte>> {
    if s == [] then [] else [s]
  }

  /** The nonempty pieces between separators; a piece that is not yet terminated does not count. */
  function Lines(s: seq<byte>): seq<seq<byte>>
    decreases |s|
  {
    var i := FirstSeparator(s);
    if i == |s| then [] else NonEmpty(s[..i]) + Lines(s[i + 1..])
  }

  /** Text without CR, LF and NUL holds no line until one of them follows, and is a line then. */
  lemma LinesExactly(s: seq<byte>, end: byte, rest: seq<byte>)
    requires 13 !in s && 10 !in s && 0 !in s
    ensures Lines(s) == []
    ensures end == 13 || end == 10 || end == 0 ==> Lines(s + [end] + rest) == NonEmpty(s) + Lines(rest)
  {
    hide NonEmpty;
    assert FirstSeparator(s) == |s|;
    if end == 13 || end == 10 || end == 0 {
      var all := s + [end] + rest;
      assert all[|s|] == end && forall k | 0 <= k < |s| :: all[k] == s[k];
      FirstIsAt(all, |s|);
      assert all[..|s|] == s && all[|s| + 1..] == rest;
    }
  }

  lemma FirstIsAt(s: seq<byte>, i: nat)
    requires i < |s| && IsSeparator(s[i]) && forall k | 0 <= k < i :: !IsSeparator(s[k])
    ensures FirstSeparator(s) == i
  {
  }

  predicate EndsInSeparator(s: seq<byte>) {
    s == [] || IsSeparator(s[|s| - 1])
  }

  lemma FirstSeparatorStays(s: seq<byte>, more: seq<byte>)
    requires FirstSeparator(s) < |s|
    ensures FirstSeparator(s + more) == FirstSeparator(s)
  {
    var i, j := FirstSeparator(s), FirstSeparator(s + more);
    assert forall k | 0 <= k < |s| :: (s + more)[k] == s[k];
    if j < i {
      assert false;
    }
  }

  /** Behind a separator the lines begin afresh. */
  lemma {:induction false} LinesConcat(a: seq<byte>, b: seq<byte>)
    requires EndsInSeparator(a)
    ensures Lines(a + b) == Lines(a) + Lines(b)
    decreases |a|
  {
    hide FirstSeparator, NonEmpty, Lines, EndsInSeparator;
    if a == [] {
      NothingHasNoLines();
      assert a + b == b;
      assert [] + Lines(b) == Lines(b);
    } else {
      LinesStep(a, b);
      var i := FirstSeparator(a);
      var rest := a[i + 1..];
      LinesConcat(rest, b);
      Reassociate(NonEmpty(a[..i]), Lines(rest), Lines(b));
    }
  }

  lemma NothingHasNoLines()
    ensures Lines([]) == []
  {
  }

  lemma LinesStep(a: seq<byte>, b: seq<byte>)
    requires EndsInSeparator(a) && a != []
    ensures var i := FirstSeparator(a);
            && i < |a| && EndsInSeparator(a[i + 1..])
            && Lines(a) == NonEmpty(a[..i]) + Lines(a[i + 1..])
            && Lines(a + b) == NonEmpty(a[..i]) + Lines(a[i + 1..] + b)
  {
    hide Lines, NonEmpty;
    var i := FirstSeparator(a);
    assert i < |a|;
    FirstSeparatorStays(a, b);
    LinesFirst(a);
    LinesFirst(a + b);
    assert (a + b)[..i] == a[..i];
    assert (a + b)[i + 1..] == a[i + 1..] + b;
  }

  lemma LinesFirst(s: seq<byte>)
    requires FirstSeparator(s) < |s|
    ensures var i := FirstSeparator(s);
            Lines(s) == NonEmpty(s[..i]) + Lines(s[i + 1..])
  {
  }

  lemma Reassociate(a: seq<seq<byte>>, b: seq<seq<byte>>, c: seq<seq<byte>>)
    ensures a + b + c == a + (b + c)
  {
  }

  /** The bytes in front of the last separator that are not separators themselves. */
  function Text(s: seq<byte>): seq<byte>
    decreases |s|
  {
    var i := FirstSeparator(s);
    if i == |s| then [] else s[..i] + Text(s[i + 1..])
  }

  predicate IsLine(s: seq<byte>) {
    s != [] && 13 !in s && 10 !in s && 0 !in s
  }

  /** Lines are nonempty, hold no separator, and together are the terminated text. */
  lemma {:induction false} LinesAreTheText(s: seq<byte>)
    ensures Flatten(Lines(s)) == Text(s)
    ensures forall line | line in Lines(s) :: IsLine(line)
    decreases |s|
  {
    var i := FirstSeparator(s);
    if i < |s| {
      var rest := s[i + 1..];
      LinesAreTheText(rest);
      LinesFirst(s);
      assert i > 0 ==> IsLine(s[..i]);
      assert Text(s) == s[..i] + Text(rest);
      hide FirstSeparator, Lines, Text, IsLine;
      FlattenFirst(s[..i], Lines(rest));
    }
  }

  lemma FlattenFirst(s: seq<byte>, lines: seq<seq<byte>>)
    ensures Flatten(NonEmpty(s) + lines) == s + Flatten(lines)
  {
    if s == [] {
      assert [] + lines == lines && [] + Flatten(lines) == Flatten(lines);
    } else {
      assert ([s] + lines)[1..] == lines;
    }
  }

  // ----- the buffer and what has passed through it ---------------------------------------------

  /** What the driver does when it is asked for bytes. */
  datatype Arrival = Failed | Delivers(bytes: seq<byte>)

  /** One turn of the waiting loop: what arrives, and whether the sleep ended undisturbed. */
  datatype Poll = Poll(arrival: Arrival, slept: bool)

  /** content is what is buffered; consumed and received are all bytes that have left and entered
      the buffer; answers are the lines read_answer has returned; intact means that bytes have
      left the buffer only as lines. */
  datatype Port = Port(isOpen: bool, content: seq<byte>, consumed: seq<byte>, received: seq<byte>,
                       answers: seq<seq<byte>>, intact: bool)

  const NEW := Port(false, [], [], [], [], true)

  function Drop(p: Port, len: nat): Port {
    var n := if len > |p.content| then |p.content| else len;
    p.(content := p.content[n..], consumed := p.consumed + p.content[..n], intact := p.intact && n == 0)
  }

  /** A read drops one byte when the buffer is nearly full: the four bytes of the counter, divided
      by three. */
  function AfterRead(p: Port, arrival: Arrival): Port {
    if !p.isOpen then p
    else
      var q := if |p.content| > SIZE - 64 then Drop(p, 1) else p;
      match arrival
      case Failed => q
      case Delivers(bytes) => Fill(q, Fitting(bytes, SIZE - |q.content| - 1))
  }

  /** The driver hands over no more than there is room for. */
  function Fitting(bytes: seq<byte>, room: int): (taken: seq<byte>)
    ensures |taken| <= |bytes| && taken == bytes[..|taken|]
    ensures |taken| == if |bytes| <= room then |bytes| else if room < 0 then 0 else room
  {
    if |bytes| <= room then bytes else if room < 0 then [] else bytes[..room]
  }

  function Fill(p: Port, taken: seq<byte>): Port {
    p.(content := p.content + taken, received := p.received + taken)
  }

  predicate ReadSucceeds(p: Port, arrival: Arrival) {
    p.isOpen && arrival.Delivers?
  }

  function AfterFlush(p: Port, arrival: Arrival): Port {
    if !p.isOpen then p
    else
      var q := AfterRead(p, arrival);
      q.(content := [], consumed := q.consumed + q.content, intact := q.intact && q.content == [])
  }

  /** A line and its separator leave the buffer. */
  function TakeLine(p: Port): Port
    requires FirstSeparator(p.content) < |p.content|
  {
    var i := FirstSeparator(p.content);
    p.(content := p.content[i + 1..], consumed := p.consumed + p.content[..i + 1],
       answers := p.answers + NonEmpty(p.content[..i]))
  }

  datatype AnswerResult = AnswerResult(port: Port, ok: bool, answer: seq<byte>)

  /** read_answer: waits for a nonempty line; the polls end when the time is up. */
  function ReadAnswer(p: Port, polls: seq<Poll>): AnswerResult
    decreases |polls|
  {
    if polls == [] then AnswerResult(p, false, [])
    else
      var q := AfterRead(p, polls[0].arrival);
      if !ReadSucceeds(p, polls[0].arrival) then AnswerResult(q, false, [])
      else
        var i := FirstSeparator(q.content);
        if i == |q.content| then if polls[0].slept then ReadAnswer(q, polls[1..]) else AnswerResult(q, false, [])
        else if i == 0 then ReadAnswer(TakeLine(q), polls[1..])
        else AnswerResult(TakeLine(q), true, q.content[..i])
  }

  datatype Operation =
    | SetOpen(open: bool)
    | Read(arrival: Arrival)
    | DropFirst(len: nat)
    | Flush(arrival: Arrival)
    | Answer(polls: seq<Poll>)

  function After(p: Port, op: Operation): Port {
    match op
    case SetOpen(open) => p.(isOpen := open)
    case Read(arrival) => AfterRead(p, arrival)
    case DropFirst(len) => Drop(p, len)
    case Flush(arrival) => AfterFlush(p, arrival)
    case Answer(polls) => ReadAnswer(p, polls).port
  }

  function Run(p: Port, ops: seq<Operation>): Port {
    if ops == [] then p else After(Run(p, ops[..|ops| - 1]), ops[|ops| - 1])
  }

  // ----- conservation and tokenising -------------------------------------------------------------

  /** Nothing is lost or invented, the buffer never overflows, and as long as bytes have left only
      as lines, the answers are the lines of what has left. */
  ghost predicate Conserved(p: Port) {
    && p.received == p.consumed + p.content
    && |p.content| < 50000
    && (p.intact ==> EndsInSeparator(p.consumed) && Lines(p.consumed) == p.answers)
  }

  lemma DropConserves(p: Port, len: nat)
    requires Conserved(p)
    ensures Conserved(Drop(p, len))
  {
    hide Lines, EndsInSeparator;
    var n := if len > |p.content| then |p.content| else len;
    assert p.consumed + p.content == p.consumed + p.content[..n] + p.content[n..];
    if n == 0 {
      assert p.consumed + p.content[..0] == p.consumed;
    }
  }

  lemma ReadConserves(p: Port, arrival: Arrival)
    requires Conserved(p)
    ensures Conserved(AfterRead(p, arrival))
  {
    DropConserves(p, 1);
    hide Lines, EndsInSeparator, Drop, Fitting;
  }

  lemma FlushConserves(p: Port, arrival: Arrival)
    requires Conserved(p)
    ensures Conserved(AfterFlush(p, arrival))
  {
    ReadConserves(p, arrival);
    hide Lines, EndsInSeparator, AfterRead;
    var q := AfterRead(p, arrival);
    assert q.consumed + q.content + [] == q.consumed + q.content;
    if q.content == [] {
      assert q.consumed + [] == q.consumed;
    }
  }

  /** Flushing an open port leaves its buffer empty; what arrived last has been received and is lost. */
  lemma FlushEmpties(p: Port, arrival: Arrival)
    requires Conserved(p)
    ensures p.isOpen ==> AfterFlush(p, arrival).content == []
    ensures p.isOpen ==> AfterFlush(p, arrival).received == AfterFlush(p, arrival).consumed
    ensures p.isOpen && arrival.Delivers? && |p.content| + |arrival.bytes| <= SIZE - 64 ==>
              AfterFlush(p, arrival).received == p.received + arrival.bytes
    ensures !p.isOpen ==> AfterFlush(p, arrival) == p
  {
    FlushConserves(p, arrival);
    hide Lines, EndsInSeparator;
    if p.isOpen {
      var q := AfterFlush(p, arrival);
      assert q.consumed + [] == q.consumed;
    }
  }

  lemma TakeLineConserves(p: Port)
    requires Conserved(p) && FirstSeparator(p.content) < |p.content|
    ensures Conserved(TakeLine(p))
  {
    hide Lines, FirstSeparator, NonEmpty, EndsInSeparator;
    var i := FirstSeparator(p.content);
    var head, rest := p.content[..i + 1], p.content[i + 1..];
    assert p.content == head + rest;
    Regroup(p.consumed, head, rest);
    OneLine(p.content, i);
    EndsBehindLine(p.consumed, p.content, i);
    if p.intact {
      LinesConcat(p.consumed, head);
    }
  }

  lemma EndsBehindLine(before: seq<byte>, s: seq<byte>, i: nat)
    requires i == FirstSeparator(s) && i < |s|
    ensures EndsInSeparator(before + s[..i + 1])
  {
  }

  lemma OneLine(s: seq<byte>, i: nat)
    requires i == FirstSeparator(s) && i < |s|
    ensures Lines(s[..i + 1]) == NonEmpty(s[..i])
  {
    var t := s[..i + 1];
    assert IsSeparator(t[i]) && forall k | 0 <= k < i :: !IsSeparator(t[k]);
    assert FirstSeparator(t) == i;
    assert t[..i] == s[..i] && t[i + 1..] == [];
    assert Lines([]) == [];
    assert NonEmpty(s[..i]) + [] == NonEmpty(s[..i]);
  }

  lemma {:induction false} AnswerConserves(p: Port, polls: seq<Poll>)
    requires Conserved(p)
    ensures Conserved(ReadAnswer(p, polls).port)
    decreases |polls|
  {
    hide Conserved, AfterRead, TakeLine;
    if polls != [] {
      var q := AfterRead(p, polls[0].arrival);
      ReadConserves(p, polls[0].arrival);
      if ReadSucceeds(p, polls[0].arrival) {
        var i := FirstSeparator(q.content);
        if i < |q.content| {
          TakeLineConserves(q);
          AnswerConserves(TakeLine(q), polls[1..]);
        } else {
          AnswerConserves(q, polls[1..]);
        }
      }
    }
  }

  /** Over any sequence of calls. */
  lemma {:induction false} RunConserves(ops: seq<Operation>)
    ensures Conserved(Run(NEW, ops))
  {
    if ops == [] {
      assert Lines([]) == [];
    } else {
      RunConserves(ops[..|ops| - 1]);
      StepConserves(Run(NEW, ops[..|ops| - 1]), ops[|ops| - 1]);
    }
  }

  lemma StepConserves(p: Port, op: Operation)
    requires Conserved(p)
    ensures Conserved(After(p, op))
  {
    match op
    case SetOpen(_) =>
    case Read(arrival) => ReadConserves(p, arrival);
    case DropFirst(len) => DropConserves(p, len);
    case Flush(arrival) => FlushConserves(p, arrival);
    case Answer(polls) => AnswerConserves(p, polls);
  }

  /** While bytes leave only as lines, the answers returned are the first lines of all that was
      received, in order, and the lines still buffered are the others. */
  lemma AnswersAreTheLines(ops: seq<Operation>)
    ensures var p := Run(NEW, ops);
            p.intact ==> Lines(p.received) == p.answers + Lines(p.content)
  {
    hide Lines, Run;
    RunConserves(ops);
    var p := Run(NEW, ops);
    if p.intact {
      LinesConcat(p.consumed, p.content);
    }
  }

  /** A successful read_answer returns the line it took off, a failing one returns nothing and has
      taken off none. */
  lemma {:induction false} AnswerIsRecorded(p: Port, polls: seq<Poll>)
    ensures var r := ReadAnswer(p, polls);
            && r.port.answers == p.answers + (if r.ok then [r.answer] else [])
            && (r.ok ==> r.answer != []) && (!r.ok ==> r.answer == [])
    decreases |polls|
  {
    hide FirstSeparator;
    if polls == [] {
      assert p.answers + [] == p.answers;
    } else {
      var q := AfterRead(p, polls[0].arrival);
      ReadKeepsAnswers(p, polls[0].arrival);
      hide AfterRead;
      assert q.answers + [] == q.answers;
      if ReadSucceeds(p, polls[0].arrival) {
        var i := FirstSeparator(q.content);
        if i == |q.content| {
          AnswerIsRecorded(q, polls[1..]);
        } else {
          AnswerIsRecorded(TakeLine(q), polls[1..]);
        }
      }
    }
  }

  lemma ReadKeepsAnswers(p: Port, arrival: Arrival)
    ensures AfterRead(p, arrival).answers == p.answers
    ensures AfterRead(p, arrival).intact <==> p.intact && (p.isOpen ==> |p.content| <= SIZE - 64)
    ensures |AfterRead(p, arrival).content| <= |p.content| + if arrival.Delivers? then |arrival.bytes| else 0
  {
    hide Fitting;
  }

  /** A read of an open port whose buffer is nearly full drops one byte, the oldest; then as much as
      49999 bytes have room for is appended. */
  lemma ReadExactly(p: Port, bytes: seq<byte>)
    requires p.isOpen && |p.content| < SIZE
    ensures var kept := if |p.content| > 49936 then p.content[1..] else p.content;
            var taken := if |kept| + |bytes| <= 49999 then bytes else bytes[..49999 - |kept|];
            && AfterRead(p, Delivers(bytes)).content == kept + taken
            && AfterRead(p, Delivers(bytes)).received == p.received + taken
            && AfterRead(p, Failed).content == kept
  {
  }

  function Arriving(polls: seq<Poll>): nat {
    if polls == [] then 0
    else (if polls[0].arrival.Delivers? then |polls[0].arrival.bytes| else 0) + Arriving(polls[1..])
  }

  /** Waiting for a line loses nothing while what is buffered and what arrives stay out of the last
      64 bytes of the buffer. */
  lemma {:induction false} AnswerKeepsIntact(p: Port, polls: seq<Poll>)
    requires p.intact && |p.content| + Arriving(polls) <= SIZE - 64
    ensures ReadAnswer(p, polls).port.intact
    ensures |ReadAnswer(p, polls).port.content| <= |p.content| + Arriving(polls)
    decreases |polls|
  {
    hide FirstSeparator;
    if polls != [] {
      var q := AfterRead(p, polls[0].arrival);
      ReadKeepsAnswers(p, polls[0].arrival);
      hide AfterRead;
      if ReadSucceeds(p, polls[0].arrival) {
        var i := FirstSeparator(q.content);
        if i == |q.content| {
          AnswerKeepsIntact(q, polls[1..]);
        } else {
          AnswerKeepsIntact(TakeLine(q), polls[1..]);
        }
      }
    }
  }

  // ----- when a line is returned --------------------------------------------------------------

  /** Everything the first n polls deliver. */
  function Arrived(polls: seq<Poll>, n: nat): seq<byte>
    requires n <= |polls|
  {
    if n == 0 then []
    else Arrived(polls, n - 1) + match polls[n - 1].arrival case Failed => [] case Delivers(bytes) => bytes
  }

  /** The bytes a line may be found in at poll k: what was buffered and what has arrived by then. */
  function Stream(s: seq<byte>, polls: seq<Poll>, k: nat): seq<byte>
    requires k < |polls|
  {
    s + Arrived(polls, k + 1)
  }

  /** The empty pieces in front of the first line. */
  function Blanks(s: seq<byte>): (n: nat)
    ensures n <= |s|
  {
    if s == [] || !IsSeparator(s[0]) then 0 else 1 + Blanks(s[1..])
  }

  /** The polls among the first k that went to an empty piece: one each, once it has arrived. */
  function Spent(s: seq<byte>, polls: seq<Poll>, k: nat): nat
    requires k <= |polls|
  {
    if k == 0 then 0
    else
      var before := Spent(s, polls, k - 1);
      if before < Blanks(Stream(s, polls, k - 1)) then before + 1 else before
  }

  predicate AllDeliver(polls: seq<Poll>, n: nat)
    requires n <= |polls|
  {
    forall j | 0 <= j < n :: polls[j].arrival.Delivers?
  }

  /** At poll k all empty pieces that have arrived are gone, and the loop may go on only after an
      undisturbed sleep. */
  predicate Waits(s: seq<byte>, polls: seq<Poll>, k: nat)
    requires k < |polls|
  {
    Spent(s, polls, k) == Blanks(Stream(s, polls, k))
  }

  /** At poll k a terminated nonempty piece has come to the front, and nothing has gone wrong. */
  predicate ReadyAt(s: seq<byte>, polls: seq<Poll>, k: nat)
    requires k < |polls|
  {
    && Lines(Stream(s, polls, k)) != [] && Waits(s, polls, k)
    && AllDeliver(polls, k + 1) && forall j | 0 <= j < k :: Waits(s, polls, j) ==> polls[j].slept
  }

  lemma {:induction false} ArrivedShift(polls: seq<Poll>, n: nat)
    requires n < |polls| && polls[0].arrival.Delivers?
    ensures Arrived(polls, n + 1) == polls[0].arrival.bytes + Arrived(polls[1..], n)
  {
    var first := polls[0].arrival.bytes;
    if n == 0 {
      assert Arrived(polls, 0) == [] && Arrived(polls[1..], 0) == [];
      assert [] + first == first && first + [] == first;
    } else {
      ArrivedShift(polls, n - 1);
      var more := match polls[n].arrival case Failed => [] case Delivers(bytes) => bytes;
      assert polls[1..][n - 1] == polls[n];
      Regroup(first, Arrived(polls[1..], n - 1), more);
    }
  }

  lemma LinesBehindBlank(s: seq<byte>)
    requires s != [] && IsSeparator(s[0])
    ensures Lines(s) == Lines(s[1..]) && Blanks(s) == 1 + Blanks(s[1..])
  {
    assert s[..0] == [] && NonEmpty(s[..0]) + Lines(s[1..]) == Lines(s[1..]);
  }

  lemma LinesWithoutBlank(s: seq<byte>)
    requires Blanks(s) == 0
    ensures var i := FirstSeparator(s);
            && (Lines(s) != [] <==> i < |s|)
            && (i < |s| ==> i > 0 && Lines(s)[0] == s[..i])
  {
  }

  /** What the next poll leaves in front of the others: the empty piece at the front is gone. */
  function Rest(s: seq<byte>): seq<byte> {
    if Blanks(s) > 0 then s[1..] else s
  }

  lemma StreamShift(s: seq<byte>, polls: seq<Poll>, k: nat)
    requires k + 1 < |polls| && polls[0].arrival.Delivers?
    ensures var q := s + polls[0].arrival.bytes;
            var all, rest := Stream(s, polls, k + 1), Stream(Rest(q), polls[1..], k);
            && Lines(all) == Lines(rest) && Blanks(all) == Blanks(rest) + (if Blanks(q) > 0 then 1 else 0)
            && q <= all
  {
    hide Lines, FirstSeparator, Arrived;
    var first, more := polls[0].arrival.bytes, Arrived(polls[1..], k + 1);
    var q := s + first;
    ArrivedShift(polls, k + 1);
    Regroup(s, first, more);
    if Blanks(q) > 0 {
      assert (q + more)[1..] == q[1..] + more;
      LinesBehindBlank(q + more);
    }
  }

  lemma {:induction false} SpentShift(s: seq<byte>, polls: seq<Poll>, k: nat)
    requires k < |polls| && polls[0].arrival.Delivers?
    ensures var q := s + polls[0].arrival.bytes;
            Spent(s, polls, k + 1) == Spent(Rest(q), polls[1..], k) + (if Blanks(q) > 0 then 1 else 0)
  {
    hide Lines, Blanks, Stream, Rest;
    if k == 0 {
      FirstStream(s, polls);
      assert Spent(s, polls, 0) == 0;
    } else {
      StreamShift(s, polls, k - 1);
      SpentShift(s, polls, k - 1);
    }
  }

  lemma FirstStream(s: seq<byte>, polls: seq<Poll>)
    requires polls != [] && polls[0].arrival.Delivers?
    ensures Stream(s, polls, 0) == s + polls[0].arrival.bytes
  {
    assert Arrived(polls, 0) == [] && [] + polls[0].arrival.bytes == polls[0].arrival.bytes;
  }

  /** Whether a later poll finds the line is seen from the polls behind the first. */
  lemma ReadyShift(s: seq<byte>, polls: seq<Poll>, k: nat)
    requires k + 1 < |polls| && polls[0].arrival.Delivers?
    ensures var q := s + polls[0].arrival.bytes;
            ReadyAt(s, polls, k + 1) <==>
            ReadyAt(Rest(q), polls[1..], k) && (Blanks(q) == 0 ==> polls[0].slept)
  {
    hide Lines, Blanks, Stream, Rest, Spent;
    var q, later := s + polls[0].arrival.bytes, polls[1..];
    FirstStream(s, polls);
    assert Spent(s, polls, 0) == 0 by {
      NothingSpent(s, polls);
    }
    forall j | 0 <= j <= k
      ensures Waits(s, polls, j + 1) <==> Waits(Rest(q), later, j)
    {
      StreamShift(s, polls, j);
      SpentShift(s, polls, j);
    }
    StreamShift(s, polls, k);
    assert AllDeliver(polls, k + 2) <==> AllDeliver(later, k + 1) by {
      assert forall j | 0 <= j < k + 1 :: later[j] == polls[j + 1];
      if AllDeliver(later, k + 1) {
        assert forall j | 0 < j < k + 2 :: polls[j] == later[j - 1];
      }
    }
    SleptShift(s, polls, k);
  }

  lemma NothingSpent(s: seq<byte>, polls: seq<Poll>)
    ensures Spent(s, polls, 0) == 0
  {
  }

  lemma SleptShift(s: seq<byte>, polls: seq<Poll>, k: nat)
    requires k + 1 < |polls| && polls[0].arrival.Delivers?
    requires var q := s + polls[0].arrival.bytes;
             && (Waits(s, polls, 0) <==> Blanks(q) == 0)
             && forall j | 0 <= j <= k :: Waits(s, polls, j + 1) <==> Waits(Rest(q), polls[1..], j)
    ensures var q := s + polls[0].arrival.bytes;
            (forall j | 0 <= j < k + 1 :: Waits(s, polls, j) ==> polls[j].slept) <==>
            (forall j | 0 <= j < k :: Waits(Rest(q), polls[1..], j) ==> polls[1..][j].slept)
            && (Blanks(q) == 0 ==> polls[0].slept)
  {
    hide Waits, Rest, Blanks;
    var q, later := s + polls[0].arrival.bytes, polls[1..];
    if forall j | 0 <= j < k + 1 :: Waits(s, polls, j) ==> polls[j].slept {
      forall j | 0 <= j < k && Waits(Rest(q), later, j)
        ensures later[j].slept
      {
        assert Waits(s, polls, j + 1);
      }
    }
    if (forall j | 0 <= j < k :: Waits(Rest(q), later, j) ==> later[j].slept) && (Blanks(q) == 0 ==> polls[0].slept) {
      forall j | 0 <= j < k + 1 && Waits(s, polls, j)
        ensures polls[j].slept
      {
        if j > 0 {
          assert Waits(s, polls, (j - 1) + 1);
          assert later[j - 1] == polls[j];
        }
      }
    }
  }
  predicate EverReady(s: seq<byte>, polls: seq<Poll>) {
    exists k | 0 <= k < |polls| :: ReadyAt(s, polls, k)
  }

  lemma EverShift(s: seq<byte>, polls: seq<Poll>)
    requires polls != [] && polls[0].arrival.Delivers? && !ReadyAt(s, polls, 0)
    ensures var q := s + polls[0].arrival.bytes;
            EverReady(s, polls) <==> EverReady(Rest(q), polls[1..]) && (Blanks(q) == 0 ==> polls[0].slept)
  {
    hide ReadyAt, Rest, Blanks;
    var q := s + polls[0].arrival.bytes;
    if EverReady(s, polls) {
      var k :| 0 <= k < |polls| && ReadyAt(s, polls, k);
      ReadyShift(s, polls, k - 1);
    }
    if EverReady(Rest(q), polls[1..]) {
      var k :| 0 <= k < |polls[1..]| && ReadyAt(Rest(q), polls[1..], k);
      ReadyShift(s, polls, k);
    }
  }

  /** The first poll finds a line exactly if no empty piece is in front of it. */
  lemma ReadyFirst(s: seq<byte>, polls: seq<Poll>)
    requires polls != [] && polls[0].arrival.Delivers?
    ensures var q := s + polls[0].arrival.bytes;
            ReadyAt(s, polls, 0) <==> 0 < FirstSeparator(q) < |q|
  {
    hide Lines;
    var q := s + polls[0].arrival.bytes;
    FirstStream(s, polls);
    if Blanks(q) == 0 {
      LinesWithoutBlank(q);
    }
  }

  lemma DeliveredIsBuffered(p: Port, bytes: seq<byte>)
    requires p.isOpen && |p.content| + |bytes| <= SIZE - 64
    ensures var q := AfterRead(p, Delivers(bytes));
            q.isOpen && q.content == p.content + bytes
  {
  }

  /** The first line stays the same whatever arrives behind it. */
  lemma FirstLineStays(s: seq<byte>, more: seq<byte>)
    requires 0 < FirstSeparator(s) < |s|
    ensures Lines(s + more) != [] && Lines(s + more)[0] == s[..FirstSeparator(s)]
  {
    hide Lines;
    FirstSeparatorStays(s, more);
    LinesFirst(s + more);
    assert (s + more)[..FirstSeparator(s)] == s[..FirstSeparator(s)];
  }

  lemma StreamGrows(s: seq<byte>, polls: seq<Poll>, k: nat)
    requires k < |polls| && polls[0].arrival.Delivers?
    ensures s + polls[0].arrival.bytes <= Stream(s, polls, k)
  {
    hide Lines, Blanks;
    FirstStream(s, polls);
    if k > 0 {
      StreamShift(s, polls, k - 1);
    }
  }

  /** read_answer succeeds exactly if at some poll a terminated nonempty piece has come to the front,
      one poll having gone to each empty piece before it; and it returns that piece. */
  lemma {:induction false} AnswerExactly(p: Port, polls: seq<Poll>)
    requires |p.content| + Arriving(polls) <= SIZE - 64
    ensures var r := ReadAnswer(p, polls);
            && (r.ok <==> p.isOpen && EverReady(p.content, polls))
            && (r.ok ==> forall k | 0 <= k < |polls| && ReadyAt(p.content, polls, k) ::
                           r.answer == Lines(Stream(p.content, polls, k))[0])
    decreases |polls|
  {
    hide AfterRead, FirstSeparator, Lines, ReadyAt, EverReady, Stream, Blanks, Rest;
    if polls == [] {
      NeverReady(p.content);
    } else if p.isOpen && polls[0].arrival.Delivers? {
      var q := AfterRead(p, polls[0].arrival);
      DeliveredIsBuffered(p, polls[0].arrival.bytes);
      ReadyFirst(p.content, polls);
      FrontPiece(q.content);
      var i := FirstSeparator(q.content);
      if i == |q.content| {
        EverShift(p.content, polls);
        if polls[0].slept {
          AnswerExactly(q, polls[1..]);
          LaterLine(p.content, polls);
        }
      } else if i == 0 {
        EverShift(p.content, polls);
        AnswerExactly(TakeLine(q), polls[1..]);
        LaterLine(p.content, polls);
      } else {
        SomeReady(p.content, polls, 0);
        LineAtFront(p.content, polls);
      }
    } else if p.isOpen {
      FailedIsNotReady(p.content, polls);
    }
  }

  lemma NeverReady(s: seq<byte>)
    ensures !EverReady(s, [])
  {
  }

  lemma SomeReady(s: seq<byte>, polls: seq<Poll>, k: nat)
    requires k < |polls| && ReadyAt(s, polls, k)
    ensures EverReady(s, polls)
  {
  }

  lemma FailedIsNotReady(s: seq<byte>, polls: seq<Poll>)
    requires polls != [] && polls[0].arrival.Failed?
    ensures !EverReady(s, polls)
  {
    forall k | 0 <= k < |polls|
      ensures !ReadyAt(s, polls, k)
    {
      hide Lines, Waits;
      assert !AllDeliver(polls, k + 1);
    }
  }

  lemma FrontPiece(s: seq<byte>)
    ensures var i := FirstSeparator(s);
            && (i == |s| ==> Rest(s) == s && Blanks(s) == 0)
            && (i == 0 && i < |s| ==> Rest(s) == s[1..] && Blanks(s) > 0)
  {
  }

  lemma LaterLine(s: seq<byte>, polls: seq<Poll>)
    requires polls != [] && polls[0].arrival.Delivers? && !ReadyAt(s, polls, 0)
    ensures var q := s + polls[0].arrival.bytes;
            forall k | 0 <= k < |polls| && ReadyAt(s, polls, k) ::
              && k > 0 && ReadyAt(Rest(q), polls[1..], k - 1)
              && Lines(Stream(s, polls, k)) == Lines(Stream(Rest(q), polls[1..], k - 1))
  {
    hide ReadyAt, Rest, Blanks, Lines, Stream;
    forall k | 0 <= k < |polls| && ReadyAt(s, polls, k)
      ensures var q := s + polls[0].arrival.bytes;
              && k > 0 && ReadyAt(Rest(q), polls[1..], k - 1)
              && Lines(Stream(s, polls, k)) == Lines(Stream(Rest(q), polls[1..], k - 1))
    {
      ReadyShift(s, polls, k - 1);
      StreamShift(s, polls, k - 1);
    }
  }

  lemma LineAtFront(s: seq<byte>, polls: seq<Poll>)
    requires polls != [] && polls[0].arrival.Delivers?
    requires var q := s + polls[0].arrival.bytes; 0 < FirstSeparator(q) < |q|
    ensures var q := s + polls[0].arrival.bytes;
            forall k | 0 <= k < |polls| ::
              Lines(Stream(s, polls, k)) != [] && Lines(Stream(s, polls, k))[0] == q[..FirstSeparator(q)]
  {
    hide FirstSeparator, Lines, Stream;
    var q := s + polls[0].arrival.bytes;
    forall k | 0 <= k < |polls|
      ensures Lines(Stream(s, polls, k)) != [] && Lines(Stream(s, polls, k))[0] == q[..FirstSeparator(q)]
    {
      StreamGrows(s, polls, k);
      var all := Stream(s, polls, k);
      assert all == q + all[|q|..];
      FirstLineStays(q, all[|q|..]);
    }
  }

  /** The empty pieces in front stay as many once a line is behind them. */
  lemma {:induction false} BlanksStay(s: seq<byte>, more: seq<byte>)
    requires Lines(s) != []
    ensures Blanks(s + more) == Blanks(s) && Lines(s + more) != [] && Lines(s + more)[0] == Lines(s)[0]
  {
    hide Lines, FirstSeparator;
    if Blanks(s) > 0 {
      LinesBehindBlank(s);
      assert (s + more)[1..] == s[1..] + more;
      LinesBehindBlank(s + more);
      BlanksStay(s[1..], more);
    } else {
      LinesWithoutBlank(s);
      FirstLineStays(s, more);
      NoBlankInFront(s, more);
    }
  }

  lemma NoBlankInFront(s: seq<byte>, more: seq<byte>)
    requires s != [] && Blanks(s) == 0
    ensures Blanks(s + more) == 0
  {
  }

  lemma {:induction false} StreamLater(s: seq<byte>, polls: seq<Poll>, k: nat, m: nat)
    requires k <= m < |polls|
    ensures Stream(s, polls, k) <= Stream(s, polls, m)
    decreases m
  {
    if k < m {
      StreamLater(s, polls, k, m - 1);
      var more := match polls[m].arrival case Failed => [] case Delivers(bytes) => bytes;
      Regroup(s, Arrived(polls, m), more);
    }
  }

  lemma {:induction false} SpentGrows(s: seq<byte>, polls: seq<Poll>, k: nat, m: nat)
    requires k <= m < |polls| && Lines(Stream(s, polls, k)) != []
    ensures var blanks := Blanks(Stream(s, polls, k));
            && Lines(Stream(s, polls, m)) != [] && Blanks(Stream(s, polls, m)) == blanks
            && Lines(Stream(s, polls, m))[0] == Lines(Stream(s, polls, k))[0]
            && Spent(s, polls, m) <= blanks && (Spent(s, polls, m) >= m - k || Spent(s, polls, m) == blanks)
    decreases m
  {
    hide Lines, Blanks, Stream;
    StreamLater(s, polls, k, m);
    var one, all := Stream(s, polls, k), Stream(s, polls, m);
    assert all == one + all[|one|..];
    BlanksStay(one, all[|one|..]);
    if k < m {
      SpentGrows(s, polls, k, m - 1);
    } else {
      SpentIsBelow(s, polls, k);
    }
  }

  lemma BlanksGrow(s: seq<byte>, more: seq<byte>)
    ensures Blanks(s + more) >= Blanks(s)
  {
    if s != [] && IsSeparator(s[0]) {
      BlanksGrow(s[1..], more);
      assert (s + more)[1..] == s[1..] + more;
    }
  }

  lemma {:induction false} SpentIsBelow(s: seq<byte>, polls: seq<Poll>, k: nat)
    requires k < |polls|
    ensures Spent(s, polls, k) <= Blanks(Stream(s, polls, k))
    decreases k
  {
    hide Blanks, Stream;
    if k > 0 {
      SpentIsBelow(s, polls, k - 1);
      StreamLater(s, polls, k - 1, k);
      var one, all := Stream(s, polls, k - 1), Stream(s, polls, k);
      assert all == one + all[|one|..];
      BlanksGrow(one, all[|one|..]);
    }
  }

  /** On an open port whose driver delivers and whose sleeps are undisturbed, a line that is there
      after poll k is returned if one more poll is left for each empty piece in front of it. */
  lemma EnoughPolls(p: Port, polls: seq<Poll>, k: nat)
    requires p.isOpen && |p.content| + Arriving(polls) <= SIZE - 64
    requires AllDeliver(polls, |polls|) && forall j | 0 <= j < |polls| :: polls[j].slept
    requires k < |polls| && Lines(Stream(p.content, polls, k)) != []
    requires k + Blanks(Stream(p.content, polls, k)) < |polls|
    ensures var r := ReadAnswer(p, polls);
            r.ok && r.answer == Lines(Stream(p.content, polls, k))[0]
  {
    hide Lines, Blanks, Stream, Spent, ReadAnswer;
    var m := k + Blanks(Stream(p.content, polls, k));
    SpentGrows(p.content, polls, k, m);
    assert ReadyAt(p.content, polls, m);
    AnswerExactly(p, polls);
  }

  // ----- what the calls of a run return ----------------------------------------------------------

  function ResultOf(p: Port, op: Operation): seq<seq<byte>> {
    match op
    case Answer(polls) =>
      var r := ReadAnswer(p, polls);
      if r.ok then [r.answer] else []
    case _ => []
  }

  /** The lines the successful read_answer calls of a run have returned, in order. */
  function Results(ops: seq<Operation>): seq<seq<byte>> {
    if ops == [] then []
    else
      var n := |ops| - 1;
      Results(ops[..n]) + ResultOf(Run(NEW, ops[..n]), ops[n])
  }

  lemma OperationKeepsAnswers(p: Port, op: Operation)
    ensures After(p, op).answers == p.answers + ResultOf(p, op)
  {
    match op
    case SetOpen(_) =>
    case Read(arrival) => ReadKeepsAnswers(p, arrival);
    case DropFirst(_) =>
    case Flush(arrival) => ReadKeepsAnswers(p, arrival);
    case Answer(polls) => AnswerIsRecorded(p, polls);
  }

  lemma {:induction false} AnswersAreTheResults(ops: seq<Operation>)
    ensures Run(NEW, ops).answers == Results(ops)
  {
    hide After, ResultOf;
    if ops != [] {
      var n := |ops| - 1;
      AnswersAreTheResults(ops[..n]);
      OperationKeepsAnswers(Run(NEW, ops[..n]), ops[n]);
    }
  }

  /** The bytes the driver offers during a call. */
  function Offered(op: Operation): nat {
    match op
    case Read(arrival) => if arrival.Delivers? then |arrival.bytes| else 0
    case Flush(arrival) => if arrival.Delivers? then |arrival.bytes| else 0
    case Answer(polls) => Arriving(polls)
    case _ => 0
  }

  function OfferedBy(ops: seq<Operation>): nat {
    if ops == [] then 0 else OfferedBy(ops[..|ops| - 1]) + Offered(ops[|ops| - 1])
  }

  /** The caller only reads: it neither drops bytes itself nor flushes. */
  predicate OnlyReads(ops: seq<Operation>) {
    forall k | 0 <= k < |ops| :: ops[k].SetOpen? || ops[k].Read? || ops[k].Answer?
  }

  lemma OperationKeepsIntact(p: Port, op: Operation)
    requires p.intact && |p.content| + Offered(op) <= SIZE - 64 && (op.SetOpen? || op.Read? || op.Answer?)
    ensures After(p, op).intact && |After(p, op).content| <= |p.content| + Offered(op)
  {
    match op
    case SetOpen(_) =>
    case Read(arrival) => ReadKeepsAnswers(p, arrival);
    case Answer(polls) => AnswerKeepsIntact(p, polls);
  }

  /** Before each call the caller sees room for what arrives during it. */
  predicate HasRoom(ops: seq<Operation>) {
    ops == [] ||
    (var n := |ops| - 1;
     HasRoom(ops[..n]) && |Run(NEW, ops[..n]).content| + Offered(ops[n]) <= SIZE - 64)
  }

  lemma {:induction false} RunKeepsIntact(ops: seq<Operation>)
    requires OnlyReads(ops) && HasRoom(ops)
    ensures Run(NEW, ops).intact
  {
    hide After, Offered;
    if ops != [] {
      var n := |ops| - 1;
      RunKeepsIntact(ops[..n]);
      OperationKeepsIntact(Run(NEW, ops[..n]), ops[n]);
    }
  }

  /** There is room throughout if all that arrives in a run fits. */
  lemma {:induction false} FittingRunHasRoom(ops: seq<Operation>)
    requires OnlyReads(ops) && OfferedBy(ops) <= SIZE - 64
    ensures HasRoom(ops) && |Run(NEW, ops).content| <= OfferedBy(ops)
  {
    hide After, Offered;
    if ops != [] {
      var n := |ops| - 1;
      FittingRunHasRoom(ops[..n]);
      RunKeepsIntact(ops[..n]);
      OperationKeepsIntact(Run(NEW, ops[..n]), ops[n]);
    }
  }

  /** If the caller only reads and there is room for what arrives, the lines returned, followed by
      the lines still buffered, are those of all that was received. */
  lemma ResultsAreTheLines(ops: seq<Operation>)
    requires OnlyReads(ops) && HasRoom(ops)
    ensures Lines(Run(NEW, ops).received) == Results(ops) + Lines(Run(NEW, ops).content)
  {
    hide Run, Lines, Results, HasRoom;
    RunKeepsIntact(ops);
    AnswersAreTheLines(ops);
    AnswersAreTheResults(ops);
  }
}
