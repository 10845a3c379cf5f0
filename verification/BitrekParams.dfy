/** Parsing one packet of answers to a Bitrek parameter request. */
module BitrekParams {
  import opened Bytes
  import opened BitrekAnswers
  import opened ParamTypes
  import opened ParamVectors
  import opened ParamExchange

  // ----- reading one answer ---------------------------------------------------------------

  /** The bytes up to the first zero, or None when there is none before the data end. */
  function CString(data: seq<byte>, from: nat): Option<seq<byte>>
    decreases |data| - from
  {
    if from >= |data| then None
    else if data[from] == 0 then Some([])
    else
      var rest := CString(data, from + 1);
      if rest.None? then None else Some([data[from]] + rest.value)
  }

  /** A number of the announced width; another width reads as zero. */
  function Number(data: seq<byte>, at: nat, width: nat): Option<nat> {
    if at >= |data| then None
    else if data[at] != width then Some(0)
    else if at + 1 + width <= |data| then Some(FromBE(data[at + 1..at + 1 + width]))
    else None
  }

  function ReadByte(data: seq<byte>, at: nat): Option<byte> {
    if at >= |data| then None
    else if data[at] != 1 then Some(0)
    else if at + 1 < |data| then Some(data[at + 1])
    else None
  }

  /** The value of a parameter of kind t whose length byte is at `at`. */
  function ReadRow(data: seq<byte>, at: nat, id: int, t: int): Option<Row>
    requires 1 <= t <= 4
  {
    if t == 1 then
      var v := ReadByte(data, at);
      if v.None? then None else Some(Row(id, t, v.value, 0, [], 0))
    else if t == 2 then
      var v := Number(data, at, 2);
      if v.None? then None else Some(Row(id, t, 0, v.value, [], 0))
    else if t == 3 then
      var v := CString(data, at + 1);
      if v.None? then None else Some(Row(id, t, 0, 0, v.value, 0))
    else
      var v := Number(data, at, 4);
      if v.None? then None else Some(Row(id, t, 0, 0, [], v.value))
  }

  /** The kind of a requested id is what the request says, of any other what the table says. */
  function KindFor(params: Params, id: int): Option<int> {
    var j := FirstIndex(params.ids, id);
    if j == |params.ids| then Some(TypeForParam(id))
    else if j < |params.types| then Some(params.types[j])
    else None
  }

  function IdAt(data: seq<byte>, p: nat): int
    requires p + 2 < |data|
  {
    256 * (data[p + 1] as int) + data[p + 2]
  }

  /** What the answer at position p adds to the result. A kind outside 1..4 gets an id and a kind
      but no value. */
  function GetOne(params: Params, res: Params, data: seq<byte>, p: nat): Option<Params> {
    if p + 2 >= |data| then None
    else
      var id := IdAt(data, p);
      var kind := KindFor(params, id);
      if kind.None? then None
      else if 1 <= kind.value <= 4 then
        var row := ReadRow(data, p + 3, id, kind.value);
        if row.None? then None else Some(res.Append(row.value))
      else Some(res.(ids := res.ids + [id], types := res.types + [kind.value]))
  }

  function GetUpTo(params: Params, data: seq<byte>, ps: seq<nat>): Option<Params> {
    if ps == [] then Some(Nothing(false))
    else
      var before := GetUpTo(params, data, ps[..|ps| - 1]);
      if before.None? then None else GetOne(params, before.value, data, ps[|ps| - 1])
  }

  /** The answer to a set request carries one status byte. */
  function SetOne(res: Params, data: seq<byte>, p: nat): Option<Params> {
    if p + 3 >= |data| then None else Some(res.Append(Row(IdAt(data, p), 1, data[p + 3], 0, [], 0)))
  }

  function SetUpTo(data: seq<byte>, ps: seq<nat>): Option<Params> {
    if ps == [] then Some(Nothing(true))
    else
      var before := SetUpTo(data, ps[..|ps| - 1]);
      if before.None? then None else SetOne(before.value, data, ps[|ps| - 1])
  }

  // ----- one packet --------------------------------------------------------------------------

  /** Overread: the source reads outside the packet or outside one of its vectors. */
  datatype Parsed = Refused | Overread | Gathered(next: Exchange, complete: bool)

  function Finish(e: Exchange, res: Option<Params>): Parsed {
    if res.None? then Overread
    else
      var next := MergeUpTo(e, res.value, |res.value.ids|);
      if next.None? then Overread
      else Gathered(next.value, next.value.count == |next.value.params.ids|)
  }

  function Parse(e: Exchange, ud: seq<byte>): Parsed {
    if !Accepts(ud) then Refused
    else
      var data := ud[4..];
      var values := Found(data, 33);
      if values.overrun then Overread
      else if values.found != [] then Finish(e, GetUpTo(e.params, data, values.found))
      else
        var stored := Found(data, 37);
        if stored.overrun then Overread
        else if stored.found == [] then Refused
        else Finish(e, SetUpTo(data, stored.found))
  }

  // ----- the parser itself -----------------------------------------------------------------------

  method ReadValue(data: seq<byte>, at: nat, id: int, t: int) returns (row: Option<Row>)
    requires 1 <= t <= 4
    ensures row == ReadRow(data, at, id, t)
  {
    if t == 3 {
      var s := CString(data, at + 1);
      if s.None? {
        return None;
      }
      return Some(Row(id, 3, 0, 0, s.value, 0));
    }
    if at >= |data| {
      return None;
    }
    if t == 1 {
      if data[at] == 1 {
        if at + 1 >= |data| {
          return None;
        }
        row := Some(Row(id, 1, data[at + 1], 0, [], 0));
      } else {
        row := Some(Row(id, 1, 0, 0, [], 0));
      }
    } else if t == 2 {
      if data[at] == 2 {
        if at + 2 >= |data| {
          return None;
        }
        row := Some(Row(id, 2, 0, FromBE(data[at + 1..at + 3]), [], 0));
      } else {
        row := Some(Row(id, 2, 0, 0, [], 0));
      }
    } else {
      if data[at] == 4 {
        if at + 4 >= |data| {
          return None;
        }
        row := Some(Row(id, 4, 0, 0, [], FromBE(data[at + 1..at + 5])));
      } else {
        row := Some(Row(id, 4, 0, 0, [], 0));
      }
    }
  }

  method LookUpKind(params: Params, id: int) returns (kind: Option<int>)
    ensures kind == KindFor(params, id)
  {
    var t := GetTypeForParam(id);
    var j := IndexOf(params.ids, id);
    kind := Some(t);
    if j < |params.ids| {
      if j >= |params.types| {
        return None;
      }
      kind := Some(params.types[j]);
    }
  }

  method TakeAnswer(params: Params, res: Params, data: seq<byte>, p: nat) returns (next: Option<Params>)
    ensures next == GetOne(params, res, data, p)
  {
    if p + 2 >= |data| {
      return None;
    }
    var id := IdAt(data, p);
    var kind := LookUpKind(params, id);
    hide KindFor, ReadRow;
    if kind.None? {
      return None;
    }
    if 1 <= kind.value <= 4 {
      var row := ReadValue(data, p + 3, id, kind.value);
      if row.None? {
        return None;
      }
      next := Some(res.Append(row.value));
    } else {
      next := Some(res.(ids := res.ids + [id], types := res.types + [kind.value]));
    }
  }

  lemma {:induction false} GetFails(params: Params, data: seq<byte>, ps: seq<nat>, k: nat)
    requires k <= |ps| && GetUpTo(params, data, ps[..k]).None?
    ensures GetUpTo(params, data, ps).None?
  {
    hide GetOne;
    if k == |ps| {
      assert ps[..k] == ps;
    } else {
      var n := |ps| - 1;
      assert ps[..n][..k] == ps[..k];
      GetFails(params, data, ps[..n], k);
    }
  }

  method TakeAnswers(params: Params, data: seq<byte>, ps: seq<nat>) returns (res: Option<Params>)
    ensures res == GetUpTo(params, data, ps)
  {
    hide GetOne;
    res := Some(Nothing(false));
    var i := 0;
    while i < |ps|
      invariant i <= |ps| && res.Some? && res == GetUpTo(params, data, ps[..i])
    {
      assert ps[..i + 1][..i] == ps[..i];
      res := TakeAnswer(params, res.value, data, ps[i]);
      i := i + 1;
      if res.None? {
        GetFails(params, data, ps, i);
        return;
      }
    }
    assert ps[..i] == ps;
  }

  lemma {:induction false} SetFails(data: seq<byte>, ps: seq<nat>, k: nat)
    requires k <= |ps| && SetUpTo(data, ps[..k]).None?
    ensures SetUpTo(data, ps).None?
  {
    hide SetOne;
    if k == |ps| {
      assert ps[..k] == ps;
    } else {
      var n := |ps| - 1;
      assert ps[..n][..k] == ps[..k];
      SetFails(data, ps[..n], k);
    }
  }

  method TakeStatuses(data: seq<byte>, ps: seq<nat>) returns (res: Option<Params>)
    ensures res == SetUpTo(data, ps)
  {
    res := Some(Nothing(true));
    var i := 0;
    while i < |ps|
      invariant i <= |ps| && res.Some? && res == SetUpTo(data, ps[..i])
    {
      assert ps[..i + 1][..i] == ps[..i];
      if ps[i] + 3 >= |data| {
        SetFails(data, ps, i + 1);
        return None;
      }
      res := Some(res.value.Append(Row(IdAt(data, ps[i]), 1, data[ps[i] + 3], 0, [], 0)));
      i := i + 1;
    }
    assert ps[..i] == ps;
  }
}
