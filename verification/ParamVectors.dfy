/** The six parallel vectors of a Bitrek parameter request and its result. */
module ParamVectors {
  import opened Bytes

  /** One parameter: its id, kind and value. Only the field that belongs to the kind is used. */
  datatype Row = Row(id: int, kind: int, data1: byte, data2: int, str: seq<byte>, data4: int)

  datatype Params = Params(forSetting: bool, ids: seq<int>, types: seq<int>, data1: seq<byte>, data2: seq<int>,
                           strs: seq<seq<byte>>, data4: seq<int>) {

    /** All six vectors have the same length. */
    predicate Even() {
      |types| == |ids| && |data1| == |ids| && |data2| == |ids| && |strs| == |ids| && |data4| == |ids|
    }

    predicate HasRow(i: nat) {
      i < |ids| && i < |types| && i < |data1| && i < |data2| && i < |strs| && i < |data4|
    }

    function RowAt(i: nat): Row
      requires HasRow(i)
    {
      Row(ids[i], types[i], data1[i], data2[i], strs[i], data4[i])
    }

    /** What the pushes of one answer do. */
    function Append(row: Row): (p: Params)
      ensures p.ids == ids + [row.id]
      ensures Even() ==> p.Even() && p.RowAt(|ids|) == row
    {
      Params(forSetting, ids + [row.id], types + [row.kind], data1 + [row.data1], data2 + [row.data2],
             strs + [row.str], data4 + [row.data4])
    }

    /** What the assignments to one slot do; the id stays. */
    function Replace(i: nat, row: Row): (p: Params)
      requires HasRow(i)
      ensures p.ids == ids && p.HasRow(i) && p.RowAt(i) == row.(id := ids[i])
      ensures Even() ==> p.Even()
    {
      Params(forSetting, ids, types[i := row.kind], data1[i := row.data1], data2[i := row.data2],
             strs[i := row.str], data4[i := row.data4])
    }
  }

  function Nothing(forSetting: bool): Params {
    Params(forSetting, [], [], [], [], [], [])
  }

  /** The rows of even vectors. */
  function Rows(p: Params): (rows: seq<Row>)
    requires p.Even()
    ensures |rows| == |p.ids|
  {
    seq(|p.ids|, i requires 0 <= i < |p.ids| => p.RowAt(i))
  }

  function OfRows(forSetting: bool, rows: seq<Row>): (p: Params)
    ensures p.Even() && |p.ids| == |rows|
  {
    if rows == [] then Nothing(forSetting) else OfRows(forSetting, rows[..|rows| - 1]).Append(rows[|rows| - 1])
  }

  lemma OfRowsSnoc(forSetting: bool, rows: seq<Row>, row: Row)
    ensures OfRows(forSetting, rows + [row]) == OfRows(forSetting, rows).Append(row)
  {
    assert (rows + [row])[..|rows|] == rows;
  }

  lemma {:induction false} RowsAreKept(forSetting: bool, rows: seq<Row>, j: nat)
    requires j < |rows|
    ensures OfRows(forSetting, rows).RowAt(j) == rows[j]
  {
    var n := |rows| - 1;
    if j < n {
      RowsAreKept(forSetting, rows[..n], j);
    }
  }

  /** Where an id first occurs, or the number of ids. */
  function FirstIndex(ids: seq<int>, id: int): (ind: nat)
    ensures ind <= |ids|
    ensures ind < |ids| ==> ids[ind] == id
    ensures forall j | 0 <= j < ind :: ids[j] != id
    ensures ind == |ids| <==> id !in ids
  {
    if ids == [] || ids[0] == id then 0 else 1 + FirstIndex(ids[1..], id)
  }

  method IndexOf(ids: seq<int>, id: int) returns (ind: nat)
    ensures ind == FirstIndex(ids, id)
  {
    ind := 0;
    while ind < |ids| && ids[ind] != id
      invariant ind <= |ids| && forall j | 0 <= j < ind :: ids[j] != id
    {
      ind := ind + 1;
    }
  }
}
