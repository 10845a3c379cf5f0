/** The request of a Bitrek parameter exchange and the device object that keeps the exchange. */
module BitrekDevice {
  import opened Bytes
  import Crc16
  import opened BitrekStream
  import opened BitrekAnswers
  import opened ParamTypes
  import opened ParamVectors
  import opened ParamExchange
  import opened BitrekParams
  import opened BitrekExchange

  /** The low bytes of a number of either sign. */
  function Low(x: int, width: nat): (s: seq<byte>)
    ensures |s| == width
  {
    PowerIsPositive(width);
    ToBE(x % Pow256(width), width)
  }

  lemma PowerIsPositive(width: nat)
    ensures Pow256(width) > 0
  {
  }

  function GetBody(ids: seq<int>): seq<byte> {
    if ids == [] then []
    else GetBody(ids[..|ids| - 1]) + [32] + Low(ids[|ids| - 1], 2)
  }

  /** The value part of one parameter of a set request, by the kind the table gives its id. */
  function ValueBytes(row: Row): seq<byte> {
    var t := TypeForParam(row.id);
    if t == 1 then [1, row.data1]
    else if t == 2 then [2] + Low(row.data2, 2)
    else if t == 3 then [|row.str| % 256] + row.str + [0]
    else [4] + Low(row.data4, 4)
  }

  function SetEntry(row: Row): seq<byte> {
    [36] + Low(row.id, 2) + ValueBytes(row)
  }

  function SetBody(rows: seq<Row>): seq<byte> {
    if rows == [] then [] else SetBody(rows[..|rows| - 1]) + SetEntry(rows[|rows| - 1])
  }

  /** The request frame. A set request must bring a value for every id. */
  function Request(req: Params): seq<byte>
    requires req.forSetting ==> req.Even()
  {
    Short([|req.ids| % 256] + if req.forSetting then SetBody(Rows(req)) else GetBody(req.ids))
  }

  lemma {:induction false} GetBodySize(ids: seq<int>)
    ensures |GetBody(ids)| == 3 * |ids|
  {
    hide Low;
    if ids != [] {
      GetBodySize(ids[..|ids| - 1]);
    }
  }

  /** A get request names the low sixteen bits of every id in order. */
  lemma {:induction false} GetBodyNamesIds(ids: seq<int>, k: nat)
    requires k < |ids|
    ensures |GetBody(ids)| == 3 * |ids|
    ensures GetBody(ids)[3 * k] == 32
    ensures FromBE(GetBody(ids)[3 * k + 1..3 * k + 3]) == ids[k] % 0x1_0000
    decreases |ids|
  {
    hide Low, GetBody, FromBE;
    var n := |ids| - 1;
    var b, entry := GetBody(ids[..n]), [32] + Low(ids[n], 2);
    GetBodySize(ids);
    GetBodySize(ids[..n]);
    LastId(ids);
    if k < n {
      assert 3 * k + 3 <= 3 * n;
      GetBodyNamesIds(ids[..n], k);
      InsidePrefix(b, entry, 3 * k + 1, 3 * k + 3);
      assert (b + entry)[3 * k] == b[3 * k];
    } else {
      LowReadsBack(ids[n], 2);
      assert (b + entry)[3 * k..] == entry;
      assert (b + entry)[3 * k + 1..3 * k + 3] == Low(ids[n], 2);
    }
  }

  lemma LastId(ids: seq<int>)
    requires ids != []
    ensures var n := |ids| - 1; GetBody(ids) == GetBody(ids[..n]) + ([32] + Low(ids[n], 2))
  {
    hide Low;
    var n := |ids| - 1;
    Regroup(GetBody(ids[..n]), [32], Low(ids[n], 2));
  }

  lemma InsidePrefix(b: seq<byte>, more: seq<byte>, from: nat, to: nat)
    requires from <= to <= |b|
    ensures (b + more)[from..to] == b[from..to]
  {
  }

  lemma LowReadsBack(x: int, width: nat)
    ensures Pow256(width) > 0 && FromBE(Low(x, width)) == x % Pow256(width)
    ensures Pow256(2) == 0x1_0000 && Pow256(4) == 0x1_0000_0000
  {
    PowerIsPositive(width);
    ToThenFromBE(x % Pow256(width), width);
    assert Pow256(2) == 0x1_0000;
    assert Pow256(4) == 0x1_0000_0000 by {
      assert Pow256(3) == 0x100_0000;
    }
  }

  /** What a set request says of a parameter. */
  function Said(row: Row): Row {
    var t := TypeForParam(row.id);
    if t == 1 then Row(row.id, 1, row.data1, 0, [], 0)
    else if t == 2 then Row(row.id, 2, 0, row.data2 % 0x1_0000, [], 0)
    else if t == 3 then Row(row.id, 3, 0, 0, UpToNul(row.str + [0]), 0)
    else Row(row.id, 4, 0, 0, [], row.data4 % 0x1_0000_0000)
  }

  lemma KindsOnly(id: int)
    ensures var t := TypeForParam(id); t == 1 || t == 2 || t == 3 || t == 4
  {
    hide TypeForParam;
  }

  /** How many bytes a set request spends on a parameter. */
  function EntrySize(row: Row): nat {
    var t := TypeForParam(row.id);
    if t == 1 then 5 else if t == 2 then 6 else if t == 3 then 5 + |row.str| else 8
  }

  /** The place of an entry behind the count byte. */
  function Offset(rows: seq<Row>, k: nat): nat
    requires k <= |rows|
  {
    if k == 0 then 0 else Offset(rows, k - 1) + EntrySize(rows[k - 1])
  }

  lemma EntryLayout(data: seq<byte>, p: nat, row: Row)
    requires At(data, p, SetEntry(row))
    ensures p + 3 + |ValueBytes(row)| <= |data|
    ensures data[p] == 36 && FromBE(data[p + 1..p + 3]) == row.id % 0x1_0000
    ensures At(data, p + 3, ValueBytes(row)) && |SetEntry(row)| == 3 + |ValueBytes(row)|
  {
    hide Low, FromBE, ValueBytes, TypeForParam;
    LowReadsBack(row.id, 2);
    var head := [36] + Low(row.id, 2);
    AtConcat(data, p, head, ValueBytes(row));
    assert data[p..p + 3] == head;
    assert data[p] == head[0] && data[p + 1..p + 3] == data[p..p + 3][1..3] == Low(row.id, 2);
  }

  lemma NumberIsRead(data: seq<byte>, at: nat, width: byte, x: int)
    requires 0 < width && At(data, at, [width] + Low(x, width))
    ensures Pow256(width) > 0 && at < |data| && data[at] == width
    ensures Number(data, at, width) == Some(x % Pow256(width))
  {
    hide Low, FromBE;
    LowReadsBack(x, width);
    var s := [width] + Low(x, width);
    AtConcat(data, at, [width], Low(x, width));
    assert data[at] == data[at..at + 1][0];
  }

  lemma StringIsRead(data: seq<byte>, at: nat, text: seq<byte>)
    requires At(data, at, [|text| % 256] + text + [0])
    ensures at < |data| && data[at] == |text| % 256
    ensures CString(data, at + 1) == Some(UpToNul(text + [0]))
  {
    hide CString, UpToNul;
    var s := text + [0];
    assert [|text| % 256] + text + [0] == [|text| % 256] + s;
    AtConcat(data, at, [|text| % 256], s);
    assert data[at] == data[at..at + 1][0];
    assert s[|text|] == 0;
    CStringInside(data, at + 1, s);
  }

  /** The entry of a parameter in a set request: its size, the id it names, and the value, which the
      reader of the answers reads back. */
  lemma SetValueReadsBack(data: seq<byte>, p: nat, row: Row)
    requires At(data, p, SetEntry(row))
    ensures |SetEntry(row)| == EntrySize(row) && p + EntrySize(row) <= |data|
    ensures data[p] == 36 && FromBE(data[p + 1..p + 3]) == row.id % 0x1_0000
    ensures ReadRow(data, p + 3, row.id, TypeForParam(row.id)) == Some(Said(row))
    ensures (TypeForParam(row.id) == 3 ==> |row.str| < 256) ==>
              Next(data, p, TypeForParam(row.id)) == p + EntrySize(row)
  {
    hide SetEntry, ValueBytes, Low, TypeForParam, FromBE, ReadRow, Said, At;
    EntryLayout(data, p, row);
    ValueIsRead(data, p + 3, row);
  }

  /** The value part of an entry. */
  lemma ValueIsRead(data: seq<byte>, at: nat, row: Row)
    requires At(data, at, ValueBytes(row))
    ensures at < |data| && |ValueBytes(row)| + 3 == EntrySize(row)
    ensures ReadRow(data, at, row.id, TypeForParam(row.id)) == Some(Said(row))
    ensures var t: int := TypeForParam(row.id);
            (t == 3 ==> |row.str| < 256) ==> (data[at] as int) + (if t == 3 then 5 else 4) == EntrySize(row)
  {
    hide TypeForParam, ReadRow, Said, At, ValueBytes, EntrySize;
    KindsOnly(row.id);
    var t := TypeForParam(row.id);
    if t == 1 {
      FirstKindIsRead(data, at, row);
    } else if t == 2 {
      SecondKindIsRead(data, at, row);
    } else if t == 3 {
      ThirdKindIsRead(data, at, row);
    } else {
      FourthKindIsRead(data, at, row);
    }
  }

  lemma FirstKindIsRead(data: seq<byte>, at: nat, row: Row)
    requires At(data, at, ValueBytes(row)) && TypeForParam(row.id) == 1
    ensures at < |data| && data[at] == 1 && |ValueBytes(row)| == 2 && EntrySize(row) == 5
    ensures ReadRow(data, at, row.id, 1) == Some(Said(row))
  {
    hide TypeForParam, At;
    ByteIsRead(data, at, row.data1);
  }

  lemma SecondKindIsRead(data: seq<byte>, at: nat, row: Row)
    requires At(data, at, ValueBytes(row)) && TypeForParam(row.id) == 2
    ensures at < |data| && data[at] == 2 && |ValueBytes(row)| == 3 && EntrySize(row) == 6
    ensures ReadRow(data, at, row.id, 2) == Some(Said(row))
  {
    hide TypeForParam, At, Low, Number;
    NumberIsRead(data, at, 2, row.data2);
    LowReadsBack(row.data2, 2);
  }

  lemma ThirdKindIsRead(data: seq<byte>, at: nat, row: Row)
    requires At(data, at, ValueBytes(row)) && TypeForParam(row.id) == 3
    ensures at < |data| && data[at] == |row.str| % 256
    ensures |ValueBytes(row)| == 2 + |row.str| && EntrySize(row) == 5 + |row.str|
    ensures ReadRow(data, at, row.id, 3) == Some(Said(row))
  {
    hide TypeForParam, At, CString, UpToNul;
    StringIsRead(data, at, row.str);
  }

  lemma FourthKindIsRead(data: seq<byte>, at: nat, row: Row)
    requires At(data, at, ValueBytes(row)) && TypeForParam(row.id) == 4
    ensures at < |data| && data[at] == 4 && |ValueBytes(row)| == 5 && EntrySize(row) == 8
    ensures ReadRow(data, at, row.id, 4) == Some(Said(row))
  {
    hide TypeForParam, At, Low, Number;
    NumberIsRead(data, at, 4, row.data4);
    LowReadsBack(row.data4, 4);
  }

  lemma ByteIsRead(data: seq<byte>, at: nat, value: byte)
    requires At(data, at, [1, value])
    ensures at + 1 < |data| && data[at] == 1 && ReadByte(data, at) == Some(value)
  {
    assert data[at] == data[at..at + 2][0] && data[at + 1] == data[at..at + 2][1];
  }

  /** Where a device that goes by the kinds finds the entry behind the one at p. */
  function Next(data: seq<byte>, p: nat, t: int): nat
    requires p + 3 < |data|
  {
    p + 4 + (data[p + 3] as int) + if t == 3 then 1 else 0
  }

  predicate AllKinds(kinds: seq<int>) {
    forall k | 0 <= k < |kinds| :: 1 <= kinds[k] <= 4
  }

  /** A device that knows the kinds of the parameters reads a set request. */
  function ReadEntries(data: seq<byte>, p: nat, kinds: seq<int>): Option<seq<Row>>
    requires AllKinds(kinds)
    decreases |kinds|
  {
    if kinds == [] then Some([])
    else if p + 3 >= |data| || data[p] != 36 then None
    else
      var first := ReadRow(data, p + 3, FromBE(data[p + 1..p + 3]), kinds[0]);
      var rest := ReadEntries(data, Next(data, p, kinds[0]), kinds[1..]);
      if first.None? || rest.None? then None else Some([first.value] + rest.value)
  }

  lemma EntrySizeIs(row: Row)
    ensures |SetEntry(row)| == EntrySize(row)
  {
    hide SetEntry, EntrySize;
    assert SetEntry(row)[0..0 + |SetEntry(row)|] == SetEntry(row);
    SetValueReadsBack(SetEntry(row), 0, row);
  }

  lemma {:induction false} OffsetOfPrefix(rows: seq<Row>, n: nat, k: nat)
    requires k <= n <= |rows|
    ensures Offset(rows[..n], k) == Offset(rows, k)
    decreases k
  {
    hide EntrySize;
    if k > 0 {
      OffsetOfPrefix(rows, n, k - 1);
    }
  }

  lemma {:induction false} BodySize(rows: seq<Row>)
    ensures |SetBody(rows)| == Offset(rows, |rows|)
  {
    hide EntrySize, SetEntry;
    if rows != [] {
      var n := |rows| - 1;
      BodySize(rows[..n]);
      OffsetOfPrefix(rows, n, n);
      EntrySizeIs(rows[n]);
    }
  }

  lemma AtPrefix(data: seq<byte>, more: seq<byte>, p: nat, s: seq<byte>)
    requires At(data, p, s)
    ensures At(data + more, p, s)
  {
  }

  lemma {:induction false} BodyHasEntries(rows: seq<Row>, k: nat)
    requires k < |rows|
    ensures At(SetBody(rows), Offset(rows, k), SetEntry(rows[k]))
    decreases |rows|
  {
    hide EntrySize, SetEntry, SetBody, Offset, At;
    var n := |rows| - 1;
    LastEntry(rows);
    OffsetOfPrefix(rows, n, k);
    if k < n {
      BodyHasEntries(rows[..n], k);
      AtPrefix(SetBody(rows[..n]), SetEntry(rows[n]), Offset(rows, k), SetEntry(rows[k]));
    } else {
      BodySize(rows[..n]);
      AtEnd(SetBody(rows[..n]), SetEntry(rows[n]));
    }
  }

  lemma LastEntry(rows: seq<Row>)
    requires rows != []
    ensures var n := |rows| - 1; SetBody(rows) == SetBody(rows[..n]) + SetEntry(rows[n])
  {
    hide SetEntry;
  }

  lemma AtEnd(data: seq<byte>, s: seq<byte>)
    ensures At(data + s, |data|, s)
  {
  }

  lemma AtInside(ud: seq<byte>, from: nat, m: seq<byte>, p: nat, s: seq<byte>)
    requires At(ud, from, m) && At(m, p, s)
    ensures At(ud, from + p, s)
  {
    SliceOfSlice(ud, from, |m|, p, p + |s|);
  }

  lemma MessageInFrame(d: seq<byte>)
    ensures |Short(d)| == |d| + 6 && At(Short(d), 4, d)
  {
    hide ToBE, Crc16.Of, Crc16.ToField;
  }

  lemma RequestLayout(req: Params, body: seq<byte>)
    requires req.forSetting ==> req.Even()
    requires body == if req.forSetting then SetBody(Rows(req)) else GetBody(req.ids)
    ensures var ud := Request(req);
            |ud| == |body| + 7 && ud[4] == |req.ids| % 256 && At(ud, 5, body)
  {
    hide SetBody, GetBody, Short;
    var count: byte := |req.ids| % 256;
    MessageInFrame([count] + body);
    AtConcat(Request(req), 4, [count], body);
    assert Request(req)[4] == Request(req)[4..5][0];
  }

  /** A get request holds the number of ids and then the low sixteen bits of every id, in order. */
  lemma GetRequestSays(req: Params, k: nat)
    requires !req.forSetting && k < |req.ids|
    ensures var ud, p := Request(req), 5 + 3 * k;
            && |ud| == 7 + 3 * |req.ids| && ud[4] == |req.ids| % 256
            && ud[p] == 32 && FromBE(ud[p + 1..p + 3]) == req.ids[k] % 0x1_0000
  {
    hide Request, GetBody, FromBE;
    var body := GetBody(req.ids);
    RequestLayout(req, body);
    GetBodyNamesIds(req.ids, k);
    assert 3 * k + 3 <= 3 * |req.ids|;
    SliceOfSlice(Request(req), 5, |body|, 3 * k + 1, 3 * k + 3);
    assert Request(req)[5 + 3 * k] == body[3 * k];
  }

  lemma EntryInRequest(req: Params, k: nat)
    requires req.forSetting && req.Even() && k < |req.ids|
    ensures At(Request(req), 5 + Offset(Rows(req), k), SetEntry(Rows(req)[k]))
    ensures |Request(req)| == Offset(Rows(req), |req.ids|) + 7 && Request(req)[4] == |req.ids| % 256
  {
    hide Request, SetBody, SetEntry, Offset, At;
    RequestLayout(req, SetBody(Rows(req)));
    BodySize(Rows(req));
    BodyHasEntries(Rows(req), k);
    AtInside(Request(req), 5, SetBody(Rows(req)), Offset(Rows(req), k), SetEntry(Rows(req)[k]));
  }

  /** A set request holds the number of ids and then, in order, an entry for every id: the low
      sixteen bits of the id and the value of its kind. */
  lemma SetRequestSays(req: Params, k: nat)
    requires req.forSetting && req.Even() && k < |req.ids|
    ensures var ud, rows := Request(req), Rows(req);
            var p := 5 + Offset(rows, k);
            && |ud| == Offset(rows, |rows|) + 7 && ud[4] == |req.ids| % 256
            && p + EntrySize(rows[k]) <= |ud| && EntrySize(rows[k]) > 3
            && ud[p] == 36 && FromBE(ud[p + 1..p + 3]) == req.ids[k] % 0x1_0000
            && ReadRow(ud, p + 3, req.ids[k], TypeForParam(req.ids[k])) == Some(Said(rows[k]))
  {
    hide Request, SetEntry, Offset, ReadRow, Said, TypeForParam, FromBE, At;
    EntryInRequest(req, k);
    SetValueReadsBack(Request(req), 5 + Offset(Rows(req), k), Rows(req)[k]);
  }

  function KindsOf(ids: seq<int>): (kinds: seq<int>)
    ensures |kinds| == |ids| && AllKinds(kinds)
  {
    seq(|ids|, k requires 0 <= k < |ids| => TypeForParam(ids[k]))
  }

  /** A row as a device sees it, which knows sixteen bits of the id. */
  function OnTheWire(row: Row): Row {
    Said(row).(id := row.id % 0x1_0000)
  }

  lemma IdIsPassedOn(data: seq<byte>, at: nat, a: int, b: int, t: int)
    requires 1 <= t <= 4 && ReadRow(data, at, a, t).Some?
    ensures ReadRow(data, at, b, t) == Some(ReadRow(data, at, a, t).value.(id := b))
  {
    hide ReadByte, Number, CString;
  }

  function WireRows(req: Params): (rows: seq<Row>)
    requires req.Even()
    ensures |rows| == |req.ids|
  {
    seq(|req.ids|, j requires 0 <= j < |req.ids| => OnTheWire(Rows(req)[j]))
  }

  /** Every string is as short as its length byte can say. */
  predicate StringsFit(req: Params)
    requires req.Even()
  {
    forall j | 0 <= j < |req.ids| :: TypeForParam(req.ids[j]) == 3 ==> |req.strs[j]| < 256
  }

  lemma Apart(req: Params, k: nat)
    requires req.Even() && k < |req.ids|
    ensures WireRows(req)[k..] == [OnTheWire(Rows(req)[k])] + WireRows(req)[k + 1..]
    ensures KindsOf(req.ids)[k..] == [TypeForParam(req.ids[k])] + KindsOf(req.ids)[k + 1..]
  {
    hide OnTheWire, TypeForParam;
  }

  lemma {:induction false} EntriesFrom(req: Params, k: nat)
    requires req.forSetting && req.Even() && k <= |req.ids|
    requires StringsFit(req)
    ensures ReadEntries(Request(req), 5 + Offset(Rows(req), k), KindsOf(req.ids)[k..]) == Some(WireRows(req)[k..])
    decreases |req.ids| - k
  {
    hide Request, ReadRow, TypeForParam, FromBE, Next, ReadEntries, Offset, WireRows, KindsOf, OnTheWire, Rows;
    var kinds, p := KindsOf(req.ids), 5 + Offset(Rows(req), k);
    if k < |req.ids| {
      EntriesFrom(req, k + 1);
      EntryOnTheWire(req, k);
      Apart(req, k);
      OneMoreEntry(Request(req), p, kinds[k..], OnTheWire(Rows(req)[k]), WireRows(req)[k + 1..]);
    } else {
      assert kinds[k..] == [] && WireRows(req)[k..] == [];
      NoMoreEntries(Request(req), p);
    }
  }

  lemma EntryOnTheWire(req: Params, k: nat)
    requires req.forSetting && req.Even() && k < |req.ids|
    requires TypeForParam(req.ids[k]) == 3 ==> |req.strs[k]| < 256
    ensures var ud, rows := Request(req), Rows(req);
            var p, t := 5 + Offset(rows, k), TypeForParam(req.ids[k]);
            && p + 3 < |ud| && ud[p] == 36 && Next(ud, p, t) == 5 + Offset(rows, k + 1)
            && ReadRow(ud, p + 3, FromBE(ud[p + 1..p + 3]), t) == Some(OnTheWire(rows[k]))
  {
    hide Request, SetEntry, ReadRow, OnTheWire, TypeForParam, FromBE, At, EntrySize, Next, Offset;
    EntryInRequest(req, k);
    WireEntry(Request(req), 5 + Offset(Rows(req), k), Rows(req)[k]);
    NextOffset(Rows(req), k);
  }

  lemma WireEntry(data: seq<byte>, p: nat, row: Row)
    requires At(data, p, SetEntry(row)) && (TypeForParam(row.id) == 3 ==> |row.str| < 256)
    ensures p + 3 < |data| && data[p] == 36
    ensures Next(data, p, TypeForParam(row.id)) == p + EntrySize(row)
    ensures ReadRow(data, p + 3, FromBE(data[p + 1..p + 3]), TypeForParam(row.id)) == Some(OnTheWire(row))
  {
    hide SetEntry, ReadRow, Said, TypeForParam, FromBE, At, EntrySize, Next;
    SetValueReadsBack(data, p, row);
    SizeIsSmall(row);
    IdIsPassedOn(data, p + 3, row.id, FromBE(data[p + 1..p + 3]), TypeForParam(row.id));
  }

  lemma NextOffset(rows: seq<Row>, k: nat)
    requires k < |rows|
    ensures Offset(rows, k + 1) == Offset(rows, k) + EntrySize(rows[k])
  {
  }

  lemma NoMoreEntries(data: seq<byte>, p: nat)
    ensures ReadEntries(data, p, []) == Some([])
  {
  }

  lemma OneMoreEntry(data: seq<byte>, p: nat, kinds: seq<int>, row: Row, later: seq<Row>)
    requires AllKinds(kinds) && kinds != [] && p + 3 < |data| && data[p] == 36
    requires ReadRow(data, p + 3, FromBE(data[p + 1..p + 3]), kinds[0]) == Some(row)
    requires AllKinds(kinds[1..]) && ReadEntries(data, Next(data, p, kinds[0]), kinds[1..]) == Some(later)
    ensures ReadEntries(data, p, kinds) == Some([row] + later)
  {
    hide ReadRow, FromBE, Next;
  }

  lemma SizeIsSmall(row: Row)
    ensures EntrySize(row) > 3
  {
    hide TypeForParam;
  }

  /** A device that walks a set request by the kinds of its parameters reads exactly what was to be
      set, in order, if no string is longer than its length byte can say. */
  lemma SetRequestReadsBack(req: Params)
    requires req.forSetting && req.Even()
    requires StringsFit(req)
    ensures ReadEntries(Request(req), 5, KindsOf(req.ids)) ==
            Some(seq(|req.ids|, j requires 0 <= j < |req.ids| => OnTheWire(Rows(req)[j])))
  {
    hide Request, ReadEntries, OnTheWire, TypeForParam, KindsOf;
    EntriesFrom(req, 0);
    assert Offset(Rows(req), 0) == 0;
    assert KindsOf(req.ids)[0..] == KindsOf(req.ids) && WireRows(req)[0..] == WireRows(req);
  }

  class CarBitrek {
    var params: Params
    var count: int

    constructor ()
      ensures params == Nothing(false) && count == 0
    {
      params, count := Nothing(false), 0;
    }

    /** Builds the request and starts a new exchange. */
    method BuildGetParam(req: Params) returns (ud: seq<byte>)
      requires req.forSetting ==> req.Even()
      modifies this
      ensures ud == Request(req)
      ensures params == req && count == 0
    {
      params, count := req, 0;
      var cmd: seq<byte>;
      if !req.forSetting {
        cmd := BuildGetBody(req.ids);
      } else {
        cmd := BuildSetBody(req);
      }
      cmd := [|req.ids| % 256] + cmd;
      ud := ComputeCrc(cmd);
    }

    /** The parser. When it does not read outside its data, the exchange has moved on as Parse
        says, and res is the finished exchange if it is complete. */
    method ParseGetParam(ud: seq<byte>) returns (ok: bool, res: Params, overread: bool)
      modifies this
      ensures match Parse(old(Exchange(params, count)), ud)
              case Refused => !ok && !overread && params == old(params) && count == old(count)
              case Overread => overread
              case Gathered(next, complete) =>
                !overread && Exchange(params, count) == next && ok == complete && (ok ==> res == next.params)
    {
      hide Accepts, Found, GetUpTo, SetUpTo, MergeUpTo;
      ok, res, overread := false, Nothing(false), false;
      AcceptsExactly(ud);
      var fine := CheckHeader(ud);
      if !fine {
        return;
      }
      var data := ud[4..];
      var found, outside := FindAnswer(data, 33);
      if outside {
        overread := true;
        return;
      }
      var gathered: Option<Params>;
      if found == [] {
        found, outside := FindAnswer(data, 37);
        if outside {
          overread := true;
          return;
        }
        if found == [] {
          return;
        }
        gathered := TakeStatuses(data, found);
      } else {
        gathered := TakeAnswers(params, data, found);
      }
      if gathered.None? {
        overread := true;
        return;
      }
      var next := Merge(Exchange(params, count), gathered.value);
      if next.None? {
        overread := true;
        return;
      }
      params, count := next.value.params, next.value.count;
      if count == |params.ids| {
        ok, res := true, params;
      }
    }
  }

  method BuildGetBody(ids: seq<int>) returns (cmd: seq<byte>)
    ensures cmd == GetBody(ids)
  {
    hide Low;
    cmd := [];
    var i := 0;
    while i < |ids|
      invariant i <= |ids| && cmd == GetBody(ids[..i])
    {
      assert ids[..i + 1][..i] == ids[..i];
      cmd := cmd + [32];
      cmd := cmd + Low(ids[i], 2);
      i := i + 1;
    }
    assert ids[..i] == ids;
  }

  method BuildSetBody(req: Params) returns (cmd: seq<byte>)
    requires req.Even()
    ensures cmd == SetBody(Rows(req))
  {
    hide SetEntry;
    cmd := [];
    var i := 0;
    while i < |req.ids|
      invariant i <= |req.ids| && cmd == SetBody(Rows(req)[..i])
    {
      assert Rows(req)[..i + 1][..i] == Rows(req)[..i];
      var entry := EntryFor(req.RowAt(i));
      cmd := cmd + entry;
      i := i + 1;
    }
    assert Rows(req)[..i] == Rows(req);
  }

  method EntryFor(row: Row) returns (entry: seq<byte>)
    ensures entry == SetEntry(row)
  {
    hide Low, TypeForParam;
    entry := [36] + Low(row.id, 2);
    var t := GetTypeForParam(row.id);
    if t == 1 {
      entry := entry + [1, row.data1];
    } else if t == 2 {
      entry := entry + ([2] + Low(row.data2, 2));
    } else if t == 3 {
      entry := entry + ([|row.str| % 256] + row.str + [0]);
    } else {
      entry := entry + ([4] + Low(row.data4, 4));
    }
  }

}
