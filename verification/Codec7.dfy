/** Codec 7 frames of the Teltonika GH trackers: every part of a record is optional and announced
    by a mask. */
module Codec7 {
  import opened Bytes
  import opened Division
  import opened ElementStore
  import opened Records
  import CountedFrame
  import TcpStream

  const EPOCH_2007 := 1167609600

  /** One bit of the position mask each, lowest first (GpsMask). */
  datatype GpsField = LatLon | Alt | Angle | Speed | Sat | LocCell | SignalQuality | OperatorCode {

    function Width(): nat {
      match this
      case LatLon => 8
      case Alt => 2
      case Angle => 1
      case Speed => 1
      case Sat => 1
      case LocCell => 4
      case SignalQuality => 1
      case OperatorCode => 4
    }
  }

  const ORDER: seq<GpsField> := [LatLon, Alt, Angle, Speed, Sat, LocCell, SignalQuality, OperatorCode]

  /** What is known of a record; an absent value is one whose valid flag is not set. Coordinates
      are kept as the 32-bit patterns of the floats, the course in 1/256 of a turn. */
  datatype Record = Record(
    priority: nat, utcTime: Option<nat>, error: Option<FixError>,
    position: Option<(nat, nat)>, height: Option<int>, course: Option<byte>, speed: Option<byte>,
    satellites: Option<byte>, location: Option<nat>, cellId: Option<nat>, rssi: Option<byte>, network: Option<nat>,
    battery: Option<byte>, usbConnected: Option<bool>,
    hdop: Option<nat>, vdop: Option<nat>, pdop: Option<nat>, liveTime: Option<nat>)

  function Blank(priority: nat): Record {
    Record(priority, None, None, None, None, None, None, None, None, None, None, None,
           None, None, None, None, None, None)
  }

  datatype Cursor = Cursor(i: nat, rec: Record)

  // ----- the parts of a record --------------------------------------------------------

  function Store(f: GpsField, d: seq<byte>, rec: Record): Record
    requires |d| == f.Width()
  {
    match f
    case LatLon => rec.(position := Some((FromBE(d[..4]), FromBE(d[4..]))))
    case Alt => rec.(height := Some(Signed(FromBE(d), 0x1_0000)))
    case Angle => rec.(course := Some(d[0]))
    case Speed => rec.(speed := Some(d[0]))
    case Sat => rec.(satellites := Some(d[0]), error := if d[0] < 3 then Some(NoFix) else rec.error)
    case LocCell => rec.(location := Some(FromBE(d[..2])), cellId := Some(FromBE(d[2..])))
    case SignalQuality => rec.(rssi := Some(d[0]))
    case OperatorCode => rec.(network := Some(FromBE(d)))
  }

  function TakeField(ud: seq<byte>, mi: nat, present: bool, f: GpsField, c: Option<Cursor>): (r: Option<Cursor>)
    requires mi < |ud| && (c.Some? ==> c.value.i <= mi)
    ensures r.Some? ==> c.Some? && r.value.i <= mi
  {
    if c.None? || !present then c
    else
      var i := c.value.i;
      if i + f.Width() > mi then None
      else Some(Cursor(i + f.Width(), Store(f, ud[i..i + f.Width()], c.value.rec)))
  }

  /** The fields announced by the bits from k on. */
  function TakeFields(ud: seq<byte>, mi: nat, mask: seq<bool>, k: nat, c: Option<Cursor>): (r: Option<Cursor>)
    requires mi < |ud| && |mask| == 8 && k <= 8 && (c.Some? ==> c.value.i <= mi)
    ensures r.Some? ==> c.Some? && r.value.i <= mi
    decreases 8 - k
  {
    if k == 8 then c else TakeFields(ud, mi, mask, k + 1, TakeField(ud, mi, mask[k], ORDER[k], c))
  }

  function TakeGps(ud: seq<byte>, mi: nat, present: bool, time: nat, c: Option<Cursor>): (r: Option<Cursor>)
    requires mi < |ud| && (c.Some? ==> c.value.i <= mi)
    ensures r.Some? ==> c.Some? && r.value.i <= mi
  {
    if c.None? || !present then c
    else
      var i := c.value.i;
      if i + 1 > mi then None
      else TakeFields(ud, mi, BitsOf(ud[i]), 0,
                      Some(Cursor(i + 1, c.value.rec.(error := Some(GpsFix), utcTime := Some(time)))))
  }

  const PI_BATTERY := 1
  const PI_USB := 2
  const PI_LIVE_TIME := 5
  const PI_HDOP := 20
  const PI_VDOP := 21
  const PI_PDOP := 22

  function Param(width: nat, e: Element, rec: Record): Record
    requires |e.data| == width
  {
    if width == 1 then
      if e.id == PI_BATTERY then rec.(battery := Some(e.data[0]))
      else if e.id == PI_USB then rec.(usbConnected := Some(e.data[0] != 0))
      else rec
    else if width == 2 then
      if e.id == PI_HDOP then rec.(hdop := Some(FromBE(e.data)))
      else if e.id == PI_VDOP then rec.(vdop := Some(FromBE(e.data)))
      else if e.id == PI_PDOP then rec.(pdop := Some(FromBE(e.data)))
      else rec
    else if e.id == PI_LIVE_TIME then rec.(liveTime := Some(FromBE(e.data)))
    else rec
  }

  function Params(width: nat, es: seq<Element>, rec: Record): Record
    requires forall e | e in es :: |e.data| == width
    decreases |es|
  {
    if es == [] then rec else Params(width, es[1..], Param(width, es[0], rec))
  }

  function TakeParams(ud: seq<byte>, mi: nat, present: bool, width: nat, c: Option<Cursor>): (r: Option<Cursor>)
    requires mi < |ud| && (c.Some? ==> c.value.i <= mi)
    ensures r.Some? ==> c.Some? && r.value.i <= mi
  {
    if c.None? || !present then c
    else
      var i := c.value.i;
      if i + 1 > mi then None
      else if i + 1 + Span(ud[i], width) > mi then None
      else Some(Cursor(i + 1 + Span(ud[i], width),
                       Params(width, ElementsAt(ud, i + 1, ud[i], width), c.value.rec)))
  }

  /** One pass of the loop in parse_fix; None where the source breaks out of it. A record is
      accepted only with the cursor at or before the limit. */
  function ParseRecord(ud: seq<byte>, i: nat, mi: nat): (r: Option<Cursor>)
    requires mi < |ud|
    ensures r.Some? ==> r.value.i <= mi
  {
    if i + 4 > mi then None
    else if i + 4 + 1 > mi then None
    else
      var head := Field(ud, i, 4);
      TakeParts(ud, mi, BitsOf(ud[i + 4]), head % 0x4000_0000, Cursor(i + 5, Blank(head / 0x4000_0000)))
  }

  /** The parts announced by the global mask, in their fixed order. */
  function TakeParts(ud: seq<byte>, mi: nat, mask: seq<bool>, time: nat, c: Cursor): (r: Option<Cursor>)
    requires mi < |ud| && |mask| == 8 && c.i <= mi
    ensures r.Some? ==> r.value.i <= mi
  {
    var c1 := TakeGps(ud, mi, mask[0], time + EPOCH_2007, Some(c));
    TakeParams(ud, mi, mask[3], 4, TakeParams(ud, mi, mask[2], 2, TakeParams(ud, mi, mask[1], 1, c1)))
  }

  datatype Reading = Reading(records: seq<Record>, cursor: nat)

  /** The cursor is the one behind the last accepted record. */
  function RecordsFrom(ud: seq<byte>, i: nat, mi: nat, left: nat): (r: Reading)
    requires mi < |ud|
    ensures |r.records| <= left
    decreases left
  {
    if left == 0 || i >= mi then Reading([], i)
    else
      match ParseRecord(ud, i, mi)
      case None => Reading([], i)
      case Some(c) =>
        var later := RecordsFrom(ud, c.i, mi, left - 1);
        Reading([c.rec] + later.records, later.cursor)
  }

  predicate IsCodec7(ud: seq<byte>) {
    |ud| >= 20 && ud[0..4] == [0, 0, 0, 0] && ud[8] == 7
  }

  function ParseFrame(ud: seq<byte>): Reading {
    if IsCodec7(ud) then RecordsFrom(ud, 10, |ud| - 5, ud[9]) else Reading([], 0)
  }

  // ----- how long records are ---------------------------------------------------------------

  /** The bytes the position fields from bit k on take up. */
  function FieldsSize(mask: seq<bool>, k: nat): nat
    requires |mask| == 8 && k <= 8
    decreases 8 - k
  {
    if k == 8 then 0 else (if mask[k] then ORDER[k].Width() else 0) + FieldsSize(mask, k + 1)
  }

  function GpsEnd(ud: seq<byte>, i: nat): (end: nat)
    ensures end > i
  {
    i + 1 + FieldsSize(BitsOf(ByteOrZero(ud, i)), 0)
  }

  /** Where the parts announced by a mask end, by the position mask and the count bytes alone. */
  function PartsEnd(ud: seq<byte>, i: nat, mask: seq<bool>): (end: nat)
    requires |mask| == 8
    ensures end >= i
  {
    var i0 := if mask[0] then GpsEnd(ud, i) else i;
    var i1 := if mask[1] then ListEnd(ud, i0, 1) else i0;
    var i2 := if mask[2] then ListEnd(ud, i1, 2) else i1;
    if mask[3] then ListEnd(ud, i2, 4) else i2
  }

  function RecordEnd(ud: seq<byte>, i: nat): (end: nat)
    ensures end >= i + 5
  {
    PartsEnd(ud, i + 5, BitsOf(ByteOrZero(ud, i + 4)))
  }

  function RecordsEnd(ud: seq<byte>, i: nat, count: nat): (end: nat)
    ensures end >= i + 5 * count
    decreases count
  {
    if count == 0 then i else RecordsEnd(ud, RecordEnd(ud, i), count - 1)
  }

  lemma {:induction false} FieldsTaken(ud: seq<byte>, mi: nat, mask: seq<bool>, k: nat, c: Cursor)
    requires mi < |ud| && |mask| == 8 && k <= 8 && c.i <= mi
    ensures var r, end := TakeFields(ud, mi, mask, k, Some(c)), c.i + FieldsSize(mask, k);
            (r.Some? <==> end <= mi) && (r.Some? ==> r.value.i == end)
    decreases 8 - k
  {
    hide Store;
    if k < 8 {
      var next := TakeField(ud, mi, mask[k], ORDER[k], Some(c));
      if next.Some? {
        FieldsTaken(ud, mi, mask, k + 1, next.value);
      } else {
        NoFieldTaken(ud, mi, mask, k + 1);
      }
    }
  }

  lemma {:induction false} NoFieldTaken(ud: seq<byte>, mi: nat, mask: seq<bool>, k: nat)
    requires mi < |ud| && |mask| == 8 && k <= 8
    ensures TakeFields(ud, mi, mask, k, None).None?
    decreases 8 - k
  {
    if k < 8 {
      NoFieldTaken(ud, mi, mask, k + 1);
    }
  }

  lemma GpsTaken(ud: seq<byte>, mi: nat, present: bool, time: nat, c: Cursor)
    requires mi < |ud| && c.i <= mi
    ensures var r, end := TakeGps(ud, mi, present, time, Some(c)), if present then GpsEnd(ud, c.i) else c.i;
            (r.Some? <==> end <= mi) && (r.Some? ==> r.value.i == end)
  {
    hide TakeFields, FieldsSize, BitsOf;
    if present && c.i + 1 <= mi {
      FieldsTaken(ud, mi, BitsOf(ud[c.i]), 0,
                  Cursor(c.i + 1, c.rec.(error := Some(GpsFix), utcTime := Some(time))));
    }
  }

  lemma ListTaken(ud: seq<byte>, mi: nat, present: bool, width: nat, c: Cursor)
    requires mi < |ud| && c.i <= mi
    ensures var r, end := TakeParams(ud, mi, present, width, Some(c)), if present then ListEnd(ud, c.i, width) else c.i;
            (r.Some? <==> end <= mi) && (r.Some? ==> r.value.i == end)
  {
    hide Params, ElementsAt, Span;
    if present && c.i + 1 <= mi {
      SpanIsProduct(ud[c.i], width);
    }
  }

  lemma PartsTaken(ud: seq<byte>, mi: nat, mask: seq<bool>, time: nat, c: Cursor)
    requires mi < |ud| && |mask| == 8 && c.i <= mi
    ensures var r, end := TakeParts(ud, mi, mask, time, c), PartsEnd(ud, c.i, mask);
            (r.Some? <==> end <= mi) && (r.Some? ==> r.value.i == end)
  {
    hide TakeGps, TakeParams, GpsEnd, ListEnd;
    GpsTaken(ud, mi, mask[0], time + EPOCH_2007, c);
    var c1 := TakeGps(ud, mi, mask[0], time + EPOCH_2007, Some(c));
    if c1.Some? {
      ListsTaken(ud, mi, mask, c1.value);
    } else {
      NothingTaken(ud, mi, mask);
    }
  }

  lemma ListsTaken(ud: seq<byte>, mi: nat, mask: seq<bool>, c: Cursor)
    requires mi < |ud| && |mask| == 8 && c.i <= mi
    ensures var one := TakeParams(ud, mi, mask[1], 1, Some(c));
            var r := TakeParams(ud, mi, mask[3], 4, TakeParams(ud, mi, mask[2], 2, one));
            var i1 := if mask[1] then ListEnd(ud, c.i, 1) else c.i;
            var i2 := if mask[2] then ListEnd(ud, i1, 2) else i1;
            var end := if mask[3] then ListEnd(ud, i2, 4) else i2;
            (r.Some? <==> end <= mi) && (r.Some? ==> r.value.i == end)
  {
    hide ListEnd;
    ListTaken(ud, mi, mask[1], 1, c);
    var c1 := TakeParams(ud, mi, mask[1], 1, Some(c));
    if c1.Some? {
      ListTaken(ud, mi, mask[2], 2, c1.value);
      var c2 := TakeParams(ud, mi, mask[2], 2, c1);
      hide TakeParams;
      if c2.Some? {
        ListTaken(ud, mi, mask[3], 4, c2.value);
      }
    }
  }

  lemma NothingTaken(ud: seq<byte>, mi: nat, mask: seq<bool>)
    requires mi < |ud| && |mask| == 8
    ensures TakeParams(ud, mi, mask[3], 4, TakeParams(ud, mi, mask[2], 2, TakeParams(ud, mi, mask[1], 1, None))).None?
  {
  }

  /** A record is accepted exactly if the length its masks and counts give it ends at or before the
      limit, and that is how far the cursor moves. */
  lemma RecordExtent(ud: seq<byte>, i: nat, mi: nat)
    requires mi < |ud|
    ensures var r := ParseRecord(ud, i, mi);
            (r.Some? <==> RecordEnd(ud, i) <= mi) && (r.Some? ==> r.value.i == RecordEnd(ud, i))
  {
    hide TakeParts, PartsEnd, BitsOf, Field;
    if i + 5 <= mi {
      var head := Field(ud, i, 4);
      PartsTaken(ud, mi, BitsOf(ud[i + 4]), head % 0x4000_0000, Cursor(i + 5, Blank(head / 0x4000_0000)));
    }
  }

  /** Of the announced records as many are parsed as lie whole in front of the limit, each as it is
      read at its own place. */
  lemma {:induction false} WholeOnesAreKept(ud: seq<byte>, i: nat, mi: nat, left: nat, k: nat)
    requires mi < |ud| && k < left
    ensures var records := RecordsFrom(ud, i, mi, left).records;
            && (k < |records| <==> RecordsEnd(ud, i, k + 1) <= mi)
            && (k < |records| ==>
                  var c := ParseRecord(ud, RecordsEnd(ud, i, k), mi); c.Some? && records[k] == c.value.rec)
    decreases left
  {
    hide ParseRecord, RecordEnd, RecordsEnd;
    RecordExtent(ud, i, mi);
    EndsApart(ud, i, k);
    EndsApart(ud, RecordEnd(ud, i), 0);
    if k > 0 && i < mi && ParseRecord(ud, i, mi).Some? {
      EndsApart(ud, i, k - 1);
      WholeOnesAreKept(ud, RecordEnd(ud, i), mi, left - 1, k - 1);
    }
  }

  lemma EndsApart(ud: seq<byte>, i: nat, k: nat)
    ensures RecordsEnd(ud, i, 0) == i
    ensures RecordsEnd(ud, i, k + 1) == RecordsEnd(ud, RecordEnd(ud, i), k) >= RecordEnd(ud, i) > i
  {
    hide RecordEnd;
  }

  /** The cursor ends up behind the last record that was kept. */
  lemma {:induction false} CursorExactly(ud: seq<byte>, i: nat, mi: nat, left: nat)
    requires mi < |ud|
    ensures var r := RecordsFrom(ud, i, mi, left); r.cursor == RecordsEnd(ud, i, |r.records|)
    decreases left
  {
    hide ParseRecord, RecordEnd, RecordsEnd;
    EndsApart(ud, i, 0);
    if left > 0 && i < mi && ParseRecord(ud, i, mi).Some? {
      RecordExtent(ud, i, mi);
      CursorExactly(ud, RecordEnd(ud, i), mi, left - 1);
      EndsApart(ud, i, |RecordsFrom(ud, RecordEnd(ud, i), mi, left - 1).records|);
    }
  }

  /** All announced records are parsed exactly if their lengths fit in front of the limit. */
  lemma ParsedExactly(ud: seq<byte>, i: nat, mi: nat, left: nat)
    requires mi < |ud|
    ensures |RecordsFrom(ud, i, mi, left).records| == left <==> left == 0 || RecordsEnd(ud, i, left) <= mi
  {
    hide RecordsEnd, ParseRecord;
    if left > 0 {
      WholeOnesAreKept(ud, i, mi, left, left - 1);
    }
  }

  /** Other frames are not looked into: too short ones, those without four zeros in front, and those
      of another codec. */
  lemma OthersAreIgnored(ud: seq<byte>)
    requires |ud| < 20 || ud[0] != 0 || ud[1] != 0 || ud[2] != 0 || ud[3] != 0 || ud[8] != 7
    ensures ParseFrame(ud) == Reading([], 0)
  {
    hide RecordsFrom;
    if |ud| >= 20 && ud[0..4] == [0, 0, 0, 0] {
      assert ud[0..4][0] == ud[0] && ud[0..4][1] == ud[1] && ud[0..4][2] == ud[2] && ud[0..4][3] == ud[3];
    }
  }

  // ----- truncation ---------------------------------------------------------------------

  lemma FieldOfPrefix(ud: seq<byte>, k: nat, mi: nat, mi': nat, present: bool, f: GpsField, c: Option<Cursor>)
    requires mi < k <= |ud| && mi <= mi' < |ud| && (c.Some? ==> c.value.i <= mi)
    ensures TakeField(ud[..k], mi, present, f, c).Some? ==>
              TakeField(ud[..k], mi, present, f, c) == TakeField(ud, mi', present, f, c)
  {
    hide Store;
    if c.Some? && c.value.i + f.Width() <= mi {
      var i := c.value.i;
      assert ud[..k][i..i + f.Width()] == ud[i..i + f.Width()];
    }
  }

  lemma {:induction false} FieldsOfPrefix(
      ud: seq<byte>, n: nat, mi: nat, mi': nat, mask: seq<bool>, k: nat, c: Option<Cursor>)
    requires mi < n <= |ud| && mi <= mi' < |ud| && (c.Some? ==> c.value.i <= mi) && |mask| == 8 && k <= 8
    ensures TakeFields(ud[..n], mi, mask, k, c).Some? ==>
              TakeFields(ud[..n], mi, mask, k, c) == TakeFields(ud, mi', mask, k, c)
    decreases 8 - k
  {
    hide TakeField;
    if k < 8 {
      FieldOfPrefix(ud, n, mi, mi', mask[k], ORDER[k], c);
      FieldsOfPrefix(ud, n, mi, mi', mask, k + 1, TakeField(ud[..n], mi, mask[k], ORDER[k], c));
    }
  }

  lemma GpsOfPrefix(ud: seq<byte>, n: nat, mi: nat, mi': nat, present: bool, time: nat, c: Option<Cursor>)
    requires mi < n <= |ud| && mi <= mi' < |ud| && (c.Some? ==> c.value.i <= mi)
    ensures TakeGps(ud[..n], mi, present, time, c).Some? ==>
              TakeGps(ud[..n], mi, present, time, c) == TakeGps(ud, mi', present, time, c)
  {
    hide TakeFields, BitsOf;
    if c.Some? && present && c.value.i + 1 <= mi {
      var i := c.value.i;
      FieldsOfPrefix(ud, n, mi, mi', BitsOf(ud[i]), 0,
                     Some(Cursor(i + 1, c.value.rec.(error := Some(GpsFix), utcTime := Some(time)))));
    }
  }

  lemma ParamsOfPrefix(ud: seq<byte>, n: nat, mi: nat, mi': nat, present: bool, width: nat, c: Option<Cursor>)
    requires mi < n <= |ud| && mi <= mi' < |ud| && (c.Some? ==> c.value.i <= mi)
    ensures TakeParams(ud[..n], mi, present, width, c).Some? ==>
              TakeParams(ud[..n], mi, present, width, c) == TakeParams(ud, mi', present, width, c)
  {
    hide Params, ElementsAt, Span;
    if c.Some? && c.value.i + 1 <= mi {
      var i := c.value.i;
      assert ud[..n][i] == ud[i];
      if i + 1 + Span(ud[i], width) <= mi {
        ElementsOfPrefix(ud, n, i + 1, ud[i], width);
      }
    }
  }

  lemma PartsOfPrefix(ud: seq<byte>, n: nat, mi: nat, mi': nat, mask: seq<bool>, time: nat, c: Cursor)
    requires mi < n <= |ud| && mi <= mi' < |ud| && |mask| == 8 && c.i <= mi
    ensures TakeParts(ud[..n], mi, mask, time, c).Some? ==>
              TakeParts(ud[..n], mi, mask, time, c) == TakeParts(ud, mi', mask, time, c)
  {
    hide TakeGps, TakeParams;
    var p := ud[..n];
    GpsOfPrefix(ud, n, mi, mi', mask[0], time + EPOCH_2007, Some(c));
    var c1 := TakeGps(p, mi, mask[0], time + EPOCH_2007, Some(c));
    ParamsOfPrefix(ud, n, mi, mi', mask[1], 1, c1);
    var c2 := TakeParams(p, mi, mask[1], 1, c1);
    ParamsOfPrefix(ud, n, mi, mi', mask[2], 2, c2);
    ParamsOfPrefix(ud, n, mi, mi', mask[3], 4, TakeParams(p, mi, mask[2], 2, c2));
  }

  lemma RecordOfPrefix(ud: seq<byte>, n: nat, i: nat, mi: nat, mi': nat)
    requires mi < n <= |ud| && mi <= mi' < |ud|
    ensures ParseRecord(ud[..n], i, mi).Some? ==> ParseRecord(ud[..n], i, mi) == ParseRecord(ud, i, mi')
  {
    hide TakeParts, BitsOf, FromBE;
    if i + 5 <= mi {
      assert ud[..n][i..i + 4] == ud[i..i + 4];
      assert ud[..n][i + 4] == ud[i + 4];
      var head := Field(ud, i, 4);
      PartsOfPrefix(ud, n, mi, mi', BitsOf(ud[i + 4]), head % 0x4000_0000, Cursor(i + 5, Blank(head / 0x4000_0000)));
    }
  }

  lemma {:induction false} RecordsOfPrefix(ud: seq<byte>, n: nat, i: nat, mi: nat, mi': nat, left: nat)
    requires mi < n <= |ud| && mi <= mi' < |ud|
    ensures RecordsFrom(ud[..n], i, mi, left).records <= RecordsFrom(ud, i, mi', left).records
    decreases left
  {
    hide ParseRecord;
    if left > 0 && i < mi {
      RecordOfPrefix(ud, n, i, mi, mi');
      var c := ParseRecord(ud[..n], i, mi);
      if c.Some? {
        RecordsOfPrefix(ud, n, c.value.i, mi, mi', left - 1);
      }
    }
  }

  /** Cutting a frame short never invents a record: what is parsed is a prefix. */
  lemma TruncationGivesPrefix(ud: seq<byte>, n: nat)
    requires n <= |ud|
    ensures ParseFrame(ud[..n]).records <= ParseFrame(ud).records
  {
    hide RecordsFrom;
    if n >= 20 {
      assert ud[..n][0..4] == ud[0..4] && ud[..n][8] == ud[8] && ud[..n][9] == ud[9];
      if IsCodec7(ud) {
        RecordsOfPrefix(ud, n, 10, n - 5, |ud| - 5, ud[9]);
      }
    }
  }

  // ----- what a tracker sends ---------------------------------------------------------------

  /** A record as the tracker knows it. Bits 0 to 3 of the mask announce the position and the
      three parameter lists; its other bits are not looked at. */
  datatype Sent = Sent(priority: nat, since2007: nat, mask: byte, gps: seq<Option<seq<byte>>>,
                       one: seq<Element>, two: seq<Element>, four: seq<Element>)
  {
    predicate Has(k: nat)
      requires k < 4
    {
      BitsOf(mask)[k]
    }

    ghost predicate Legal() {
      && priority < 4 && since2007 < 0x4000_0000
      && LegalFields(gps)
      && LegalList(one, 1) && LegalList(two, 2) && LegalList(four, 4)
      && (!Has(1) ==> one == []) && (!Has(2) ==> two == []) && (!Has(3) ==> four == [])
    }
  }

  ghost predicate LegalFields(gps: seq<Option<seq<byte>>>) {
    |gps| == 8 && forall k | 0 <= k < 8 :: gps[k].Some? ==> |gps[k].value| == ORDER[k].Width()
  }

  function Presence(gps: seq<Option<seq<byte>>>): (bits: seq<bool>)
    ensures |bits| == |gps|
  {
    seq(|gps|, k requires 0 <= k < |gps| => gps[k].Some?)
  }

  function Sequel(field: Option<seq<byte>>): seq<byte> {
    if field.Some? then field.value else []
  }

  function FieldBytes(gps: seq<Option<seq<byte>>>, k: nat): seq<byte>
    requires k <= |gps|
    decreases |gps| - k
  {
    if k == |gps| then [] else Sequel(gps[k]) + FieldBytes(gps, k + 1)
  }

  function StoreFields(gps: seq<Option<seq<byte>>>, k: nat, rec: Record): Record
    requires LegalFields(gps) && k <= 8
    decreases 8 - k
  {
    if k == 8 then rec
    else StoreFields(gps, k + 1, if gps[k].Some? then Store(ORDER[k], gps[k].value, rec) else rec)
  }

  function EncodeGps(r: Sent): seq<byte>
    requires r.Legal()
  {
    if r.Has(0) then [ByteOf(Presence(r.gps))] + FieldBytes(r.gps, 0) else []
  }

  function EncodeList(present: bool, es: seq<Element>): seq<byte>
    requires |es| < 256
  {
    if present then Counted(es) else []
  }

  function Lists(r: Sent): seq<byte>
    requires r.Legal()
  {
    EncodeList(r.Has(1), r.one) + (EncodeList(r.Has(2), r.two) + EncodeList(r.Has(3), r.four))
  }

  function Encode(r: Sent): (s: seq<byte>)
    requires r.Legal()
    ensures |s| >= 5
  {
    ToBE(r.priority * 0x4000_0000 + r.since2007, 4) + ([r.mask] + (EncodeGps(r) + Lists(r)))
  }

  /** The position part of a record. */
  function Located(r: Sent): Record
    requires r.Legal()
  {
    if r.Has(0) then
      StoreFields(r.gps, 0, Blank(r.priority).(error := Some(GpsFix), utcTime := Some(r.since2007 + EPOCH_2007)))
    else Blank(r.priority)
  }

  /** What the receiver should end up with. */
  function Expected(r: Sent): Record
    requires r.Legal()
  {
    Params(4, r.four, Params(2, r.two, Params(1, r.one, Located(r))))
  }

  lemma FieldReadsBack(
      ud: seq<byte>, mi: nat, f: GpsField, i: nat, rec: Record, field: Option<seq<byte>>, rest: seq<byte>)
    requires field.Some? ==> |field.value| == f.Width()
    requires mi < |ud| && At(ud, i, Sequel(field) + rest) && i + |Sequel(field)| <= mi
    ensures TakeField(ud, mi, field.Some?, f, Some(Cursor(i, rec))) ==
            Some(Cursor(i + |Sequel(field)|, if field.Some? then Store(f, field.value, rec) else rec))
    ensures At(ud, i + |Sequel(field)|, rest)
  {
    hide Store;
    AtConcat(ud, i, Sequel(field), rest);
  }

  lemma {:induction false} FieldsReadBack(
      ud: seq<byte>, mi: nat, gps: seq<Option<seq<byte>>>, k: nat, i: nat, rec: Record)
    requires LegalFields(gps) && k <= 8 && mi < |ud| && At(ud, i, FieldBytes(gps, k)) && i + |FieldBytes(gps, k)| <= mi
    ensures TakeFields(ud, mi, Presence(gps), k, Some(Cursor(i, rec))) ==
            Some(Cursor(i + |FieldBytes(gps, k)|, StoreFields(gps, k, rec)))
    decreases 8 - k
  {
    hide Store, TakeField, At, Presence, Sequel, LegalFields, TakeFields, StoreFields, FieldBytes;
    if k == 8 {
      NoFieldLeft(ud, mi, gps, i, rec);
    } else {
      NextField(ud, mi, gps, k, i, rec);
      FieldReadsBack(ud, mi, ORDER[k], i, rec, gps[k], FieldBytes(gps, k + 1));
      FieldsReadBack(ud, mi, gps, k + 1, i + |Sequel(gps[k])|,
                     if gps[k].Some? then Store(ORDER[k], gps[k].value, rec) else rec);
    }
  }

  lemma NoFieldLeft(ud: seq<byte>, mi: nat, gps: seq<Option<seq<byte>>>, i: nat, rec: Record)
    requires LegalFields(gps) && i <= mi < |ud|
    ensures |gps| == 8 && FieldBytes(gps, 8) == [] && StoreFields(gps, 8, rec) == rec
    ensures var c := Some(Cursor(i, rec)); TakeFields(ud, mi, Presence(gps), 8, c) == c
  {
  }

  lemma NextField(ud: seq<byte>, mi: nat, gps: seq<Option<seq<byte>>>, k: nat, i: nat, rec: Record)
    requires LegalFields(gps) && k < 8 && i <= mi < |ud|
    ensures |gps| == 8 && (gps[k].Some? ==> |gps[k].value| == ORDER[k].Width())
    ensures FieldBytes(gps, k) == Sequel(gps[k]) + FieldBytes(gps, k + 1)
    ensures StoreFields(gps, k, rec) ==
            StoreFields(gps, k + 1, if gps[k].Some? then Store(ORDER[k], gps[k].value, rec) else rec)
    ensures var c := Some(Cursor(i, rec));
            TakeFields(ud, mi, Presence(gps), k, c) ==
            TakeFields(ud, mi, Presence(gps), k + 1, TakeField(ud, mi, gps[k].Some?, ORDER[k], c))
  {
    hide Store, TakeField;
  }

  lemma GpsReadsBack(ud: seq<byte>, i: nat, mi: nat, r: Sent)
    requires r.Legal() && mi < |ud| && At(ud, i, EncodeGps(r)) && i + |EncodeGps(r)| <= mi
    ensures TakeGps(ud, mi, r.Has(0), r.since2007 + EPOCH_2007, Some(Cursor(i, Blank(r.priority)))) ==
            Some(Cursor(i + |EncodeGps(r)|, Located(r)))
  {
    hide FieldBytes, StoreFields, TakeFields, Presence, BitsOf;
    if r.Has(0) {
      var b := ByteOf(Presence(r.gps));
      ByteAt(ud, i, b, FieldBytes(r.gps, 0));
      FieldsReadBack(ud, mi, r.gps, 0, i + 1,
                     Blank(r.priority).(error := Some(GpsFix), utcTime := Some(r.since2007 + EPOCH_2007)));
    }
  }

  lemma ParamsReadBack(
      ud: seq<byte>, mi: nat, present: bool, width: nat, i: nat, rec: Record, es: seq<Element>, rest: seq<byte>)
    requires LegalList(es, width) && (!present ==> es == []) && mi < |ud|
    requires At(ud, i, EncodeList(present, es) + rest) && i + |EncodeList(present, es)| <= mi
    ensures TakeParams(ud, mi, present, width, Some(Cursor(i, rec))) ==
            Some(Cursor(i + |EncodeList(present, es)|, Params(width, es, rec)))
    ensures At(ud, i + |EncodeList(present, es)|, rest)
  {
    hide Param, Serialised, ElementsAt;
    AtConcat(ud, i, EncodeList(present, es), rest);
    if present {
      ByteAt(ud, i, |es|, Serialised(es));
      ElementsReadBack(ud, i + 1, es, width);
    }
  }

  lemma ListsReadBack(ud: seq<byte>, i: nat, mi: nat, r: Sent, rec: Record)
    requires r.Legal() && mi < |ud| && At(ud, i, Lists(r)) && i + |Lists(r)| <= mi
    ensures var one := TakeParams(ud, mi, r.Has(1), 1, Some(Cursor(i, rec)));
            TakeParams(ud, mi, r.Has(3), 4, TakeParams(ud, mi, r.Has(2), 2, one)) ==
            Some(Cursor(i + |Lists(r)|, Params(4, r.four, Params(2, r.two, Params(1, r.one, rec)))))
  {
    hide EncodeList, TakeParams, Params, At, Sent.Has, LegalFields;
    var l1, l2, l4 := EncodeList(r.Has(1), r.one), EncodeList(r.Has(2), r.two), EncodeList(r.Has(3), r.four);
    ParamsReadBack(ud, mi, r.Has(1), 1, i, rec, r.one, l2 + l4);
    var rec1 := Params(1, r.one, rec);
    ParamsReadBack(ud, mi, r.Has(2), 2, i + |l1|, rec1, r.two, l4);
    assert l4 + [] == l4;
    ParamsReadBack(ud, mi, r.Has(3), 4, i + |l1| + |l2|, Params(2, r.two, rec1), r.four, []);
  }

  lemma EncodingLayout(ud: seq<byte>, i: nat, r: Sent, rest: seq<byte>)
    requires r.Legal() && At(ud, i, Encode(r) + rest)
    ensures |Encode(r)| == 5 + |EncodeGps(r)| + |Lists(r)| && i + |Encode(r)| <= |ud|
    ensures Field(ud, i, 4) / 0x4000_0000 == r.priority && Field(ud, i, 4) % 0x4000_0000 == r.since2007
    ensures ud[i + 4] == r.mask
    ensures At(ud, i + 5, EncodeGps(r)) && At(ud, i + 5 + |EncodeGps(r)|, Lists(r)) && At(ud, i + |Encode(r)|, rest)
  {
    hide ToBE, FromBE, EncodeGps, Lists, Field;
    assert Pow256(4) == 0x1_0000_0000;
    AtConcat(ud, i, Encode(r), rest);
    NumberAt(ud, i, r.priority * 0x4000_0000 + r.since2007, 4, [r.mask] + (EncodeGps(r) + Lists(r)));
    ByteAt(ud, i + 4, r.mask, EncodeGps(r) + Lists(r));
    AtConcat(ud, i + 5, EncodeGps(r), Lists(r));
  }

  lemma PartsReadBack(ud: seq<byte>, i: nat, mi: nat, r: Sent)
    requires r.Legal() && mi < |ud| && i + |EncodeGps(r)| + |Lists(r)| <= mi
    requires At(ud, i, EncodeGps(r)) && At(ud, i + |EncodeGps(r)|, Lists(r))
    ensures TakeParts(ud, mi, BitsOf(r.mask), r.since2007, Cursor(i, Blank(r.priority))) ==
            Some(Cursor(i + |EncodeGps(r)| + |Lists(r)|, Expected(r)))
  {
    hide At, EncodeGps, Lists, Sent.Legal, TakeGps, TakeParams, Params, Located, BitsOf;
    GpsReadsBack(ud, i, mi, r);
    ListsReadBack(ud, i + |EncodeGps(r)|, mi, r, Located(r));
  }

  lemma RecordReadsBack(ud: seq<byte>, i: nat, mi: nat, r: Sent)
    requires r.Legal() && mi < |ud| && i + 5 + |EncodeGps(r)| + |Lists(r)| <= mi
    requires Field(ud, i, 4) / 0x4000_0000 == r.priority && Field(ud, i, 4) % 0x4000_0000 == r.since2007
    requires ud[i + 4] == r.mask
    requires At(ud, i + 5, EncodeGps(r)) && At(ud, i + 5 + |EncodeGps(r)|, Lists(r))
    ensures ParseRecord(ud, i, mi) == Some(Cursor(i + 5 + |EncodeGps(r)| + |Lists(r)|, Expected(r)))
  {
    hide At, EncodeGps, Lists, Sent.Legal, Expected, TakeParts, Field, BitsOf;
    PartsReadBack(ud, i + 5, mi, r);
  }

  function EncodeAll(rs: seq<Sent>): (s: seq<byte>)
    requires forall r | r in rs :: r.Legal()
    ensures rs != [] ==> |s| >= 5
  {
    if rs == [] then [] else Encode(rs[0]) + EncodeAll(rs[1..])
  }

  function ExpectedAll(rs: seq<Sent>): (ps: seq<Record>)
    requires forall r | r in rs :: r.Legal()
    ensures |ps| == |rs|
  {
    if rs == [] then [] else [Expected(rs[0])] + ExpectedAll(rs[1..])
  }

  lemma {:induction false} RecordsReadBack(ud: seq<byte>, i: nat, mi: nat, rs: seq<Sent>)
    requires (forall r | r in rs :: r.Legal()) && mi < |ud|
    requires At(ud, i, EncodeAll(rs)) && i + |EncodeAll(rs)| == mi
    ensures RecordsFrom(ud, i, mi, |rs|) == Reading(ExpectedAll(rs), mi)
    decreases |rs|
  {
    hide Encode, Expected, ParseRecord, EncodeGps, Lists, Sent.Legal, Field;
    if rs != [] {
      EncodingLayout(ud, i, rs[0], EncodeAll(rs[1..]));
      RecordReadsBack(ud, i, mi, rs[0]);
      RecordsReadBack(ud, i + |Encode(rs[0])|, mi, rs[1..]);
    }
  }

  function Payload(rs: seq<Sent>): seq<byte>
    requires |rs| < 256 && forall r | r in rs :: r.Legal()
  {
    CountedFrame.CountedPayload(7, |rs|, EncodeAll(rs))
  }

  lemma LaidOutFrameReadsBack(ud: seq<byte>, rs: seq<Sent>)
    requires (forall r | r in rs :: r.Legal()) && rs != [] && |ud| == 15 + |EncodeAll(rs)|
    requires IsCodec7(ud) && ud[9] == |rs| && At(ud, 10, EncodeAll(rs))
    ensures ParseFrame(ud) == Reading(ExpectedAll(rs), |ud| - 5)
  {
    hide EncodeAll, ExpectedAll, RecordsFrom, Sent.Legal;
    RecordsReadBack(ud, 10, |ud| - 5, rs);
  }

  /** Decoding inverts encoding: every record comes back in order, with the cursor on the
      closing count. An empty list is too short a frame to be looked into. */
  lemma FrameReadsBack(rs: seq<Sent>, trailer: seq<byte>)
    requires |rs| < 256 && (forall r | r in rs :: r.Legal()) && |trailer| == 4
    ensures var ud := TcpStream.Wrap(Payload(rs), trailer);
            && ParseFrame(ud).records == ExpectedAll(rs)
            && (rs != [] ==> IsCodec7(ud) && ParseFrame(ud).cursor == |ud| - 5)
  {
    CountedFrame.Layout(7, |rs|, EncodeAll(rs), trailer);
    hide TcpStream.Wrap, CountedFrame.CountedPayload, RecordsFrom, Encode, Expected, Sent.Legal;
    var ud := TcpStream.Wrap(Payload(rs), trailer);
    if rs != [] {
      LaidOutFrameReadsBack(ud, rs);
    }
  }

  // ----- where the values end up ---------------------------------------------------------------

  function Moved(gps: seq<Option<seq<byte>>>, rec: Record): Record
    requires LegalFields(gps)
  {
    rec.(position := if gps[0].Some? then Some((FromBE(gps[0].value[..4]), FromBE(gps[0].value[4..])))
                     else rec.position,
         height := Updated(rec.height, gps[1], d => Signed(FromBE(d), 0x1_0000)),
         course := Updated(rec.course, gps[2], FirstByte),
         speed := Updated(rec.speed, gps[3], FirstByte))
  }

  function Observed(gps: seq<Option<seq<byte>>>, rec: Record): Record
    requires LegalFields(gps)
  {
    rec.(satellites := Updated(rec.satellites, gps[4], FirstByte),
         error := if gps[4].Some? && FirstByte(gps[4].value) < 3 then Some(NoFix) else rec.error,
         location := if gps[5].Some? then Some(FromBE(gps[5].value[..2])) else rec.location,
         cellId := if gps[5].Some? then Some(FromBE(gps[5].value[2..])) else rec.cellId,
         rssi := Updated(rec.rssi, gps[6], FirstByte),
         network := Updated(rec.network, gps[7], FromBE))
  }

  /** The position part in closed form: each announced field sets its own value and no other. */
  lemma FieldsInClosedForm(gps: seq<Option<seq<byte>>>, rec: Record)
    requires LegalFields(gps)
    ensures StoreFields(gps, 0, rec) == Observed(gps, Moved(gps, rec))
  {
    hide StoreFields, Moved, Observed;
    FirstFour(gps, rec);
    LastFour(gps, Moved(gps, rec));
  }

  lemma FirstFour(gps: seq<Option<seq<byte>>>, rec: Record)
    requires LegalFields(gps)
    ensures StoreFields(gps, 0, rec) == StoreFields(gps, 4, Moved(gps, rec))
  {
    hide FromBE, Signed, StoreFields;
    var r1 := StoreOne(gps, 0, rec);
    var r2 := StoreOne(gps, 1, r1);
    var r3 := StoreOne(gps, 2, r2);
    var r4 := StoreOne(gps, 3, r3);
    assert r4 == Moved(gps, rec);
  }

  lemma LastFour(gps: seq<Option<seq<byte>>>, rec: Record)
    requires LegalFields(gps)
    ensures StoreFields(gps, 4, rec) == Observed(gps, rec)
  {
    hide FromBE, Signed, StoreFields;
    var r5 := StoreOne(gps, 4, rec);
    var r6 := StoreOne(gps, 5, r5);
    var r7 := StoreOne(gps, 6, r6);
    var r8 := StoreOne(gps, 7, r7);
    assert r8 == Observed(gps, rec);
  }

  lemma StoreOne(gps: seq<Option<seq<byte>>>, k: nat, rec: Record) returns (r: Record)
    requires LegalFields(gps) && k < 8
    ensures r == if gps[k].Some? then Store(ORDER[k], gps[k].value, rec) else rec
    ensures StoreFields(gps, k, rec) == StoreFields(gps, k + 1, r)
    ensures k == 7 ==> StoreFields(gps, k, rec) == r
  {
    hide Store;
    r := if gps[k].Some? then Store(ORDER[k], gps[k].value, rec) else rec;
  }

  /** A parameter keeps the last value sent for it; other ids are ignored. */
  lemma {:induction false} ParamsInClosedForm(width: nat, es: seq<Element>, rec: Record)
    requires (width == 1 || width == 2 || width == 4) && forall e | e in es :: |e.data| == width
    ensures Params(width, es, rec) ==
            if width == 1 then
              rec.(battery := Updated(rec.battery, Last(es, PI_BATTERY), FirstByte),
                   usbConnected := Updated(rec.usbConnected, Last(es, PI_USB), NonZero))
            else if width == 2 then
              rec.(hdop := Updated(rec.hdop, Last(es, PI_HDOP), FromBE),
                   vdop := Updated(rec.vdop, Last(es, PI_VDOP), FromBE),
                   pdop := Updated(rec.pdop, Last(es, PI_PDOP), FromBE))
            else rec.(liveTime := Updated(rec.liveTime, Last(es, PI_LIVE_TIME), FromBE))
    decreases |es|
  {
    hide FromBE;
    if es != [] {
      ParamsInClosedForm(width, es[1..], Param(width, es[0], rec));
    }
  }
}
