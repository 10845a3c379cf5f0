/** Codec 8 frames of the Teltonika FM trackers: the parser and its inverse. */
module Codec8 {
  import opened Bytes
  import opened ElementStore
  import opened Records
  import CountedFrame
  import TcpStream

  // ----- element ids with a meaning -----------------------------------------------

  const EV_INPUT_BASE := 1
  const INPUT_COUNT := 4
  const EV_ANALOG_INPUT_BASE := 9
  const ANALOG_INPUT_RANGE := 3
  const EV_ANALOG_INPUT_4 := 19
  const EV_RSSI := 21
  const EV_PROFILE := 22
  const EV_ACCELEROMETER := 23
  const EV_GPS_SPEED := 24
  const EV_EXT_POWER := 66
  const EV_BAT_POWER := 67
  const EV_BAT_CURRENT := 68
  const EV_GPS_POWER := 69
  const EV_PCB_TEMPERATURE := 70
  const EV_TEMPERATURE_BASE := 72
  const TEMPERATURE_COUNT := 3
  const EV_FUEL := 76
  const EV_IBUTTON := 78
  const EV_ZONE_BASE := 155
  const ZONE_COUNT := 20
  const EV_ODOMETER := 199
  const EV_MOVE := 240

  predicate IsZone(id: byte) {
    EV_ZONE_BASE <= id < EV_ZONE_BASE + ZONE_COUNT
  }

  predicate IsAnalog(id: byte) {
    EV_ANALOG_INPUT_BASE <= id < EV_ANALOG_INPUT_BASE + ANALOG_INPUT_RANGE || id == EV_ANALOG_INPUT_4
  }

  predicate IsTemperature(id: byte) {
    EV_TEMPERATURE_BASE <= id < EV_TEMPERATURE_BASE + TEMPERATURE_COUNT
  }

  // ----- what one element does to the record ----------------------------------------

  /** A digital input is noted and, like every unnamed element, also stored raw. */
  function Scan1(id: byte, d: seq<byte>, events: Events): (r: Events)
    requires |d| == 1 && events.Valid()
    ensures r.Valid()
  {
    if EV_INPUT_BASE <= id < EV_INPUT_BASE + INPUT_COUNT then
      events.SetInput(id - EV_INPUT_BASE, d[0] != 0).Add1(id, d)
    else if IsZone(id) then events.AddZone(id - EV_ZONE_BASE, d[0] != 0)
    else if id == EV_RSSI then events.(rssi := Some(d[0]))
    else if id == EV_PROFILE then events.(profile := Some(d[0]))
    else if id == EV_MOVE then events.(move := Some(d[0] != 0))
    else events.Add1(id, d)
  }

  function Scan2(id: byte, d: seq<byte>, events: Events): (r: Events)
    requires |d| == 2 && events.Valid()
    ensures r.Valid()
  {
    var val := FromBE(d);
    var sval := Signed(val, 0x1_0000);
    if EV_ANALOG_INPUT_BASE <= id < EV_ANALOG_INPUT_BASE + ANALOG_INPUT_RANGE then
      events.AddAnalogInput(id - EV_ANALOG_INPUT_BASE, sval)
    else if id == EV_ANALOG_INPUT_4 then events.AddAnalogInput(3, sval)
    else if id == EV_GPS_SPEED then events.(gpsSpeed := Some(val))
    else if id == EV_EXT_POWER then events.(extPower := Some(sval))
    else if id == EV_BAT_POWER then events.(batPower := Some(sval))
    else if id == EV_BAT_CURRENT then events.(batCurrent := Some(sval))
    else if id == EV_GPS_POWER then events.(gpsPower := Some(sval))
    else events.Add2(id, d)
  }

  function Scan4(id: byte, d: seq<byte>, events: Events): (r: Events)
    requires |d| == 4 && events.Valid()
    ensures r.Valid()
  {
    var val := FromBE(d);
    var sval := Signed(val, 0x1_0000_0000);
    if IsTemperature(id) then events.AddTemperature(id - EV_TEMPERATURE_BASE, sval)
    else if id == EV_ACCELEROMETER then events.(accelerometer := Some(val))
    else if id == EV_PCB_TEMPERATURE then events.(pcbTemperature := Some(sval))
    else if id == EV_FUEL then events.(fuel := Some(val))
    else if id == EV_ODOMETER then events.(odometer := Some(val))
    else events.Add4(id, d)
  }

  function Scan8(id: byte, d: seq<byte>, events: Events): (r: Events)
    requires |d| == 8 && events.Valid()
    ensures r.Valid()
  {
    if id == EV_IBUTTON then events.(ibutton := Some(d)) else events.Add8(id, d)
  }

  function Scan(width: nat, e: Element, events: Events): (r: Events)
    requires IsWidth(width) && |e.data| == width && events.Valid()
    ensures r.Valid()
  {
    if width == 1 then Scan1(e.id, e.data, events)
    else if width == 2 then Scan2(e.id, e.data, events)
    else if width == 4 then Scan4(e.id, e.data, events)
    else Scan8(e.id, e.data, events)
  }

  function ScanAll(width: nat, es: seq<Element>, events: Events): (r: Events)
    requires IsWidth(width) && (forall e | e in es :: |e.data| == width) && events.Valid()
    ensures r.Valid()
    decreases |es|
  {
    if es == [] then events else ScanAll(width, es[1..], Scan(width, es[0], events))
  }

  // ----- one record -------------------------------------------------------------------

  datatype Fix = Fix(error: FixError, utcTime: nat, longitude: int, latitude: int, height: int, course: int, speed: int)

  /** How far a record was read: the cursor, and what has been filled in so far. */
  datatype Walk = Walk(ok: bool, i: nat, fix: Option<Fix>, events: Events, eventId: byte)

  function FixAt(ud: seq<byte>, i: nat): Fix
    requires i + 24 <= |ud|
  {
    Fix(if ud[i + 21] < 3 then NoFix else GpsFix,
        Field(ud, i, 8) / 1000,
        Signed(Field(ud, i + 9, 4), 0x1_0000_0000), Signed(Field(ud, i + 13, 4), 0x1_0000_0000),
        Signed(Field(ud, i + 17, 2), 0x1_0000), Signed(Field(ud, i + 19, 2), 0x1_0000),
        Signed(Field(ud, i + 22, 2), 0x1_0000))
  }

  function Start(ud: seq<byte>, i: nat, mi: nat, events: Events): (w: Walk)
    requires mi < |ud| && events.Valid()
    ensures w.events.Valid() && (w.ok ==> w.i <= mi)
  {
    if i + 24 > mi then Walk(false, i, None, events, 0)
    else
      var filled := events.(priority := ud[i + 8], satellites := ud[i + 21]);
      if i + 24 + 2 > mi then Walk(false, i + 24, Some(FixAt(ud, i)), filled, ud[i + 24])
      else Walk(true, i + 26, Some(FixAt(ud, i)), filled, ud[i + 24])
  }

  /** One counted list of elements. Only the first list checks that its count byte is there. */
  function Section(ud: seq<byte>, mi: nat, width: nat, w: Walk): (r: Walk)
    requires mi < |ud| && IsWidth(width) && w.events.Valid() && (w.ok ==> w.i <= mi)
    ensures r.events.Valid() && (r.ok ==> w.ok && r.i <= mi)
  {
    if !w.ok then w
    else if width == 1 && w.i + 1 > mi then w.(ok := false)
    else
      var count := ud[w.i];
      var i := w.i + 1;
      if i + Span(count, width) > mi then w.(ok := false, i := i)
      else w.(i := i + Span(count, width), events := ScanAll(width, ElementsAt(ud, i, count, width), w.events))
  }

  /** parse_one_element: it succeeds only with the cursor at or before the limit. */
  function ParseElement(ud: seq<byte>, i: nat, mi: nat, events: Events): (w: Walk)
    requires mi < |ud| && events.Valid()
    ensures w.ok ==> w.fix.Some? && w.i <= mi
    ensures w.events.Valid()
  {
    Section(ud, mi, 8, Section(ud, mi, 4, Section(ud, mi, 2, Section(ud, mi, 1, Start(ud, i, mi, events)))))
  }

  // ----- a frame ----------------------------------------------------------------------

  datatype Parsed = Parsed(fix: Fix, events: Events, eventId: byte)
  datatype Reading = Reading(records: seq<Parsed>, cursor: nat)

  function RecordsFrom(ud: seq<byte>, i: nat, mi: nat, left: nat): (r: Reading)
    requires mi < |ud|
    ensures |r.records| <= left
    decreases left
  {
    if left == 0 || i >= mi then Reading([], i)
    else
      var w := ParseElement(ud, i, mi, Empty());
      if !w.ok then Reading([], w.i)
      else
        var later := RecordsFrom(ud, w.i, mi, left - 1);
        Reading([Parsed(w.fix.value, w.events, w.eventId)] + later.records, later.cursor)
  }

  /** Frames of other codecs, without the preamble or shorter than 20 bytes are not looked into. */
  predicate IsCodec8(ud: seq<byte>) {
    |ud| >= 20 && ud[0..4] == [0, 0, 0, 0] && ud[8] == 8
  }

  function ParseFrame(ud: seq<byte>): Reading {
    if IsCodec8(ud) then RecordsFrom(ud, 10, |ud| - 5, ud[9]) else Reading([], 0)
  }

  // ----- how long records are ---------------------------------------------------------------

  /** Where the record at i ends, by its four count bytes alone. */
  function RecordEnd(ud: seq<byte>, i: nat): (end: nat)
    ensures end >= i + 30
  {
    ListEnd(ud, ListEnd(ud, ListEnd(ud, ListEnd(ud, i + 26, 1), 2), 4), 8)
  }

  function RecordsEnd(ud: seq<byte>, i: nat, count: nat): (end: nat)
    ensures end >= i + 30 * count
    decreases count
  {
    if count == 0 then i else RecordsEnd(ud, RecordEnd(ud, i), count - 1)
  }

  lemma SectionExtent(ud: seq<byte>, mi: nat, width: nat, w: Walk)
    requires mi < |ud| && IsWidth(width) && w.events.Valid() && w.ok && w.i <= mi
    ensures var r, end := Section(ud, mi, width, w), ListEnd(ud, w.i, width);
            (r.ok <==> end <= mi) && (r.ok ==> r.i == end)
  {
    hide ScanAll, ElementsAt, Span, Events.Valid;
    SpanIsProduct(ud[w.i], width);
  }

  lemma SectionFails(ud: seq<byte>, mi: nat, width: nat, w: Walk)
    requires mi < |ud| && IsWidth(width) && w.events.Valid() && !w.ok
    ensures !Section(ud, mi, width, w).ok
  {
  }

  lemma TwoSections(ud: seq<byte>, mi: nat, first: nat, second: nat, w: Walk)
    requires mi < |ud| && IsWidth(first) && IsWidth(second) && w.events.Valid() && (w.ok ==> w.i <= mi)
    ensures var r := Section(ud, mi, second, Section(ud, mi, first, w));
            var end := ListEnd(ud, ListEnd(ud, w.i, first), second);
            (r.ok <==> w.ok && end <= mi) && (r.ok ==> r.i == end)
  {
    hide Section, ListEnd, Events.Valid;
    var one := Section(ud, mi, first, w);
    if w.ok {
      SectionExtent(ud, mi, first, w);
    } else {
      SectionFails(ud, mi, first, w);
    }
    if one.ok {
      SectionExtent(ud, mi, second, one);
    } else {
      SectionFails(ud, mi, second, one);
    }
  }

  /** A record is accepted exactly if the length its counts give it ends at or before the limit, and
      that is how far the cursor moves. */
  lemma RecordExtent(ud: seq<byte>, i: nat, mi: nat, events: Events)
    requires mi < |ud| && events.Valid()
    ensures var w := ParseElement(ud, i, mi, events);
            (w.ok <==> RecordEnd(ud, i) <= mi) && (w.ok ==> w.i == RecordEnd(ud, i))
  {
    hide Section, ListEnd, Events.Valid, FixAt;
    var start := Start(ud, i, mi, events);
    TwoSections(ud, mi, 1, 2, start);
    TwoSections(ud, mi, 4, 8, Section(ud, mi, 2, Section(ud, mi, 1, start)));
  }

  /** Of the announced records as many are parsed as lie whole in front of the limit, each as it is
      read at its own place. */
  lemma {:induction false} WholeOnesAreKept(ud: seq<byte>, i: nat, mi: nat, left: nat, k: nat)
    requires mi < |ud| && k < left
    ensures var records := RecordsFrom(ud, i, mi, left).records;
            && (k < |records| <==> RecordsEnd(ud, i, k + 1) <= mi)
            && (k < |records| ==>
                  var w := ParseElement(ud, RecordsEnd(ud, i, k), mi, Empty());
                  w.ok && records[k] == Parsed(w.fix.value, w.events, w.eventId))
    decreases left
  {
    hide ParseElement, Empty, Events.Valid, RecordEnd, RecordsEnd;
    RecordExtent(ud, i, mi, Empty());
    EndsApart(ud, i, k);
    EndsApart(ud, RecordEnd(ud, i), 0);
    if k > 0 && i < mi && ParseElement(ud, i, mi, Empty()).ok {
      EndsApart(ud, i, k - 1);
      WholeOnesAreKept(ud, RecordEnd(ud, i), mi, left - 1, k - 1);
    }
  }

  lemma EndsApart(ud: seq<byte>, i: nat, k: nat)
    ensures RecordsEnd(ud, i, 0) == i
    ensures RecordsEnd(ud, i, k + 1) == RecordsEnd(ud, RecordEnd(ud, i), k) >= RecordEnd(ud, i) > i
  {
    hide RecordEnd;
  }

  /** All announced records are parsed exactly if their lengths fit in front of the limit. */
  lemma ParsedExactly(ud: seq<byte>, i: nat, mi: nat, left: nat)
    requires mi < |ud|
    ensures |RecordsFrom(ud, i, mi, left).records| == left <==> left == 0 || RecordsEnd(ud, i, left) <= mi
  {
    hide RecordsEnd, ParseElement, Empty, Events.Valid;
    if left > 0 {
      WholeOnesAreKept(ud, i, mi, left, left - 1);
    }
  }

  /** Other frames are not looked into: too short ones, those without four zeros in front, and those
      of another codec. */
  lemma OthersAreIgnored(ud: seq<byte>)
    requires |ud| < 20 || ud[0] != 0 || ud[1] != 0 || ud[2] != 0 || ud[3] != 0 || ud[8] != 8
    ensures ParseFrame(ud) == Reading([], 0)
  {
    hide RecordsFrom;
    if |ud| >= 20 && ud[0..4] == [0, 0, 0, 0] {
      assert ud[0..4][0] == ud[0] && ud[0..4][1] == ud[1] && ud[0..4][2] == ud[2] && ud[0..4][3] == ud[3];
    }
  }

  // ----- truncation -----------------------------------------------------------------------

  lemma StartOfPrefix(ud: seq<byte>, k: nat, i: nat, mi: nat, mi': nat, events: Events)
    requires mi < k <= |ud| && mi <= mi' < |ud| && events.Valid()
    ensures Start(ud[..k], i, mi, events).ok ==> Start(ud[..k], i, mi, events) == Start(ud, i, mi', events)
  {
    hide FromBE, Signed;
    if i + 26 <= mi {
      var p := ud[..k];
      assert p[i..i + 8] == ud[i..i + 8] && p[i + 9..i + 9 + 4] == ud[i + 9..i + 9 + 4];
      assert p[i + 13..i + 13 + 4] == ud[i + 13..i + 13 + 4] && p[i + 17..i + 17 + 2] == ud[i + 17..i + 17 + 2];
      assert p[i + 19..i + 19 + 2] == ud[i + 19..i + 19 + 2] && p[i + 22..i + 22 + 2] == ud[i + 22..i + 22 + 2];
    }
  }

  lemma SectionOfPrefix(ud: seq<byte>, k: nat, mi: nat, mi': nat, width: nat, w: Walk)
    requires mi < k <= |ud| && mi <= mi' < |ud|
    requires IsWidth(width) && w.events.Valid() && (w.ok ==> w.i <= mi)
    ensures Section(ud[..k], mi, width, w).ok ==> Section(ud[..k], mi, width, w) == Section(ud, mi', width, w)
  {
    hide ScanAll, ElementsAt;
    if w.ok {
      var count := ud[w.i];
      assert ud[..k][w.i] == count;
      if w.i + 1 + Span(count, width) <= mi {
        ElementsOfPrefix(ud, k, w.i + 1, count, width);
      }
    }
  }

  /** A record that a truncated frame still holds is read from it exactly as from the whole. */
  lemma ElementOfPrefix(ud: seq<byte>, k: nat, i: nat, mi: nat, mi': nat, events: Events)
    requires mi < k <= |ud| && mi <= mi' < |ud| && events.Valid()
    ensures ParseElement(ud[..k], i, mi, events).ok ==>
              ParseElement(ud[..k], i, mi, events) == ParseElement(ud, i, mi', events)
  {
    hide Start, Section;
    var p := ud[..k];
    var w0 := Start(p, i, mi, events);
    var w1 := Section(p, mi, 1, w0);
    var w2 := Section(p, mi, 2, w1);
    var w4 := Section(p, mi, 4, w2);
    StartOfPrefix(ud, k, i, mi, mi', events);
    SectionOfPrefix(ud, k, mi, mi', 1, w0);
    SectionOfPrefix(ud, k, mi, mi', 2, w1);
    SectionOfPrefix(ud, k, mi, mi', 4, w2);
    SectionOfPrefix(ud, k, mi, mi', 8, w4);
  }

  lemma {:induction false} RecordsOfPrefix(ud: seq<byte>, k: nat, i: nat, mi: nat, mi': nat, left: nat)
    requires mi < k <= |ud| && mi <= mi' < |ud|
    ensures RecordsFrom(ud[..k], i, mi, left).records <= RecordsFrom(ud, i, mi', left).records
    decreases left
  {
    hide ParseElement;
    if left > 0 && i < mi {
      ElementOfPrefix(ud, k, i, mi, mi', Empty());
      var w := ParseElement(ud[..k], i, mi, Empty());
      if w.ok {
        RecordsOfPrefix(ud, k, w.i, mi, mi', left - 1);
      }
    }
  }

  /** Cutting a frame short never invents a record: what is parsed is a prefix. */
  lemma TruncationGivesPrefix(ud: seq<byte>, k: nat)
    requires k <= |ud|
    ensures ParseFrame(ud[..k]).records <= ParseFrame(ud).records
  {
    hide RecordsFrom;
    if k >= 20 {
      assert ud[..k][0..4] == ud[0..4] && ud[..k][8] == ud[8] && ud[..k][9] == ud[9];
      if IsCodec8(ud) {
        RecordsOfPrefix(ud, k, 10, k - 5, |ud| - 5, ud[9]);
      }
    }
  }

  // ----- what a tracker sends -----------------------------------------------------------

  /** A record as the tracker knows it; numbers of 16 and 32 bits are sent in two's complement. */
  datatype Sent = Sent(
    timestamp: nat, priority: byte, longitude: int, latitude: int, altitude: int, angle: int,
    satellites: byte, speed: int, eventId: byte, total: byte,
    one: seq<Element>, two: seq<Element>, four: seq<Element>, eight: seq<Element>)
  {
    ghost predicate Legal() {
      && timestamp < Pow256(8)
      && InRange(longitude, 0x1_0000_0000) && InRange(latitude, 0x1_0000_0000)
      && InRange(altitude, 0x1_0000) && InRange(angle, 0x1_0000) && InRange(speed, 0x1_0000)
      && LegalList(one, 1) && LegalList(two, 2) && LegalList(four, 4) && LegalList(eight, 8)
    }
  }

  function Position(r: Sent): (s: seq<byte>)
    requires r.Legal()
    ensures |s| == 26
  {
    ToBE(r.timestamp, 8) + ([r.priority] +
    (ToBE(Pattern(r.longitude, 0x1_0000_0000), 4) + (ToBE(Pattern(r.latitude, 0x1_0000_0000), 4) +
    (ToBE(Pattern(r.altitude, 0x1_0000), 2) + (ToBE(Pattern(r.angle, 0x1_0000), 2) +
    ([r.satellites] + (ToBE(Pattern(r.speed, 0x1_0000), 2) + [r.eventId, r.total])))))))
  }

  function Lists(r: Sent): (s: seq<byte>)
    requires r.Legal()
    ensures |s| >= 4
  {
    Counted(r.one) + (Counted(r.two) + (Counted(r.four) + Counted(r.eight)))
  }

  function Encode(r: Sent): (s: seq<byte>)
    requires r.Legal()
    ensures |s| >= 30
  {
    Position(r) + Lists(r)
  }

  function ScanLists(r: Sent, events: Events): (s: Events)
    requires r.Legal() && events.Valid()
    ensures s.Valid()
  {
    ScanAll(8, r.eight, ScanAll(4, r.four, ScanAll(2, r.two, ScanAll(1, r.one, events))))
  }

  function Begun(r: Sent): (e: Events)
    ensures e.Valid()
  {
    Empty().(priority := r.priority, satellites := r.satellites)
  }

  /** What the receiver should end up with. */
  function Expected(r: Sent): Parsed
    requires r.Legal()
  {
    Parsed(Fix(if r.satellites < 3 then NoFix else GpsFix, r.timestamp / 1000,
               r.longitude, r.latitude, r.altitude, r.angle, r.speed),
           ScanLists(r, Begun(r)),
           r.eventId)
  }

  lemma Powers()
    ensures Pow256(2) == 0x1_0000 && Pow256(4) == 0x1_0000_0000
  {
  }

  lemma StartReadsBack(ud: seq<byte>, i: nat, mi: nat, r: Sent)
    requires r.Legal() && mi < |ud| && At(ud, i, Position(r)) && i + 26 <= mi
    ensures Start(ud, i, mi, Empty()) ==
            Walk(true, i + 26, Some(Expected(r).fix), Begun(r), r.eventId)
  {
    hide ToBE, FromBE, Pow256, Field, ScanAll;
    Powers();
    var tail := [r.eventId, r.total];
    var s22 := ToBE(Pattern(r.speed, 0x1_0000), 2) + tail;
    var s21 := [r.satellites] + s22;
    var s19 := ToBE(Pattern(r.angle, 0x1_0000), 2) + s21;
    var s17 := ToBE(Pattern(r.altitude, 0x1_0000), 2) + s19;
    var s13 := ToBE(Pattern(r.latitude, 0x1_0000_0000), 4) + s17;
    var s9 := ToBE(Pattern(r.longitude, 0x1_0000_0000), 4) + s13;
    var s8 := [r.priority] + s9;
    NumberAt(ud, i, r.timestamp, 8, s8);
    ByteAt(ud, i + 8, r.priority, s9);
    NumberAt(ud, i + 9, Pattern(r.longitude, 0x1_0000_0000), 4, s13);
    NumberAt(ud, i + 13, Pattern(r.latitude, 0x1_0000_0000), 4, s17);
    NumberAt(ud, i + 17, Pattern(r.altitude, 0x1_0000), 2, s19);
    NumberAt(ud, i + 19, Pattern(r.angle, 0x1_0000), 2, s21);
    ByteAt(ud, i + 21, r.satellites, s22);
    NumberAt(ud, i + 22, Pattern(r.speed, 0x1_0000), 2, tail);
    assert tail == [r.eventId] + [r.total];
    ByteAt(ud, i + 24, r.eventId, [r.total]);
  }

  lemma SectionReadsBack(ud: seq<byte>, mi: nat, width: nat, w: Walk, es: seq<Element>, rest: seq<byte>)
    requires IsWidth(width) && LegalList(es, width)
    requires w.ok && w.events.Valid() && mi < |ud| && At(ud, w.i, Counted(es) + rest)
    requires w.i + |Counted(es)| <= mi
    ensures Section(ud, mi, width, w) == w.(i := w.i + |Counted(es)|, events := ScanAll(width, es, w.events))
    ensures At(ud, w.i + |Counted(es)|, rest)
  {
    hide ScanAll, Serialised, ElementsAt;
    AtConcat(ud, w.i, Counted(es), rest);
    ByteAt(ud, w.i, |es|, Serialised(es));
    ElementsReadBack(ud, w.i + 1, es, width);
  }

  lemma SectionsReadBack(ud: seq<byte>, mi: nat, w: Walk, r: Sent)
    requires r.Legal() && w.ok && w.events.Valid() && mi < |ud|
    requires At(ud, w.i, Lists(r)) && w.i + |Lists(r)| <= mi
    ensures Section(ud, mi, 8, Section(ud, mi, 4, Section(ud, mi, 2, Section(ud, mi, 1, w)))) ==
            w.(i := w.i + |Lists(r)|, events := ScanLists(r, w.events))
  {
    hide Counted, ScanAll, Section;
    var c1, c2, c4, c8 := Counted(r.one), Counted(r.two), Counted(r.four), Counted(r.eight);
    SectionReadsBack(ud, mi, 1, w, r.one, c2 + (c4 + c8));
    var w1 := Section(ud, mi, 1, w);
    SectionReadsBack(ud, mi, 2, w1, r.two, c4 + c8);
    var w2 := Section(ud, mi, 2, w1);
    SectionReadsBack(ud, mi, 4, w2, r.four, c8);
    var w4 := Section(ud, mi, 4, w2);
    assert c8 + [] == c8;
    SectionReadsBack(ud, mi, 8, w4, r.eight, []);
  }

  lemma EncodingLayout(ud: seq<byte>, i: nat, r: Sent, rest: seq<byte>)
    requires r.Legal() && At(ud, i, Encode(r) + rest)
    ensures |Encode(r)| == 26 + |Lists(r)|
    ensures At(ud, i, Position(r)) && At(ud, i + 26, Lists(r)) && At(ud, i + |Encode(r)|, rest)
  {
    AtConcat(ud, i, Encode(r), rest);
    AtConcat(ud, i, Position(r), Lists(r));
    hide Position, Lists;
  }

  lemma ElementReadsBack(ud: seq<byte>, i: nat, mi: nat, r: Sent)
    requires r.Legal() && mi < |ud| && At(ud, i, Position(r)) && At(ud, i + 26, Lists(r)) && i + 26 + |Lists(r)| <= mi
    ensures ParseElement(ud, i, mi, Empty()) ==
            Walk(true, i + 26 + |Lists(r)|, Some(Expected(r).fix), Expected(r).events, Expected(r).eventId)
  {
    hide Start, Section, Position, Lists, ScanLists, At, FixAt, Empty, Begun;
    StartReadsBack(ud, i, mi, r);
    SectionsReadBack(ud, mi, Start(ud, i, mi, Empty()), r);
  }

  function EncodeAll(rs: seq<Sent>): (s: seq<byte>)
    requires forall r | r in rs :: r.Legal()
    ensures rs != [] ==> |s| >= 30
  {
    if rs == [] then [] else Encode(rs[0]) + EncodeAll(rs[1..])
  }

  function ExpectedAll(rs: seq<Sent>): (ps: seq<Parsed>)
    requires forall r | r in rs :: r.Legal()
    ensures |ps| == |rs|
  {
    if rs == [] then [] else [Expected(rs[0])] + ExpectedAll(rs[1..])
  }

  lemma {:induction false} RecordsReadBack(ud: seq<byte>, i: nat, mi: nat, rs: seq<Sent>)
    requires (forall r | r in rs :: r.Legal()) && mi < |ud|
    requires At(ud, i, EncodeAll(rs)) && i + |EncodeAll(rs)| == mi
    ensures RecordsFrom(ud, i, mi, |rs|) == Reading(ExpectedAll(rs), mi)
    decreases |rs|
  {
    hide Position, Lists, Encode, Expected, ParseElement;
    if rs != [] {
      EncodingLayout(ud, i, rs[0], EncodeAll(rs[1..]));
      ElementReadsBack(ud, i, mi, rs[0]);
      RecordsReadBack(ud, i + |Encode(rs[0])|, mi, rs[1..]);
    }
  }

  /** The TCP layout: codec, count, records, count. */
  function Payload(rs: seq<Sent>): seq<byte>
    requires |rs| < 256 && forall r | r in rs :: r.Legal()
  {
    CountedFrame.CountedPayload(8, |rs|, EncodeAll(rs))
  }

  lemma LaidOutFrameReadsBack(ud: seq<byte>, rs: seq<Sent>)
    requires (forall r | r in rs :: r.Legal()) && rs != [] && |ud| == 15 + |EncodeAll(rs)|
    requires IsCodec8(ud) && ud[9] == |rs| && At(ud, 10, EncodeAll(rs))
    ensures ParseFrame(ud) == Reading(ExpectedAll(rs), |ud| - 5)
  {
    hide EncodeAll, ExpectedAll, RecordsFrom;
    RecordsReadBack(ud, 10, |ud| - 5, rs);
  }

  /** Decoding inverts encoding: every record comes back in order, with the cursor on the
      closing count. An empty list is too short a frame to be looked into. */
  lemma FrameReadsBack(rs: seq<Sent>, trailer: seq<byte>)
    requires |rs| < 256 && (forall r | r in rs :: r.Legal()) && |trailer| == 4
    ensures var ud := TcpStream.Wrap(Payload(rs), trailer);
            && ParseFrame(ud).records == ExpectedAll(rs)
            && (rs != [] ==> IsCodec8(ud) && ParseFrame(ud).cursor == |ud| - 5)
  {
    CountedFrame.Layout(8, |rs|, EncodeAll(rs), trailer);
    hide TcpStream.Wrap, CountedFrame.CountedPayload, RecordsFrom, Encode, Expected, Sent.Legal;
    var ud := TcpStream.Wrap(Payload(rs), trailer);
    if rs != [] {
      LaidOutFrameReadsBack(ud, rs);
    }
  }
}
