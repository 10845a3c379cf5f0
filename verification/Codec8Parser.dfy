/** The codec 8 parser as the tracker driver runs it: a cursor that is advanced over the frame and
    a record object that is filled in place. */
module Codec8Parser {
  import opened Bytes
  import opened ElementStore
  import opened Records
  import C = Codec8

  method Scan1(id: byte, d: byte, evt: CommonFm)
    requires evt.Value().Valid()
    modifies evt
    ensures evt.Value() == C.Scan1(id, [d], old(evt.Value()))
  {
    hide Pairs, Events.Valid;
    if C.EV_INPUT_BASE <= id < C.EV_INPUT_BASE + C.INPUT_COUNT {
      evt.SetInput(id - C.EV_INPUT_BASE, d != 0);
    } else if C.EV_ZONE_BASE <= id < C.EV_ZONE_BASE + C.ZONE_COUNT {
      evt.AddZone(id - C.EV_ZONE_BASE, d != 0);
      return;
    } else {
      Named1(id, d, evt);
      return;
    }
    evt.Add1(id, [d]);
  }

  /** The switch of scan1, and what follows it for other ids. */
  method Named1(id: byte, d: byte, evt: CommonFm)
    requires evt.Value().Valid() && !C.IsZone(id)
    requires !(C.EV_INPUT_BASE <= id < C.EV_INPUT_BASE + C.INPUT_COUNT)
    modifies evt
    ensures evt.Value() == C.Scan1(id, [d], old(evt.Value()))
  {
    hide Pairs, Events.Valid;
    if id == C.EV_RSSI {
      evt.rssi := Some(d);
    } else if id == C.EV_PROFILE {
      evt.profile := Some(d);
    } else if id == C.EV_MOVE {
      evt.move := Some(d != 0);
    } else {
      evt.Add1(id, [d]);
    }
  }

  method Scan2(id: byte, d: seq<byte>, evt: CommonFm)
    requires |d| == 2 && evt.Value().Valid()
    modifies evt
    ensures evt.Value() == C.Scan2(id, d, old(evt.Value()))
  {
    hide FromBE, Pairs, Events.Valid;
    var val := FromBE(d);
    var sval := Signed(val, 0x1_0000);
    if C.EV_ANALOG_INPUT_BASE <= id < C.EV_ANALOG_INPUT_BASE + C.ANALOG_INPUT_RANGE {
      evt.AddAnalogInput(id - C.EV_ANALOG_INPUT_BASE, sval);
    } else if id == C.EV_ANALOG_INPUT_4 {
      evt.AddAnalogInput(3, sval);
    } else {
      Named2(id, d, val, sval, evt);
    }
  }

  /** The switch of scan2. */
  method Named2(id: byte, d: seq<byte>, val: nat, sval: int, evt: CommonFm)
    requires |d| == 2 && evt.Value().Valid() && !C.IsAnalog(id)
    requires val == FromBE(d) && sval == Signed(val, 0x1_0000)
    modifies evt
    ensures evt.Value() == C.Scan2(id, d, old(evt.Value()))
  {
    hide FromBE, Signed, Pairs, Events.Valid;
    if id == C.EV_GPS_SPEED {
      evt.gpsSpeed := Some(val);
    } else if C.EV_EXT_POWER <= id <= C.EV_GPS_POWER {
      Power(id, d, sval, evt);
    } else {
      evt.Add2(id, d);
    }
  }

  method Power(id: byte, d: seq<byte>, sval: int, evt: CommonFm)
    requires |d| == 2 && evt.Value().Valid() && C.EV_EXT_POWER <= id <= C.EV_GPS_POWER
    requires sval == Signed(FromBE(d), 0x1_0000)
    modifies evt
    ensures evt.Value() == C.Scan2(id, d, old(evt.Value()))
  {
    hide FromBE, Signed, Pairs, Events.Valid;
    if id == C.EV_EXT_POWER {
      evt.extPower := Some(sval);
    } else if id == C.EV_BAT_POWER {
      evt.batPower := Some(sval);
    } else {
      Current(id, d, sval, evt);
    }
  }

  method Current(id: byte, d: seq<byte>, sval: int, evt: CommonFm)
    requires |d| == 2 && evt.Value().Valid() && C.EV_BAT_CURRENT <= id <= C.EV_GPS_POWER
    requires sval == Signed(FromBE(d), 0x1_0000)
    modifies evt
    ensures evt.Value() == C.Scan2(id, d, old(evt.Value()))
  {
    hide FromBE, Signed, Pairs, Events.Valid;
    if id == C.EV_BAT_CURRENT {
      evt.batCurrent := Some(sval);
    } else {
      evt.gpsPower := Some(sval);
    }
  }

  method Scan4(id: byte, d: seq<byte>, evt: CommonFm)
    requires |d| == 4 && evt.Value().Valid()
    modifies evt
    ensures evt.Value() == C.Scan4(id, d, old(evt.Value()))
  {
    hide FromBE, Pairs, Events.Valid;
    var val := FromBE(d);
    var sval := Signed(val, 0x1_0000_0000);
    if C.EV_TEMPERATURE_BASE <= id < C.EV_TEMPERATURE_BASE + C.TEMPERATURE_COUNT {
      evt.AddTemperature(id - C.EV_TEMPERATURE_BASE, sval);
    } else {
      Named4(id, d, val, sval, evt);
    }
  }

  /** The switch of scan4. */
  method Named4(id: byte, d: seq<byte>, val: nat, sval: int, evt: CommonFm)
    requires |d| == 4 && evt.Value().Valid() && !C.IsTemperature(id)
    requires val == FromBE(d) && sval == Signed(val, 0x1_0000_0000)
    modifies evt
    ensures evt.Value() == C.Scan4(id, d, old(evt.Value()))
  {
    hide FromBE, Signed, Pairs, Events.Valid;
    if id == C.EV_ACCELEROMETER {
      evt.accelerometer := Some(val);
    } else if id == C.EV_PCB_TEMPERATURE {
      evt.pcbTemperature := Some(sval);
    } else {
      Metered4(id, d, val, evt);
    }
  }

  method Metered4(id: byte, d: seq<byte>, val: nat, evt: CommonFm)
    requires |d| == 4 && evt.Value().Valid() && !C.IsTemperature(id)
    requires id != C.EV_ACCELEROMETER && id != C.EV_PCB_TEMPERATURE && val == FromBE(d)
    modifies evt
    ensures evt.Value() == C.Scan4(id, d, old(evt.Value()))
  {
    hide FromBE, Signed, Pairs, Events.Valid;
    if id == C.EV_FUEL {
      evt.fuel := Some(val);
    } else if id == C.EV_ODOMETER {
      evt.odometer := Some(val);
    } else {
      evt.Add4(id, d);
    }
  }

  method Scan8(id: byte, d: seq<byte>, evt: CommonFm)
    requires |d| == 8 && evt.Value().Valid()
    modifies evt
    ensures evt.Value() == C.Scan8(id, d, old(evt.Value()))
  {
    hide Pairs;
    if id == C.EV_IBUTTON {
      evt.ibutton := Some(d);
    } else {
      evt.Add8(id, d);
    }
  }

  method ScanElement(width: nat, id: byte, d: seq<byte>, evt: CommonFm)
    requires IsWidth(width) && |d| == width && evt.Value().Valid()
    modifies evt
    ensures evt.Value() == C.Scan(width, Element(id, d), old(evt.Value()))
  {
    hide Events.Valid, CommonFm.Value, C.Scan1, C.Scan2, C.Scan4, C.Scan8;
    if width == 1 {
      assert d == [d[0]];
      Scan1(id, d[0], evt);
    } else if width == 2 {
      Scan2(id, d, evt);
    } else if width == 4 {
      Scan4(id, d, evt);
    } else {
      Scan8(id, d, evt);
    }
  }

  /** One of the four loops over a counted list. */
  method ScanList(ud: seq<byte>, start: nat, count: nat, width: nat, evt: CommonFm) returns (i: nat)
    requires IsWidth(width) && start + Span(count, width) <= |ud| && evt.Value().Valid()
    modifies evt
    ensures i == start + Span(count, width)
    ensures evt.Value() == C.ScanAll(width, ElementsAt(ud, start, count, width), old(evt.Value()))
  {
    hide Events.Valid, CommonFm.Value, C.Scan, C.ScanAll, ElementsAt;
    i := start;
    ghost var all := C.ScanAll(width, ElementsAt(ud, start, count, width), evt.Value());
    var left := count;
    while left > 0
      invariant i + Span(left, width) == start + Span(count, width)
      invariant evt.Value().Valid()
      invariant C.ScanAll(width, ElementsAt(ud, i, left, width), evt.Value()) == all
    {
      NextElement(ud, i, left, width, evt.Value());
      var id, d := ud[i], ud[i + 1..i + 1 + width];
      ScanElement(width, id, d, evt);
      i, left := i + 1 + width, left - 1;
    }
    NoElement(ud, i, width, evt.Value());
  }

  lemma NextElement(ud: seq<byte>, i: nat, left: nat, width: nat, events: Events)
    requires IsWidth(width) && left > 0 && i + Span(left, width) <= |ud| && events.Valid()
    ensures i + 1 + width + Span(left - 1, width) <= |ud|
    ensures C.ScanAll(width, ElementsAt(ud, i, left, width), events) ==
            C.ScanAll(width, ElementsAt(ud, i + 1 + width, left - 1, width),
                      C.Scan(width, Element(ud[i], ud[i + 1..i + 1 + width]), events))
  {
    hide C.Scan, Events.Valid;
  }

  lemma NoElement(ud: seq<byte>, i: nat, width: nat, events: Events)
    requires IsWidth(width) && i <= |ud| && events.Valid()
    ensures C.ScanAll(width, ElementsAt(ud, i, 0, width), events) == events
  {
  }

  /** The fixed part of a record. */
  method ParseHeader(ud: seq<byte>, start: nat, mi: nat, evt: CommonFm)
    returns (ok: bool, i: nat, f: Option<C.Fix>, eventId: byte)
    requires mi < |ud| && evt.Value().Valid()
    modifies evt
    ensures C.Walk(ok, i, f, evt.Value(), eventId) == C.Start(ud, start, mi, old(evt.Value()))
  {
    hide Events.Valid, Pairs, FromBE;
    i, f, eventId := start, None, 0;
    if i + 24 > mi {
      return false, i, f, eventId;
    }
    var fixTime := Field(ud, i, 8);
    i := i + 8;
    evt.priority := ud[i];
    i := i + 1;
    var lon, lat := Field(ud, i, 4), Field(ud, i + 4, 4);
    i := i + 8;
    var height := Field(ud, i, 2);
    i := i + 2;
    var course := Field(ud, i, 2);
    i := i + 2;
    var error := if ud[i] < 3 then NoFix else GpsFix;
    evt.satellites := ud[i];
    i := i + 1;
    var speed := Field(ud, i, 2);
    i := i + 2;
    f := Some(C.Fix(error, fixTime / 1000, Signed(lon, 0x1_0000_0000), Signed(lat, 0x1_0000_0000),
                    Signed(height, 0x1_0000), Signed(course, 0x1_0000), Signed(speed, 0x1_0000)));
    eventId := ud[i];
    if i + 2 > mi {
      return false, i, f, eventId;
    }
    return true, i + 2, f, eventId;
  }

  /** A count byte, its check and the loop behind it. */
  method ParseSection(ud: seq<byte>, at: nat, mi: nat, width: nat, evt: CommonFm) returns (ok: bool, i: nat)
    requires IsWidth(width) && at <= mi < |ud| && evt.Value().Valid()
    modifies evt
    ensures forall f, id: byte ::
              C.Walk(ok, i, f, evt.Value(), id) == C.Section(ud, mi, width, C.Walk(true, at, f, old(evt.Value()), id))
  {
    hide Events.Valid, Pairs, C.ScanAll, ElementsAt, Span;
    i := at;
    if width == 1 && i + 1 > mi {
      return false, i;
    }
    var mj := ud[i];
    i := i + 1;
    if i + Span(mj, width) > mi {
      return false, i;
    }
    i := ScanList(ud, i, mj, width, evt);
    ok := true;
  }

  method ParseOneElement(ud: seq<byte>, start: nat, mi: nat, evt: CommonFm)
    returns (ok: bool, i: nat, f: Option<C.Fix>, eventId: byte)
    requires mi < |ud| && evt.Value().Valid()
    modifies evt
    ensures C.Walk(ok, i, f, evt.Value(), eventId) == C.ParseElement(ud, start, mi, old(evt.Value()))
  {
    hide Events.Valid, CommonFm.Value, Pairs, C.Start, C.Section;
    ok, i, f, eventId := ParseHeader(ud, start, mi, evt);
    ghost var w0 := C.Walk(ok, i, f, evt.Value(), eventId);
    SectionsKeepFailure(ud, mi, w0);
    if ok {
      ok, i := ParseSection(ud, i, mi, 1, evt);
      ghost var w1 := C.Walk(ok, i, f, evt.Value(), eventId);
      SectionsKeepFailure(ud, mi, w1);
      assert w1 == C.Section(ud, mi, 1, w0);
      if ok {
        ok, i := ParseSection(ud, i, mi, 2, evt);
        ghost var w2 := C.Walk(ok, i, f, evt.Value(), eventId);
        SectionsKeepFailure(ud, mi, w2);
        assert w2 == C.Section(ud, mi, 2, w1);
        if ok {
          ok, i := ParseSection(ud, i, mi, 4, evt);
          ghost var w4 := C.Walk(ok, i, f, evt.Value(), eventId);
          SectionsKeepFailure(ud, mi, w4);
          assert w4 == C.Section(ud, mi, 4, w2);
          if ok {
            ok, i := ParseSection(ud, i, mi, 8, evt);
          }
        }
      }
    }
  }

  lemma SectionsKeepFailure(ud: seq<byte>, mi: nat, w: C.Walk)
    requires mi < |ud| && w.events.Valid() && (w.ok ==> w.i <= mi)
    ensures !w.ok ==>
              C.Section(ud, mi, 1, w) == C.Section(ud, mi, 2, w) == w
    ensures !w.ok ==>
              C.Section(ud, mi, 4, w) == C.Section(ud, mi, 8, w) == w
  {
  }

  /** parse_events: a fresh record object for each element, and three vectors of results. */
  method ParseEvents(ud: seq<byte>) returns (ok: bool, fixes: seq<C.Fix>, evts: seq<Events>, evtsId: seq<byte>)
    ensures ok == C.IsCodec8(ud)
    ensures |fixes| == |evts| == |evtsId| == |C.ParseFrame(ud).records|
    ensures forall k | 0 <= k < |fixes| :: C.Parsed(fixes[k], evts[k], evtsId[k]) == C.ParseFrame(ud).records[k]
  {
    hide C.ParseElement, Events.Valid, CommonFm.Value;
    fixes, evts, evtsId := [], [], [];
    if |ud| < 20 {
      return false, fixes, evts, evtsId;
    }
    if ud[0..4] != [0, 0, 0, 0] {
      return false, fixes, evts, evtsId;
    }
    if ud[8] != 8 {
      return false, fixes, evts, evtsId;
    }
    var recCount := ud[9];
    var i: nat := 10;
    var mi := |ud| - 5;
    var r := 0;
    ghost var all := C.RecordsFrom(ud, 10, mi, recCount).records;
    while r < recCount && i < mi
      invariant r <= recCount && |fixes| == |evts| == |evtsId| == r
      invariant |all| == r + |C.RecordsFrom(ud, i, mi, recCount - r).records|
      invariant all[r..] == C.RecordsFrom(ud, i, mi, recCount - r).records
      invariant forall k | 0 <= k < r :: C.Parsed(fixes[k], evts[k], evtsId[k]) == all[k]
    {
      var evt := new CommonFm();
      ghost var w := C.ParseElement(ud, i, mi, Empty());
      var ok', i', f, id := ParseOneElement(ud, i, mi, evt);
      if !ok' {
        break;
      }
      assert all[r..][0] == C.Parsed(w.fix.value, w.events, w.eventId);
      assert all[r + 1..] == all[r..][1..];
      fixes, evts, evtsId := fixes + [f.value], evts + [evt.Value()], evtsId + [id];
      i, r := i', r + 1;
    }
    ok := true;
  }

  /** What parse_fix keeps of a record. */
  datatype FixRecord = FixRecord(priority: byte, satellites: byte, fix: C.Fix)

  method ParseFix(ud: seq<byte>) returns (records: seq<FixRecord>)
    ensures |records| == |C.ParseFrame(ud).records|
    ensures forall k | 0 <= k < |records| ::
              var p := C.ParseFrame(ud).records[k];
              records[k] == FixRecord(p.events.priority, p.events.satellites, p.fix)
  {
    hide C.ParseElement, Events.Valid;
    records := [];
    if |ud| < 20 || ud[0..4] != [0, 0, 0, 0] || ud[8] != 8 {
      return;
    }
    var recCount := ud[9];
    var i: nat := 10;
    var mi := |ud| - 5;
    var r := 0;
    ghost var all := C.RecordsFrom(ud, 10, mi, recCount).records;
    while r < recCount && i < mi
      invariant r <= recCount && |records| == r
      invariant |all| == r + |C.RecordsFrom(ud, i, mi, recCount - r).records|
      invariant all[r..] == C.RecordsFrom(ud, i, mi, recCount - r).records
      invariant forall k | 0 <= k < r ::
                  records[k] == FixRecord(all[k].events.priority, all[k].events.satellites, all[k].fix)
    {
      var evt := new CommonFm();
      ghost var w := C.ParseElement(ud, i, mi, Empty());
      var ok, i', f, id := ParseOneElement(ud, i, mi, evt);
      if !ok {
        break;
      }
      assert all[r..][0] == C.Parsed(w.fix.value, w.events, w.eventId);
      assert all[r + 1..] == all[r..][1..];
      assert evt.Value() == w.events;
      records := records + [FixRecord(evt.priority, evt.satellites, f.value)];
      i, r := i', r + 1;
    }
  }
}
