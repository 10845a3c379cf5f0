/** Where the elements of a codec 8 record end up: a closed form of the element-by-element scan.
    Named values keep the last element with their id, numbered readings and unnamed elements are
    all kept in order. */
module Codec8Values {
  import opened Bytes
  import opened ElementStore
  import opened Records
  import opened Codec8

  function Short(d: seq<byte>): int {
    Signed(FromBE(d), 0x1_0000)
  }

  function Long(d: seq<byte>): int {
    Signed(FromBE(d), 0x1_0000_0000)
  }

  // ----- the ids of the protocol, as numbers --------------------------------------------------

  predicate InputId(id: byte) {
    1 <= id <= 4
  }

  predicate AnalogId(id: byte) {
    9 <= id <= 11 || id == 19
  }

  predicate TemperatureId(id: byte) {
    72 <= id <= 74
  }

  predicate ZoneId(id: byte) {
    155 <= id <= 174
  }

  /** The elements that are stored raw. */
  predicate IsRaw(width: nat, id: byte) {
    if width == 1 then !ZoneId(id) && id != 21 && id != 22 && id != 240
    else if width == 2 then
      !AnalogId(id) && id != 24 && !(66 <= id <= 69)
    else if width == 4 then
      !TemperatureId(id) && id != 23 && id != 70 && id != 76 && id != 199
    else id != 78
  }

  function Raw(es: seq<Element>, width: nat): seq<Element> {
    if es == [] then [] else (if IsRaw(width, es[0].id) then [es[0]] else []) + Raw(es[1..], width)
  }

  function Ids(es: seq<Element>): seq<byte> {
    if es == [] then [] else [es[0].id] + Ids(es[1..])
  }

  function Datas(es: seq<Element>): seq<byte> {
    if es == [] then [] else es[0].data + Datas(es[1..])
  }

  function ZoneNumbers(es: seq<Element>): seq<byte> {
    if es == [] then []
    else (if ZoneId(es[0].id) then [es[0].id - 155] else []) + ZoneNumbers(es[1..])
  }

  function ZoneStates(es: seq<Element>): seq<bool> {
    if es == [] then [] else (if ZoneId(es[0].id) then [NonZero(es[0].data)] else []) + ZoneStates(es[1..])
  }

  function AnalogNumbers(es: seq<Element>): seq<byte> {
    if es == [] then []
    else
      (if !AnalogId(es[0].id) then []
       else if es[0].id == 19 then [3] else [es[0].id - 9])
      + AnalogNumbers(es[1..])
  }

  function AnalogReadings(es: seq<Element>): seq<int> {
    if es == [] then [] else (if AnalogId(es[0].id) then [Short(es[0].data)] else []) + AnalogReadings(es[1..])
  }

  function TemperatureNumbers(es: seq<Element>): seq<byte> {
    if es == [] then []
    else (if TemperatureId(es[0].id) then [es[0].id - 72] else []) + TemperatureNumbers(es[1..])
  }

  function TemperatureReadings(es: seq<Element>): seq<int> {
    if es == [] then [] else (if TemperatureId(es[0].id) then [Long(es[0].data)] else []) + TemperatureReadings(es[1..])
  }

  /** The input levels after each element for an input has set its bit. */
  function Levels(bits: seq<bool>, es: seq<Element>): (r: seq<bool>)
    requires |bits| == 8
    ensures |r| == 8
    decreases |es|
  {
    if es == [] then bits
    else Levels(if InputId(es[0].id) then bits[es[0].id - 1 := NonZero(es[0].data)] else bits, es[1..])
  }

  function Seen(bits: seq<bool>, es: seq<Element>): (r: seq<bool>)
    requires |bits| == 8
    ensures |r| == 8
    decreases |es|
  {
    if es == [] then bits
    else Seen(if InputId(es[0].id) then bits[es[0].id - 1 := true] else bits, es[1..])
  }

  /** The level of an input is that of the last element for it. */
  lemma {:induction false} LevelIsLast(levels: seq<bool>, seen: seq<bool>, es: seq<Element>, k: nat)
    requires |levels| == |seen| == 8 && k < 8
    ensures var last := if k < 4 then Last(es, 1 + k) else None;
            && Levels(levels, es)[k] == (if last.Some? then NonZero(last.value) else levels[k])
            && Seen(seen, es)[k] == (last.Some? || seen[k])
    decreases |es|
  {
    if es != [] {
      var x := es[0];
      var levels' := if InputId(x.id) then levels[x.id - 1 := NonZero(x.data)] else levels;
      var seen' := if InputId(x.id) then seen[x.id - 1 := true] else seen;
      LevelIsLast(levels', seen', es[1..], k);
    }
  }

  function AfterOnes(es: seq<Element>, e: Events): Events
    requires |e.inputs| == |e.inputsNo| == 8
  {
    e.(inputs := Levels(e.inputs, es), inputsNo := Seen(e.inputsNo, es),
       zonesNo := e.zonesNo + ZoneNumbers(es), zones := e.zones + ZoneStates(es),
       rssi := Updated(e.rssi, Last(es, 21), FirstByte),
       profile := Updated(e.profile, Last(es, 22), FirstByte),
       move := Updated(e.move, Last(es, 240), NonZero),
       id1 := e.id1 + Ids(Raw(es, 1)), data1 := e.data1 + Datas(Raw(es, 1)))
  }

  function AfterTwos(es: seq<Element>, e: Events): Events {
    e.(analogNo := e.analogNo + AnalogNumbers(es), analogInputs := e.analogInputs + AnalogReadings(es),
       gpsSpeed := Updated(e.gpsSpeed, Last(es, 24), FromBE),
       extPower := Updated(e.extPower, Last(es, 66), Short),
       batPower := Updated(e.batPower, Last(es, 67), Short),
       batCurrent := Updated(e.batCurrent, Last(es, 68), Short),
       gpsPower := Updated(e.gpsPower, Last(es, 69), Short),
       id2 := e.id2 + Ids(Raw(es, 2)), data2 := e.data2 + Datas(Raw(es, 2)))
  }

  function AfterFours(es: seq<Element>, e: Events): Events {
    e.(temperatureNo := e.temperatureNo + TemperatureNumbers(es),
       temperature := e.temperature + TemperatureReadings(es),
       accelerometer := Updated(e.accelerometer, Last(es, 23), FromBE),
       pcbTemperature := Updated(e.pcbTemperature, Last(es, 70), Long),
       fuel := Updated(e.fuel, Last(es, 76), FromBE),
       odometer := Updated(e.odometer, Last(es, 199), FromBE),
       id4 := e.id4 + Ids(Raw(es, 4)), data4 := e.data4 + Datas(Raw(es, 4)))
  }

  function AfterEights(es: seq<Element>, e: Events): Events {
    e.(ibutton := Updated(e.ibutton, Last(es, 78), d => d),
       id8 := e.id8 + Ids(Raw(es, 8)), data8 := e.data8 + Datas(Raw(es, 8)))
  }

  lemma RawFirst(es: seq<Element>, width: nat, ids: seq<byte>, data: seq<byte>)
    requires es != []
    ensures var x := es[0];
            && (if IsRaw(width, x.id) then ids + [x.id] else ids)
               + Ids(Raw(es[1..], width)) ==
               ids + Ids(Raw(es, width))
            && (if IsRaw(width, x.id) then data + x.data else data)
               + Datas(Raw(es[1..], width)) ==
               data + Datas(Raw(es, width))
  {
    var x, rest := es[0], Raw(es[1..], width);
    if IsRaw(width, x.id) {
      assert Raw(es, width) == [x] + rest;
      assert ([x] + rest)[1..] == rest;
      Regroup(ids, [x.id], Ids(rest));
      Regroup(data, x.data, Datas(rest));
    } else {
      assert Raw(es, width) == rest;
    }
  }

  lemma ZonesFirst(es: seq<Element>, numbers: seq<byte>, readings: seq<bool>)
    requires es != []
    ensures var x := es[0];
            && (if ZoneId(x.id) then numbers + [x.id - 155] else numbers)
               + ZoneNumbers(es[1..]) ==
               numbers + ZoneNumbers(es)
            && (if ZoneId(x.id) then readings + [NonZero(x.data)] else readings)
               + ZoneStates(es[1..]) ==
               readings + ZoneStates(es)
  {
    var x := es[0];
    if ZoneId(x.id) {
      Regroup(numbers, [x.id - 155], ZoneNumbers(es[1..]));
      Regroup(readings, [NonZero(x.data)], ZoneStates(es[1..]));
    } else {
      assert ZoneNumbers(es) == ZoneNumbers(es[1..]) && ZoneStates(es) == ZoneStates(es[1..]);
    }
  }

  lemma AnalogsFirst(es: seq<Element>, numbers: seq<byte>, readings: seq<int>)
    requires es != []
    ensures var x := es[0];
            && (if AnalogId(x.id) then
                  numbers + [if x.id == 19 then 3 else x.id - 9]
                else numbers)
               + AnalogNumbers(es[1..]) ==
               numbers + AnalogNumbers(es)
            && (if AnalogId(x.id) then readings + [Short(x.data)] else readings)
               + AnalogReadings(es[1..]) ==
               readings + AnalogReadings(es)
  {
    var x := es[0];
    if AnalogId(x.id) {
      Regroup(numbers, [if x.id == 19 then 3 else x.id - 9], AnalogNumbers(es[1..]));
      Regroup(readings, [Short(x.data)], AnalogReadings(es[1..]));
    } else {
      assert AnalogNumbers(es) == AnalogNumbers(es[1..]) && AnalogReadings(es) == AnalogReadings(es[1..]);
    }
  }

  lemma TemperaturesFirst(es: seq<Element>, numbers: seq<byte>, readings: seq<int>)
    requires es != []
    ensures var x := es[0];
            && (if TemperatureId(x.id) then numbers + [x.id - 72] else numbers)
               + TemperatureNumbers(es[1..]) ==
               numbers + TemperatureNumbers(es)
            && (if TemperatureId(x.id) then readings + [Long(x.data)] else readings)
               + TemperatureReadings(es[1..]) ==
               readings + TemperatureReadings(es)
  {
    var x := es[0];
    if TemperatureId(x.id) {
      Regroup(numbers, [x.id - 72], TemperatureNumbers(es[1..]));
      Regroup(readings, [Long(x.data)], TemperatureReadings(es[1..]));
    } else {
      assert TemperatureNumbers(es) == TemperatureNumbers(es[1..]);
      assert TemperatureReadings(es) == TemperatureReadings(es[1..]);
    }
  }

  lemma ScanNext(width: nat, es: seq<Element>, e: Events)
    requires IsWidth(width) && es != [] && (forall x | x in es :: |x.data| == width) && e.Valid()
    ensures ScanAll(width, es, e) == ScanAll(width, es[1..], Scan(width, es[0], e))
  {
    hide Scan;
  }

  function Flat1(x: Element, e: Events): Events
    requires |x.data| == 1 && e.Valid()
  {
    e.(inputs := if InputId(x.id) then e.inputs[x.id - 1 := NonZero(x.data)] else e.inputs,
       inputsNo := if InputId(x.id) then e.inputsNo[x.id - 1 := true] else e.inputsNo,
       zonesNo := if ZoneId(x.id) then e.zonesNo + [x.id - 155] else e.zonesNo,
       zones := if ZoneId(x.id) then e.zones + [NonZero(x.data)] else e.zones,
       rssi := if x.id == 21 then Some(FirstByte(x.data)) else e.rssi,
       profile := if x.id == 22 then Some(FirstByte(x.data)) else e.profile,
       move := if x.id == 240 then Some(NonZero(x.data)) else e.move,
       id1 := if IsRaw(1, x.id) then e.id1 + [x.id] else e.id1,
       data1 := if IsRaw(1, x.id) then e.data1 + x.data else e.data1)
  }

  lemma Scan1IsFlat(x: Element, e: Events)
    requires |x.data| == 1 && e.Valid()
    ensures Scan(1, x, e) == Flat1(x, e)
  {
  }

  lemma OnesFirst(es: seq<Element>, e: Events)
    requires es != [] && (forall x | x in es :: |x.data| == 1) && e.Valid() && Flat1(es[0], e).Valid()
    ensures AfterOnes(es[1..], Flat1(es[0], e)) == AfterOnes(es, e)
  {
    RawFirst(es, 1, e.id1, e.data1);
    ZonesFirst(es, e.zonesNo, e.zones);
    hide Raw, Ids, Datas, Last, Updated, IsRaw, ZoneId, AnalogId, TemperatureId, InputId, ZoneNumbers;
    hide ZoneStates, FirstByte, NonZero;
  }

  lemma {:induction false} ScanOnes(es: seq<Element>, e: Events)
    requires (forall x | x in es :: |x.data| == 1) && e.Valid()
    ensures ScanAll(1, es, e) == AfterOnes(es, e)
    decreases |es|
  {
    if es != [] {
      Scan1IsFlat(es[0], e);
      ScanNext(1, es, e);
      hide Scan, Flat1, AfterOnes, ScanAll;
      OnesFirst(es, e);
      ScanOnes(es[1..], Scan(1, es[0], e));
    } else {
      assert e.zonesNo + [] == e.zonesNo;
      assert e.zones + [] == e.zones;
      assert e.id1 + [] == e.id1;
      assert e.data1 + [] == e.data1;
    }
  }

  function Flat2(x: Element, e: Events): Events
    requires |x.data| == 2 && e.Valid()
  {
    e.(analogNo := if AnalogId(x.id) then
                     e.analogNo + [if x.id == 19 then 3 else x.id - 9]
                   else e.analogNo,
       analogInputs := if AnalogId(x.id) then e.analogInputs + [Short(x.data)] else e.analogInputs,
       gpsSpeed := if x.id == 24 then Some(FromBE(x.data)) else e.gpsSpeed,
       extPower := if x.id == 66 then Some(Short(x.data)) else e.extPower,
       batPower := if x.id == 67 then Some(Short(x.data)) else e.batPower,
       batCurrent := if x.id == 68 then Some(Short(x.data)) else e.batCurrent,
       gpsPower := if x.id == 69 then Some(Short(x.data)) else e.gpsPower,
       id2 := if IsRaw(2, x.id) then e.id2 + [x.id] else e.id2,
       data2 := if IsRaw(2, x.id) then e.data2 + x.data else e.data2)
  }

  lemma Scan2IsFlat(x: Element, e: Events)
    requires |x.data| == 2 && e.Valid()
    ensures Scan(2, x, e) == Flat2(x, e)
  {
  }

  lemma TwosFirst(es: seq<Element>, e: Events)
    requires es != [] && (forall x | x in es :: |x.data| == 2) && e.Valid() && Flat2(es[0], e).Valid()
    ensures AfterTwos(es[1..], Flat2(es[0], e)) == AfterTwos(es, e)
  {
    RawFirst(es, 2, e.id2, e.data2);
    AnalogsFirst(es, e.analogNo, e.analogInputs);
    hide Raw, Ids, Datas, Last, Updated, IsRaw, ZoneId, AnalogId, TemperatureId, InputId, AnalogNumbers;
    hide AnalogReadings, FromBE;
  }

  lemma {:induction false} ScanTwos(es: seq<Element>, e: Events)
    requires (forall x | x in es :: |x.data| == 2) && e.Valid()
    ensures ScanAll(2, es, e) == AfterTwos(es, e)
    decreases |es|
  {
    if es != [] {
      Scan2IsFlat(es[0], e);
      ScanNext(2, es, e);
      hide Scan, Flat2, AfterTwos, ScanAll;
      TwosFirst(es, e);
      ScanTwos(es[1..], Scan(2, es[0], e));
    } else {
      assert e.analogNo + [] == e.analogNo;
      assert e.analogInputs + [] == e.analogInputs;
      assert e.id2 + [] == e.id2;
      assert e.data2 + [] == e.data2;
    }
  }

  function Flat4(x: Element, e: Events): Events
    requires |x.data| == 4 && e.Valid()
  {
    e.(temperatureNo := if TemperatureId(x.id) then e.temperatureNo + [x.id - 72] else e.temperatureNo,
       temperature := if TemperatureId(x.id) then e.temperature + [Long(x.data)] else e.temperature,
       accelerometer := if x.id == 23 then Some(FromBE(x.data)) else e.accelerometer,
       pcbTemperature := if x.id == 70 then Some(Long(x.data)) else e.pcbTemperature,
       fuel := if x.id == 76 then Some(FromBE(x.data)) else e.fuel,
       odometer := if x.id == 199 then Some(FromBE(x.data)) else e.odometer,
       id4 := if IsRaw(4, x.id) then e.id4 + [x.id] else e.id4,
       data4 := if IsRaw(4, x.id) then e.data4 + x.data else e.data4)
  }

  lemma Scan4IsFlat(x: Element, e: Events)
    requires |x.data| == 4 && e.Valid()
    ensures Scan(4, x, e) == Flat4(x, e)
  {
  }

  lemma FoursFirst(es: seq<Element>, e: Events)
    requires es != [] && (forall x | x in es :: |x.data| == 4) && e.Valid() && Flat4(es[0], e).Valid()
    ensures AfterFours(es[1..], Flat4(es[0], e)) == AfterFours(es, e)
  {
    RawFirst(es, 4, e.id4, e.data4);
    TemperaturesFirst(es, e.temperatureNo, e.temperature);
    hide Raw, Ids, Datas, Last, Updated, IsRaw, ZoneId, AnalogId, TemperatureId, InputId, TemperatureNumbers;
    hide TemperatureReadings, FromBE;
  }

  lemma {:induction false} ScanFours(es: seq<Element>, e: Events)
    requires (forall x | x in es :: |x.data| == 4) && e.Valid()
    ensures ScanAll(4, es, e) == AfterFours(es, e)
    decreases |es|
  {
    if es != [] {
      Scan4IsFlat(es[0], e);
      ScanNext(4, es, e);
      hide Scan, Flat4, AfterFours, ScanAll;
      FoursFirst(es, e);
      ScanFours(es[1..], Scan(4, es[0], e));
    } else {
      assert e.temperatureNo + [] == e.temperatureNo;
      assert e.temperature + [] == e.temperature;
      assert e.id4 + [] == e.id4;
      assert e.data4 + [] == e.data4;
    }
  }

  function Flat8(x: Element, e: Events): Events
    requires |x.data| == 8 && e.Valid()
  {
    e.(ibutton := if x.id == 78 then Some(x.data) else e.ibutton,
       id8 := if IsRaw(8, x.id) then e.id8 + [x.id] else e.id8,
       data8 := if IsRaw(8, x.id) then e.data8 + x.data else e.data8)
  }

  lemma Scan8IsFlat(x: Element, e: Events)
    requires |x.data| == 8 && e.Valid()
    ensures Scan(8, x, e) == Flat8(x, e)
  {
  }

  lemma EightsFirst(es: seq<Element>, e: Events)
    requires es != [] && (forall x | x in es :: |x.data| == 8) && e.Valid() && Flat8(es[0], e).Valid()
    ensures AfterEights(es[1..], Flat8(es[0], e)) == AfterEights(es, e)
  {
    RawFirst(es, 8, e.id8, e.data8);
    hide Raw, Ids, Datas, Last, Updated, IsRaw;
  }

  lemma {:induction false} ScanEights(es: seq<Element>, e: Events)
    requires (forall x | x in es :: |x.data| == 8) && e.Valid()
    ensures ScanAll(8, es, e) == AfterEights(es, e)
    decreases |es|
  {
    if es != [] {
      Scan8IsFlat(es[0], e);
      ScanNext(8, es, e);
      hide Scan, Flat8, AfterEights, ScanAll;
      EightsFirst(es, e);
      ScanEights(es[1..], Scan(8, es[0], e));
    } else {
      assert e.id8 + [] == e.id8;
      assert e.data8 + [] == e.data8;
    }
  }

  /** Every element of a record sent is found again: the received record is this closed form. */
  lemma RecordValues(r: Sent)
    requires r.Legal()
    ensures Expected(r).events == AfterEights(r.eight, AfterFours(r.four, AfterTwos(r.two, AfterOnes(r.one, Begun(r)))))
  {
    hide AfterOnes, AfterTwos, AfterFours, AfterEights, ScanAll, Begun;
    ScanOnes(r.one, Begun(r));
    var e1 := ScanAll(1, r.one, Begun(r));
    ScanTwos(r.two, e1);
    var e2 := ScanAll(2, r.two, e1);
    ScanFours(r.four, e2);
    ScanEights(r.eight, ScanAll(4, r.four, e2));
  }

  lemma NothingKnown()
    ensures var e := Empty();
            && e.priority == 0 && e.satellites == 0
            && e.inputs == e.inputsNo == [false, false, false, false, false, false, false, false]
            && e.zonesNo == [] && e.zones == [] && e.analogNo == [] && e.analogInputs == []
            && e.temperatureNo == [] && e.temperature == []
            && e.rssi == None && e.profile == None && e.move == None && e.gpsSpeed == None
            && e.extPower == None && e.batPower == None && e.batCurrent == None && e.gpsPower == None
            && e.accelerometer == None && e.pcbTemperature == None && e.fuel == None && e.odometer == None
            && e.ibutton == None
            && e.id1 == e.data1 == e.id2 == e.data2 == [] && e.id4 == e.data4 == e.id8 == e.data8 == []
  {
  }

  lemma OnesInFull(r: Sent)
    requires r.Legal()
    ensures var e := Expected(r).events;
            && e.priority == r.priority && e.satellites == r.satellites
            && e.rssi == Known(Last(r.one, 21), FirstByte) && e.profile == Known(Last(r.one, 22), FirstByte)
            && e.move == Known(Last(r.one, 240), NonZero)
            && e.zonesNo == ZoneNumbers(r.one) && e.zones == ZoneStates(r.one)
            && e.id1 == Ids(Raw(r.one, 1)) && e.data1 == Datas(Raw(r.one, 1))
  {
    hide ScanLists, Empty, Levels, Seen, ZoneNumbers, ZoneStates, AnalogNumbers, AnalogReadings, TemperatureNumbers;
    hide TemperatureReadings, Ids, Datas, Raw, Last, Short, Long, FirstByte, NonZero, FromBE;
    RecordValues(r);
    NothingKnown();
  }

  lemma TwosInFull(r: Sent)
    requires r.Legal()
    ensures var e := Expected(r).events;
            && e.gpsSpeed == Known(Last(r.two, 24), FromBE) && e.extPower == Known(Last(r.two, 66), Short)
            && e.batPower == Known(Last(r.two, 67), Short) && e.batCurrent == Known(Last(r.two, 68), Short)
            && e.gpsPower == Known(Last(r.two, 69), Short)
            && e.analogNo == AnalogNumbers(r.two) && e.analogInputs == AnalogReadings(r.two)
            && e.id2 == Ids(Raw(r.two, 2)) && e.data2 == Datas(Raw(r.two, 2))
  {
    hide ScanLists, Empty, Levels, Seen, ZoneNumbers, ZoneStates, AnalogNumbers, AnalogReadings, TemperatureNumbers;
    hide TemperatureReadings, Ids, Datas, Raw, Last, Short, Long, FirstByte, NonZero, FromBE;
    RecordValues(r);
    NothingKnown();
  }

  lemma FoursInFull(r: Sent)
    requires r.Legal()
    ensures var e := Expected(r).events;
            && e.accelerometer == Known(Last(r.four, 23), FromBE)
            && e.pcbTemperature == Known(Last(r.four, 70), Long)
            && e.fuel == Known(Last(r.four, 76), FromBE) && e.odometer == Known(Last(r.four, 199), FromBE)
            && e.temperatureNo == TemperatureNumbers(r.four) && e.temperature == TemperatureReadings(r.four)
            && e.id4 == Ids(Raw(r.four, 4)) && e.data4 == Datas(Raw(r.four, 4))
  {
    hide ScanLists, Empty, Levels, Seen, ZoneNumbers, ZoneStates, AnalogNumbers, AnalogReadings, TemperatureNumbers;
    hide TemperatureReadings, Ids, Datas, Raw, Last, Short, Long, FirstByte, NonZero, FromBE;
    RecordValues(r);
    NothingKnown();
  }

  lemma EightsInFull(r: Sent)
    requires r.Legal()
    ensures var e := Expected(r).events;
            && e.ibutton == Last(r.eight, 78)
            && e.id8 == Ids(Raw(r.eight, 8)) && e.data8 == Datas(Raw(r.eight, 8))
  {
    hide ScanLists, Empty, Levels, Seen, ZoneNumbers, ZoneStates, AnalogNumbers, AnalogReadings, TemperatureNumbers;
    hide TemperatureReadings, Ids, Datas, Raw, Last, Short, Long, FirstByte, NonZero, FromBE;
    RecordValues(r);
    NothingKnown();
  }

  /** A record sent is received as this, by itself: what was not sent is absent. */
  lemma RecordInFull(r: Sent)
    requires r.Legal()
    ensures var e := Expected(r).events;
            && e.priority == r.priority && e.satellites == r.satellites
            && e.rssi == Known(Last(r.one, 21), FirstByte) && e.profile == Known(Last(r.one, 22), FirstByte)
            && e.move == Known(Last(r.one, 240), NonZero)
            && e.zonesNo == ZoneNumbers(r.one) && e.zones == ZoneStates(r.one)
            && e.id1 == Ids(Raw(r.one, 1)) && e.data1 == Datas(Raw(r.one, 1))
            && e.gpsSpeed == Known(Last(r.two, 24), FromBE) && e.extPower == Known(Last(r.two, 66), Short)
            && e.batPower == Known(Last(r.two, 67), Short) && e.batCurrent == Known(Last(r.two, 68), Short)
            && e.gpsPower == Known(Last(r.two, 69), Short)
            && e.analogNo == AnalogNumbers(r.two) && e.analogInputs == AnalogReadings(r.two)
            && e.id2 == Ids(Raw(r.two, 2)) && e.data2 == Datas(Raw(r.two, 2))
            && e.accelerometer == Known(Last(r.four, 23), FromBE)
            && e.pcbTemperature == Known(Last(r.four, 70), Long)
            && e.fuel == Known(Last(r.four, 76), FromBE) && e.odometer == Known(Last(r.four, 199), FromBE)
            && e.temperatureNo == TemperatureNumbers(r.four) && e.temperature == TemperatureReadings(r.four)
            && e.id4 == Ids(Raw(r.four, 4)) && e.data4 == Datas(Raw(r.four, 4))
            && e.ibutton == Last(r.eight, 78)
            && e.id8 == Ids(Raw(r.eight, 8)) && e.data8 == Datas(Raw(r.eight, 8))
    ensures Expected(r).fix ==
            Fix(if r.satellites < 3 then NoFix else GpsFix, r.timestamp / 1000,
                r.longitude, r.latitude, r.altitude, r.angle, r.speed)
    ensures Expected(r).eventId == r.eventId
  {
    hide ScanLists, Empty, Levels, Seen, ZoneNumbers, ZoneStates, AnalogNumbers, AnalogReadings, TemperatureNumbers;
    hide TemperatureReadings, Ids, Datas, Raw, Last, Short, Long, FirstByte, NonZero, FromBE;
    OnesInFull(r);
    TwosInFull(r);
    FoursInFull(r);
    EightsInFull(r);
  }

  /** An input is on, and known, exactly by the last element that names it. */
  lemma InputsInFull(r: Sent, k: nat)
    requires r.Legal() && k < 8
    ensures var e, last := Expected(r).events, if k < 4 then Last(r.one, 1 + k) else None;
            && e.inputsNo[k] == last.Some?
            && e.inputs[k] == (last.Some? && NonZero(last.value))
  {
    hide ScanLists, Empty, Levels, Seen, ZoneNumbers, ZoneStates, AnalogNumbers, AnalogReadings, TemperatureNumbers;
    hide TemperatureReadings, Ids, Datas, Raw, Last, Short, Long, FirstByte, NonZero, FromBE;
    RecordValues(r);
    NothingKnown();
    LevelIsLast(Begun(r).inputs, Begun(r).inputsNo, r.one, k);
  }

  // ----- the raw elements come back as they were sent ---------------------------------------

  lemma {:induction false} Snoc(es: seq<Element>, x: Element)
    ensures Ids(es + [x]) == Ids(es) + [x.id] && Datas(es + [x]) == Datas(es) + x.data
  {
    if es == [] {
      assert es + [x] == [x];
    } else {
      assert (es + [x])[1..] == es[1..] + [x];
      Snoc(es[1..], x);
      Regroup(es[0].data, Datas(es[1..]), x.data);
    }
  }

  lemma {:induction false} PairedAgain(es: seq<Element>, width: nat)
    requires forall e | e in es :: |e.data| == width
    ensures |Datas(es)| == width * |Ids(es)| && Pairs(Ids(es), Datas(es), width) == es
  {
    if es != [] {
      var n := |es| - 1;
      PairedAgain(es[..n], width);
      assert es == es[..n] + [es[n]];
      Snoc(es[..n], es[n]);
      PairsAppend(Ids(es[..n]), Datas(es[..n]), width, es[n].id, es[n].data);
    }
  }

  lemma {:induction false} RawIsFiltered(es: seq<Element>, width: nat)
    ensures forall e | e in Raw(es, width) :: e in es && IsRaw(width, e.id)
  {
    if es != [] {
      RawIsFiltered(es[1..], width);
    }
  }

  /** The unnamed elements of a record sent are stored in order, each with its own bytes. */
  lemma RecordStoresRaw(r: Sent)
    requires r.Legal()
    ensures Expected(r).events.Stored() == Raw(r.one, 1) + Raw(r.two, 2) + Raw(r.four, 4) + Raw(r.eight, 8)
  {
    RecordValues(r);
    hide Pairs, Raw, Ids, Datas, Levels, Seen, ScanLists;
    RawPairs(r.one, 1);
    RawPairs(r.two, 2);
    RawPairs(r.four, 4);
    RawPairs(r.eight, 8);
    var e := Expected(r).events;
    assert e.id1 == [] + Ids(Raw(r.one, 1)) && e.data1 == [] + Datas(Raw(r.one, 1));
    assert e.id2 == [] + Ids(Raw(r.two, 2)) && e.data2 == [] + Datas(Raw(r.two, 2));
    assert e.id4 == [] + Ids(Raw(r.four, 4)) && e.data4 == [] + Datas(Raw(r.four, 4));
    assert e.id8 == [] + Ids(Raw(r.eight, 8)) && e.data8 == [] + Datas(Raw(r.eight, 8));
  }

  lemma RawPairs(es: seq<Element>, width: nat)
    requires forall e | e in es :: |e.data| == width
    ensures var raw := Raw(es, width);
            && |[] + Datas(raw)| == width * |[] + Ids(raw)|
            && Pairs([] + Ids(raw), [] + Datas(raw), width) == raw
  {
    var raw := Raw(es, width);
    RawIsFiltered(es, width);
    PairedAgain(raw, width);
    assert [] + Ids(raw) == Ids(raw) && [] + Datas(raw) == Datas(raw);
  }
}
