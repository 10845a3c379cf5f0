/** The I/O elements collected from one Teltonika FM record (common_fm_t): named values, and for
    all other ids the raw bytes, kept in four pairs of vectors by element width. */
module ElementStore {
  import opened Bytes

  /** An element id with its raw bytes (data_element_t). */
  datatype Element = Element(id: byte, data: seq<byte>)

  predicate IsWidth(width: nat) {
    width == 1 || width == 2 || width == 4 || width == 8
  }

  /** Element i of a store has id ids[i] and the i-th group of `width` bytes. */
  function Pairs(ids: seq<byte>, data: seq<byte>, width: nat): (es: seq<Element>)
    requires |data| == width * |ids|
    ensures |es| == |ids|
  {
    if ids == [] then []
    else
      var n := |ids| - 1;
      Pairs(ids[..n], data[..|data| - width], width) + [Element(ids[n], data[|data| - width..])]
  }

  lemma PairsAppend(ids: seq<byte>, data: seq<byte>, width: nat, id: byte, d: seq<byte>)
    requires |data| == width * |ids| && |d| == width
    ensures |data + d| == width * |ids + [id]|
    ensures Pairs(ids + [id], data + d, width) == Pairs(ids, data, width) + [Element(id, d)]
  {
    var ids', data' := ids + [id], data + d;
    assert |data'| == width * |ids'|;
    assert ids'[..|ids|] == ids && data'[..|data'| - width] == data && data'[|data'| - width..] == d;
  }

  // ----- the collected values --------------------------------------------------

  datatype Events = Events(
    priority: byte, satellites: byte,
    inputsNo: seq<bool>, inputs: seq<bool>,
    analogNo: seq<byte>, analogInputs: seq<int>,
    rssi: Option<byte>, profile: Option<byte>, move: Option<bool>,
    gpsSpeed: Option<nat>, extPower: Option<int>, batPower: Option<int>, batCurrent: Option<int>, gpsPower: Option<int>,
    accelerometer: Option<nat>, pcbTemperature: Option<int>, fuel: Option<nat>, odometer: Option<nat>,
    temperatureNo: seq<byte>, temperature: seq<int>,
    ibutton: Option<seq<byte>>,
    zonesNo: seq<byte>, zones: seq<bool>,
    id1: seq<byte>, data1: seq<byte>, id2: seq<byte>, data2: seq<byte>,
    id4: seq<byte>, data4: seq<byte>, id8: seq<byte>, data8: seq<byte>)
  {
    /** Every data vector holds `width` bytes for each id, and the numbered readings have one
        number each. */
    predicate Valid() {
      && |inputs| == |inputsNo| == 8
      && |analogNo| == |analogInputs| && |temperatureNo| == |temperature| && |zonesNo| == |zones|
      && |data1| == 1 * |id1| && |data2| == 2 * |id2| && |data4| == 4 * |id4| && |data8| == 8 * |id8|
    }

    function Stored1(): (es: seq<Element>)
      requires |data1| == 1 * |id1|
    {
      Pairs(id1, data1, 1)
    }

    function Stored2(): (es: seq<Element>)
      requires |data2| == 2 * |id2|
    {
      Pairs(id2, data2, 2)
    }

    function Stored4(): (es: seq<Element>)
      requires |data4| == 4 * |id4|
    {
      Pairs(id4, data4, 4)
    }

    function Stored8(): (es: seq<Element>)
      requires |data8| == 8 * |id8|
    {
      Pairs(id8, data8, 8)
    }

    function Add1(id: byte, d: seq<byte>): (r: Events)
      requires Valid() && |d| == 1
      ensures r.Valid() && r.Stored1() == Stored1() + [Element(id, d)]
    {
      PairsAppend(id1, data1, 1, id, d);
      this.(id1 := id1 + [id], data1 := data1 + d)
    }

    function Add2(id: byte, d: seq<byte>): (r: Events)
      requires Valid() && |d| == 2
      ensures r.Valid() && r.Stored2() == Stored2() + [Element(id, d)]
    {
      PairsAppend(id2, data2, 2, id, d);
      this.(id2 := id2 + [id], data2 := data2 + d)
    }

    function Add4(id: byte, d: seq<byte>): (r: Events)
      requires Valid() && |d| == 4
      ensures r.Valid() && r.Stored4() == Stored4() + [Element(id, d)]
    {
      PairsAppend(id4, data4, 4, id, d);
      this.(id4 := id4 + [id], data4 := data4 + d)
    }

    function Add8(id: byte, d: seq<byte>): (r: Events)
      requires Valid() && |d| == 8
      ensures r.Valid() && r.Stored8() == Stored8() + [Element(id, d)]
    {
      PairsAppend(id8, data8, 8, id, d);
      this.(id8 := id8 + [id], data8 := data8 + d)
    }

    /** Bit `index` of an unsigned char; shifting further than its width leaves it unchanged. */
    function SetInput(index: nat, active: bool): (r: Events)
      requires Valid()
      ensures r.Valid()
    {
      if index < 8 then this.(inputs := inputs[index := active], inputsNo := inputsNo[index := true]) else this
    }

    function AddZone(index: byte, inside: bool): (r: Events)
      requires Valid()
      ensures r.Valid()
    {
      this.(zonesNo := zonesNo + [index], zones := zones + [inside])
    }

    function AddAnalogInput(index: byte, val: int): (r: Events)
      requires Valid()
      ensures r.Valid()
    {
      this.(analogNo := analogNo + [index], analogInputs := analogInputs + [val])
    }

    function AddTemperature(index: byte, val: int): (r: Events)
      requires Valid()
      ensures r.Valid()
    {
      this.(temperatureNo := temperatureNo + [index], temperature := temperature + [val])
    }

    /** All raw elements, the one-byte ones first. */
    function Stored(): seq<Element>
      requires Valid()
    {
      Stored1() + Stored2() + Stored4() + Stored8()
    }
  }

  const NO_INPUTS: seq<bool> := [false, false, false, false, false, false, false, false]

  /** common_fm_t as it is constructed: nothing is known. */
  function Empty(): (e: Events)
    ensures e.Valid()
  {
    Events(0, 0, NO_INPUTS, NO_INPUTS, [], [],
           None, None, None, None, None, None, None, None, None, None, None, None,
           [], [], None, [], [], [], [], [], [], [], [], [], [])
  }

  // ----- any run of operations -----------------------------------------------------

  datatype Operation =
    | Add(width: nat, element: Element)
    | SetInput(index: nat, active: bool)
    | AddZone(zone: byte, inside: bool)
    | AddAnalogInput(input: byte, val: int)
    | AddTemperature(sensor: byte, degrees: int)
  {
    predicate Legal() {
      Add? ==> IsWidth(width) && |element.data| == width
    }
  }

  function Apply(events: Events, op: Operation): (r: Events)
    requires events.Valid() && op.Legal()
    ensures r.Valid()
  {
    match op
    case Add(width, e) =>
      if width == 1 then events.Add1(e.id, e.data)
      else if width == 2 then events.Add2(e.id, e.data)
      else if width == 4 then events.Add4(e.id, e.data)
      else events.Add8(e.id, e.data)
    case SetInput(index, active) => events.SetInput(index, active)
    case AddZone(zone, inside) => events.AddZone(zone, inside)
    case AddAnalogInput(input, val) => events.AddAnalogInput(input, val)
    case AddTemperature(sensor, degrees) => events.AddTemperature(sensor, degrees)
  }

  function Run(ops: seq<Operation>): (r: Events)
    requires forall op | op in ops :: op.Legal()
    ensures r.Valid()
  {
    if ops == [] then Empty() else Apply(Run(ops[..|ops| - 1]), ops[|ops| - 1])
  }

  /** The elements added with the given width, in order. */
  function Added(ops: seq<Operation>, width: nat): seq<Element> {
    if ops == [] then [] else Added(ops[..|ops| - 1], width) + AddedBy(ops[|ops| - 1], width)
  }

  function AddedBy(op: Operation, width: nat): seq<Element> {
    if op.Add? && op.width == width then [op.element] else []
  }

  lemma ApplyStores(events: Events, op: Operation)
    requires events.Valid() && op.Legal()
    ensures var r := Apply(events, op);
            && r.Stored1() == events.Stored1() + AddedBy(op, 1)
            && r.Stored2() == events.Stored2() + AddedBy(op, 2)
            && r.Stored4() == events.Stored4() + AddedBy(op, 4)
            && r.Stored8() == events.Stored8() + AddedBy(op, 8)
  {
    hide Pairs;
  }

  /** After any run every element added is stored under its own id with its own bytes, in the
      order of arrival within its width. */
  lemma {:induction false} RunStoresEverything(ops: seq<Operation>)
    requires forall op | op in ops :: op.Legal()
    ensures Run(ops).Stored1() == Added(ops, 1) && Run(ops).Stored2() == Added(ops, 2)
    ensures Run(ops).Stored4() == Added(ops, 4) && Run(ops).Stored8() == Added(ops, 8)
  {
    hide Apply, AddedBy;
    if ops != [] {
      var n := |ops| - 1;
      RunStoresEverything(ops[..n]);
      ApplyStores(Run(ops[..n]), ops[n]);
    }
  }

  // ----- ordering ----------------------------------------------------------------

  ghost predicate SortedById(es: seq<Element>) {
    forall i, j | 0 <= i < j < |es| :: es[i].id <= es[j].id
  }

  /** The elements with one id, in the order they occur. */
  function OfId(es: seq<Element>, id: byte): seq<Element> {
    if es == [] then []
    else
      var n := |es| - 1;
      OfId(es[..n], id) + if es[n].id == id then [es[n]] else []
  }

  /** x behind the last element whose id is not greater. */
  function Insert(es: seq<Element>, x: Element): (r: seq<Element>)
    ensures multiset(r) == multiset(es) + multiset{x}
  {
    var n := |es| - 1;
    if es == [] || es[n].id <= x.id then
      es + [x]
    else
      assert es == es[..n] + [es[n]];
      Insert(es[..n], x) + [es[n]]
  }

  /** std::stable_sort with first_less_pr: elements by id, equal ids in their old order. */
  function StableSort(es: seq<Element>): (r: seq<Element>)
    ensures multiset(r) == multiset(es)
  {
    if es == [] then []
    else
      var n := |es| - 1;
      assert es == es[..n] + [es[n]];
      Insert(StableSort(es[..n]), es[n])
  }

  lemma {:induction false} InsertSorts(es: seq<Element>, x: Element, bound: int)
    requires SortedById(es) && x.id <= bound && forall k | 0 <= k < |es| :: es[k].id <= bound
    ensures var r := Insert(es, x); SortedById(r) && forall k | 0 <= k < |r| :: r[k].id <= bound
  {
    var n := |es| - 1;
    if es != [] && es[n].id > x.id {
      InsertSorts(es[..n], x, es[n].id);
    }
  }

  lemma {:induction false} StableSortSorts(es: seq<Element>)
    ensures SortedById(StableSort(es)) && multiset(StableSort(es)) == multiset(es)
  {
    if es != [] {
      var n := |es| - 1;
      StableSortSorts(es[..n]);
      InsertSorts(StableSort(es[..n]), es[n], 255);
    }
  }

  lemma OfIdSnoc(es: seq<Element>, x: Element, id: byte)
    ensures OfId(es + [x], id) == OfId(es, id) + if x.id == id then [x] else []
  {
    assert (es + [x])[..|es|] == es;
  }

  lemma {:induction false} InsertKeepsOrder(es: seq<Element>, x: Element, id: byte)
    ensures OfId(Insert(es, x), id) == OfId(es + [x], id)
  {
    hide OfId;
    var n := |es| - 1;
    if es != [] && es[n].id > x.id {
      InsertKeepsOrder(es[..n], x, id);
      OfIdSnoc(Insert(es[..n], x), es[n], id);
      OfIdSnoc(es[..n], x, id);
      OfIdSnoc(es, x, id);
      OfIdSnoc(es[..n], es[n], id);
      assert es == es[..n] + [es[n]];
    }
  }

  lemma {:induction false} StableSortKeepsOrder(es: seq<Element>, id: byte)
    ensures OfId(StableSort(es), id) == OfId(es, id)
  {
    if es != [] {
      var n := |es| - 1;
      StableSortKeepsOrder(es[..n], id);
      InsertKeepsOrder(StableSort(es[..n]), es[n], id);
      OfIdSnoc(StableSort(es[..n]), es[n], id);
    }
  }

  lemma {:induction false} OfIdNonEmpty(es: seq<Element>, k: nat)
    requires k < |es|
    ensures es[k] in OfId(es, es[k].id)
  {
    var n := |es| - 1;
    if k < n {
      OfIdNonEmpty(es[..n], k);
    }
  }

  lemma {:induction false} OfIdFrom(es: seq<Element>, id: byte, x: Element)
    requires x in OfId(es, id)
    ensures x in es && x.id == id
  {
    if es != [] {
      var n := |es| - 1;
      if x in OfId(es[..n], id) {
        OfIdFrom(es[..n], id, x);
      }
    }
  }

  lemma LastIsGreatest(a: seq<Element>, b: seq<Element>)
    requires SortedById(a) && a != [] && b != []
    requires var id := b[|b| - 1].id; OfId(a, id) == OfId(b, id)
    ensures b[|b| - 1].id <= a[|a| - 1].id
  {
    hide OfId;
    var n := |b| - 1;
    OfIdNonEmpty(b, n);
    OfIdFrom(a, b[n].id, b[n]);
    var k :| 0 <= k < |a| && a[k] == b[n];
    assert k < |a| - 1 ==> a[k].id <= a[|a| - 1].id;
  }

  lemma SameEnds(u: seq<Element>, x: Element, v: seq<Element>, y: Element)
    requires u + [x] == v + [y]
    ensures u == v && x == y
  {
    assert (u + [x])[..|u|] == u && (v + [y])[..|v|] == v;
    assert (u + [x])[|u|] == x && (v + [y])[|v|] == y;
  }

  lemma OfIdLast(es: seq<Element>, id: byte)
    requires es != []
    ensures var n := |es| - 1;
            OfId(es, id) == if es[n].id == id then OfId(es[..n], id) + [es[n]] else OfId(es[..n], id)
  {
  }

  lemma WithoutLast(a: seq<Element>, b: seq<Element>, id: byte)
    requires a != [] && b != [] && a[|a| - 1].id == b[|b| - 1].id
    requires OfId(a, id) == OfId(b, id)
    ensures OfId(a[..|a| - 1], id) == OfId(b[..|b| - 1], id)
    ensures a[|a| - 1].id == id ==> a[|a| - 1] == b[|b| - 1]
  {
    hide OfId;
    OfIdLast(a, id);
    OfIdLast(b, id);
    if a[|a| - 1].id == id {
      SameEnds(OfId(a[..|a| - 1], id), a[|a| - 1], OfId(b[..|b| - 1], id), b[|b| - 1]);
    }
  }

  /** Being sorted and keeping each id's elements in order determines the result completely. */
  lemma {:induction false} StableSortIsUnique(a: seq<Element>, b: seq<Element>)
    requires SortedById(a) && SortedById(b) && forall id: byte :: OfId(a, id) == OfId(b, id)
    ensures a == b
  {
    hide OfId;
    if a == [] {
      if b != [] {
        OfIdNonEmpty(b, 0);
        OfIdFrom(a, b[0].id, b[0]);
        assert false;
      }
    } else if b == [] {
      OfIdNonEmpty(a, 0);
      OfIdFrom(b, a[0].id, a[0]);
      assert false;
    } else {
      var m, n := |a| - 1, |b| - 1;
      LastIsGreatest(a, b);
      LastIsGreatest(b, a);
      forall id: byte
        ensures OfId(a[..m], id) == OfId(b[..n], id)
      {
        assert OfId(a, id) == OfId(b, id);
        WithoutLast(a, b, id);
      }
      WithoutLast(a, b, a[m].id);
      StableSortIsUnique(a[..m], b[..n]);
      assert a == a[..m] + [a[m]] && b == b[..n] + [b[n]];
    }
  }

  // ----- the store itself ------------------------------------------------------------

  class CommonFm {
    var priority: byte
    var satellites: byte
    var inputsNo: seq<bool>
    var inputs: seq<bool>
    var analogNo: seq<byte>
    var analogInputs: seq<int>
    var rssi: Option<byte>
    var profile: Option<byte>
    var move: Option<bool>
    var gpsSpeed: Option<nat>
    var extPower: Option<int>
    var batPower: Option<int>
    var batCurrent: Option<int>
    var gpsPower: Option<int>
    var accelerometer: Option<nat>
    var pcbTemperature: Option<int>
    var fuel: Option<nat>
    var odometer: Option<nat>
    var temperatureNo: seq<byte>
    var temperature: seq<int>
    var ibutton: Option<seq<byte>>
    var zonesNo: seq<byte>
    var zones: seq<bool>
    var id1: seq<byte>
    var data1: seq<byte>
    var id2: seq<byte>
    var data2: seq<byte>
    var id4: seq<byte>
    var data4: seq<byte>
    var id8: seq<byte>
    var data8: seq<byte>

    constructor ()
      ensures Value() == Empty()
    {
      priority := Empty().priority;
      satellites := Empty().satellites;
      inputsNo := Empty().inputsNo;
      inputs := Empty().inputs;
      analogNo := Empty().analogNo;
      analogInputs := Empty().analogInputs;
      rssi := Empty().rssi;
      profile := Empty().profile;
      move := Empty().move;
      gpsSpeed := Empty().gpsSpeed;
      extPower := Empty().extPower;
      batPower := Empty().batPower;
      batCurrent := Empty().batCurrent;
      gpsPower := Empty().gpsPower;
      accelerometer := Empty().accelerometer;
      pcbTemperature := Empty().pcbTemperature;
      fuel := Empty().fuel;
      odometer := Empty().odometer;
      temperatureNo := Empty().temperatureNo;
      temperature := Empty().temperature;
      ibutton := Empty().ibutton;
      zonesNo := Empty().zonesNo;
      zones := Empty().zones;
      id1 := Empty().id1;
      data1 := Empty().data1;
      id2 := Empty().id2;
      data2 := Empty().data2;
      id4 := Empty().id4;
      data4 := Empty().data4;
      id8 := Empty().id8;
      data8 := Empty().data8;
    }

    function Value(): Events
      reads this
    {
      Events(
        priority, satellites, inputsNo, inputs, analogNo, analogInputs, rssi, profile, move,
        gpsSpeed, extPower, batPower, batCurrent, gpsPower, accelerometer, pcbTemperature, fuel,
        odometer, temperatureNo, temperature, ibutton, zonesNo, zones, id1, data1, id2, data2, id4,
        data4, id8, data8)
    }

    method Add1(id: byte, d: seq<byte>)
      requires Value().Valid() && |d| == 1
      modifies this
      ensures Value() == old(Value()).Add1(id, d)
    {
      hide Pairs;
      id1 := id1 + [id];
      data1 := data1 + d;
    }

    method Add2(id: byte, d: seq<byte>)
      requires Value().Valid() && |d| == 2
      modifies this
      ensures Value() == old(Value()).Add2(id, d)
    {
      hide Pairs;
      id2 := id2 + [id];
      data2 := data2 + d;
    }

    method Add4(id: byte, d: seq<byte>)
      requires Value().Valid() && |d| == 4
      modifies this
      ensures Value() == old(Value()).Add4(id, d)
    {
      hide Pairs;
      id4 := id4 + [id];
      data4 := data4 + d;
    }

    method Add8(id: byte, d: seq<byte>)
      requires Value().Valid() && |d| == 8
      modifies this
      ensures Value() == old(Value()).Add8(id, d)
    {
      hide Pairs;
      id8 := id8 + [id];
      data8 := data8 + d;
    }

    method SetInput(index: nat, active: bool)
      requires Value().Valid()
      modifies this
      ensures Value() == old(Value()).SetInput(index, active)
    {
      if index < 8 {
        inputs := inputs[index := active];
        inputsNo := inputsNo[index := true];
      }
    }

    method AddZone(index: byte, inside: bool)
      requires Value().Valid()
      modifies this
      ensures Value() == old(Value()).AddZone(index, inside)
    {
      zonesNo := zonesNo + [index];
      zones := zones + [inside];
    }

    method AddAnalogInput(index: byte, val: int)
      requires Value().Valid()
      modifies this
      ensures Value() == old(Value()).AddAnalogInput(index, val)
    {
      analogNo := analogNo + [index];
      analogInputs := analogInputs + [val];
    }

    method AddTemperature(index: byte, val: int)
      requires Value().Valid()
      modifies this
      ensures Value() == old(Value()).AddTemperature(index, val)
    {
      temperatureNo := temperatureNo + [index];
      temperature := temperature + [val];
    }

    /** One of the four collecting loops of order_data_elements. */
    static method Collect(vals: seq<Element>, ids: seq<byte>, data: seq<byte>, width: nat) returns (r: seq<Element>)
      requires |data| == width * |ids|
      ensures r == vals + Pairs(ids, data, width)
    {
      hide Pairs;
      r := vals;
      var i, at := 0, 0;
      assert vals + Pairs([], [], width) == vals by {
        NoPairs(width);
      }
      assert ids[..0] == [] && data[..0] == [];
      while i < |ids|
        invariant i <= |ids| && at == width * i && at <= |data|
        invariant r == vals + Pairs(ids[..i], data[..at], width)
      {
        OnePairMore(ids, data, width, i, at);
        var d := data[at..at + width];
        Regroup(vals, Pairs(ids[..i], data[..at], width), [Element(ids[i], d)]);
        r := r + [Element(ids[i], d)];
        i, at := i + 1, at + width;
      }
      assert ids[..i] == ids && data[..at] == data;
    }

    static lemma NoPairs(width: nat)
      ensures Pairs([], [], width) == []
    {
    }

    static lemma OnePairMore(ids: seq<byte>, data: seq<byte>, width: nat, i: nat, at: nat)
      requires |data| == width * |ids| && i < |ids| && at == width * i
      ensures at + width == width * (i + 1) && at + width <= |data|
      ensures Pairs(ids[..i + 1], data[..at + width], width) ==
              Pairs(ids[..i], data[..at], width) + [Element(ids[i], data[at..at + width])]
    {
      hide Pairs;
      OneMore(|ids|, width, i);
      var d := data[at..at + width];
      PairsAppend(ids[..i], data[..at], width, ids[i], d);
      assert ids[..i] + [ids[i]] == ids[..i + 1] && data[..at] + d == data[..at + width];
    }

    static lemma OneMore(count: nat, width: nat, i: nat)
      requires i < count
      ensures width * i + width == width * (i + 1) <= width * count
    {
    }

    /** A permutation of everything stored, sorted by id; elements with the same id stay in the
        order of their widths and, within a width, of their arrival. */
    method OrderDataElements() returns (vals: seq<Element>)
      requires Value().Valid()
      ensures multiset(vals) == multiset(Value().Stored())
      ensures SortedById(vals)
      ensures forall id: byte :: OfId(vals, id) == OfId(Value().Stored(), id)
    {
      vals := [];
      vals := Collect(vals, id1, data1, 1);
      vals := Collect(vals, id2, data2, 2);
      vals := Collect(vals, id4, data4, 4);
      vals := Collect(vals, id8, data8, 8);
      assert vals == Value().Stored();
      StableSortSorts(vals);
      forall id: byte
        ensures OfId(StableSort(vals), id) == OfId(vals, id)
      {
        StableSortKeepsOrder(vals, id);
      }
      vals := StableSort(vals);
    }
  }
}
