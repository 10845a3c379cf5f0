/** Codec 7 records as the tracker knows them: every value is written with its own width, and comes
    back by itself. */
module Codec7Values {
  import opened Bytes
  import opened Division
  import opened ElementStore
  import opened Records
  import opened Codec7
  import CountedFrame
  import TcpStream

  /** The position part. Coordinates are the 32-bit patterns of their floats, latitude first; a cell
      is its location and its id. */
  datatype Place = Place(
    position: Option<(nat, nat)>, height: Option<int>, course: Option<byte>, speed: Option<byte>,
    satellites: Option<byte>, cell: Option<(nat, nat)>, rssi: Option<byte>, network: Option<nat>)
  {
    predicate Legal() {
      && (position.Some? ==> position.value.0 < 0x1_0000_0000 && position.value.1 < 0x1_0000_0000)
      && (height.Some? ==> InRange(height.value, 0x1_0000))
      && (cell.Some? ==> cell.value.0 < 0x1_0000 && cell.value.1 < 0x1_0000)
      && (network.Some? ==> network.value < 0x1_0000_0000)
    }

    /** The fields as they are written, in the order of the bits of the position mask. */
    function Fields(): (fields: seq<Option<seq<byte>>>)
      requires Legal()
      ensures |fields| == 8
    {
      [if position.Some? then Some(ToBE(position.value.0, 4) + ToBE(position.value.1, 4)) else None,
       if height.Some? then Some(ToBE(Pattern(height.value, 0x1_0000), 2)) else None,
       if course.Some? then Some([course.value]) else None,
       if speed.Some? then Some([speed.value]) else None,
       if satellites.Some? then Some([satellites.value]) else None,
       if cell.Some? then Some(ToBE(cell.value.0, 2) + ToBE(cell.value.1, 2)) else None,
       if rssi.Some? then Some([rssi.value]) else None,
       if network.Some? then Some(ToBE(network.value, 4)) else None]
    }
  }

  const NO_FIELDS: seq<Option<seq<byte>>> := [None, None, None, None, None, None, None, None]

  /** A record; bits 0 to 3 of its mask announce its parts, the others are spare. */
  datatype Report = Report(priority: nat, since2007: nat, spare: nat, place: Option<Place>,
                           one: Option<seq<Element>>, two: Option<seq<Element>>, four: Option<seq<Element>>)
  {
    ghost predicate Legal() {
      && priority < 4 && since2007 < 0x4000_0000 && spare < 16
      && (place.Some? ==> place.value.Legal())
      && LegalList(Listed(one), 1) && LegalList(Listed(two), 2) && LegalList(Listed(four), 4)
    }

    function Mask(): (mask: byte)
      requires spare < 16
    {
      Flag(place.Some?) + 2 * Flag(one.Some?) + 4 * Flag(two.Some?) + 8 * Flag(four.Some?) + 16 * spare
    }

    function AsSent(): Sent
      requires Legal()
    {
      Sent(priority, since2007, Mask(), if place.Some? then place.value.Fields() else NO_FIELDS,
           Listed(one), Listed(two), Listed(four))
    }
  }

  function Flag(on: bool): nat {
    if on then 1 else 0
  }

  function Listed(es: Option<seq<Element>>): seq<Element> {
    if es.Some? then es.value else []
  }

  // ----- the record received ------------------------------------------------------------------

  function PlaceError(p: Place): FixError {
    if p.satellites.Some? && p.satellites.value < 3 then NoFix else GpsFix
  }

  /** What the receiver knows after a record, value by value; what was not sent is absent. */
  function Received(r: Report): Record {
    var p := if r.place.Some? then r.place.value else Place(None, None, None, None, None, None, None, None);
    var one, two, four := Listed(r.one), Listed(r.two), Listed(r.four);
    Record(r.priority, if r.place.Some? then Some(r.since2007 + 1167609600) else None,
           if r.place.Some? then Some(PlaceError(p)) else None,
           p.position, p.height, p.course, p.speed, p.satellites,
           if p.cell.Some? then Some(p.cell.value.0) else None,
           if p.cell.Some? then Some(p.cell.value.1) else None, p.rssi, p.network,
           Known(Last(one, 1), FirstByte), Known(Last(one, 2), NonZero),
           Known(Last(two, 20), FromBE), Known(Last(two, 21), FromBE), Known(Last(two, 22), FromBE),
           Known(Last(four, 5), FromBE))
  }

  lemma Powers()
    ensures Pow256(2) == 0x1_0000 && Pow256(4) == 0x1_0000_0000
  {
  }

  lemma FieldsAreLegal(p: Place)
    requires p.Legal()
    ensures LegalFields(p.Fields())
  {
    hide ToBE, Pattern;
  }

  lemma PositionReadsBack(p: Place)
    requires p.Legal()
    ensures var f := p.Fields()[0];
            && (f.Some? <==> p.position.Some?)
            && (f.Some? ==> |f.value| == 8 && (FromBE(f.value[..4]), FromBE(f.value[4..])) == p.position.value)
  {
    hide ToBE, FromBE, Pow256;
    Powers();
    if p.position.Some? {
      var (lat, lon) := p.position.value;
      ToThenFromBE(lat, 4);
      ToThenFromBE(lon, 4);
      var s := ToBE(lat, 4) + ToBE(lon, 4);
      assert s[..4] == ToBE(lat, 4) && s[4..] == ToBE(lon, 4);
    }
  }

  lemma CellReadsBack(p: Place)
    requires p.Legal()
    ensures var f := p.Fields()[5];
            && (f.Some? <==> p.cell.Some?)
            && (f.Some? ==> |f.value| == 4 && (FromBE(f.value[..2]), FromBE(f.value[2..])) == p.cell.value)
  {
    hide ToBE, FromBE, Pow256;
    Powers();
    if p.cell.Some? {
      var (location, id) := p.cell.value;
      ToThenFromBE(location, 2);
      ToThenFromBE(id, 2);
      var s := ToBE(location, 2) + ToBE(id, 2);
      assert s[..2] == ToBE(location, 2) && s[2..] == ToBE(id, 2);
    }
  }

  lemma NumbersReadBack(p: Place)
    requires p.Legal()
    ensures var fs := p.Fields();
            && (fs[1].Some? <==> p.height.Some?)
            && (fs[1].Some? ==> Signed(FromBE(fs[1].value), 0x1_0000) == p.height.value)
            && (fs[7].Some? <==> p.network.Some?)
            && (fs[7].Some? ==> FromBE(fs[7].value) == p.network.value)
  {
    hide ToBE, FromBE, Pow256, Signed;
    Powers();
    if p.height.Some? {
      ToThenFromBE(Pattern(p.height.value, 0x1_0000), 2);
    }
    if p.network.Some? {
      ToThenFromBE(p.network.value, 4);
    }
  }

  /** The position part of a record, read into a blank one. */
  lemma PlaceReadsBack(p: Place, rec: Record)
    requires p.Legal() && rec.error == Some(GpsFix)
    ensures LegalFields(p.Fields())
    ensures StoreFields(p.Fields(), 0, rec) ==
            rec.(position := if p.position.Some? then p.position else rec.position,
                 height := if p.height.Some? then p.height else rec.height,
                 course := if p.course.Some? then p.course else rec.course,
                 speed := if p.speed.Some? then p.speed else rec.speed,
                 satellites := if p.satellites.Some? then p.satellites else rec.satellites,
                 error := Some(PlaceError(p)),
                 location := if p.cell.Some? then Some(p.cell.value.0) else rec.location,
                 cellId := if p.cell.Some? then Some(p.cell.value.1) else rec.cellId,
                 rssi := if p.rssi.Some? then p.rssi else rec.rssi,
                 network := if p.network.Some? then p.network else rec.network)
  {
    FieldsAreLegal(p);
    FieldsInClosedForm(p.Fields(), rec);
    PositionReadsBack(p);
    CellReadsBack(p);
    NumbersReadBack(p);
    hide ToBE, FromBE, StoreFields, Pattern, Signed;
  }

  // ----- the mask ---------------------------------------------------------------------------------

  lemma MaskAnnounces(r: Report)
    requires r.spare < 16
    ensures var bits := BitsOf(r.Mask());
            && bits[0] == r.place.Some? && bits[1] == r.one.Some? && bits[2] == r.two.Some? && bits[3] == r.four.Some?
  {
    BitsAre(r.Mask());
    hide BitsOf, Flag;
    Parts(r.Mask(), r.place.Some?, r.one.Some?, r.two.Some?, r.four.Some?, r.spare);
  }

  lemma Parts(m: nat, a: bool, b: bool, c: bool, d: bool, spare: nat)
    requires m == Flag(a) + 2 * Flag(b) + 4 * Flag(c) + 8 * Flag(d) + 16 * spare
    ensures (m % 2 == 1) == a && (m / 2 % 2 == 1) == b && (m / 4 % 2 == 1) == c && (m / 8 % 2 == 1) == d
  {
    hide Flag;
    var v3 := Flag(d) + 2 * spare;
    var v2 := Flag(c) + 2 * v3;
    var v1 := Flag(b) + 2 * v2;
    Quarters(m);
    FlagIs(a);
    FlagIs(b);
    FlagIs(c);
    FlagIs(d);
    HalfIs(m, Flag(a), v1);
    HalfIs(v1, Flag(b), v2);
    HalfIs(v2, Flag(c), v3);
    HalfIs(v3, Flag(d), spare);
  }

  lemma FlagIs(on: bool)
    ensures Flag(on) < 2 && (Flag(on) == 1) == on
  {
  }

  lemma ReportIsLegal(r: Report)
    requires r.Legal()
    ensures r.AsSent().Legal()
  {
    MaskAnnounces(r);
    hide BitsOf;
    if r.place.Some? {
      FieldsAreLegal(r.place.value);
    }
  }

  // ----- the whole record ---------------------------------------------------------------------------

  lemma LocatedIs(r: Report)
    requires r.Legal() && r.AsSent().Legal()
    ensures Located(r.AsSent()) ==
            Received(r).(battery := None, usbConnected := None, hdop := None, vdop := None, pdop := None,
                         liveTime := None)
  {
    MaskAnnounces(r);
    hide BitsOf, StoreFields, Last, Place.Fields;
    if r.place.Some? {
      PlaceReadsBack(r.place.value,
                     Blank(r.priority).(error := Some(GpsFix), utcTime := Some(r.since2007 + 1167609600)));
    }
  }

  /** A record is received value by value. */
  lemma ReportReadsBack(r: Report)
    requires r.Legal() && r.AsSent().Legal()
    ensures Expected(r.AsSent()) == Received(r)
  {
    hide StoreFields, Last, Located, Params, Place.Fields, Sent.Has;
    var s := r.AsSent();
    LocatedIs(r);
    ParamsInClosedForm(1, s.one, Located(s));
    var rec1 := Params(1, s.one, Located(s));
    ParamsInClosedForm(2, s.two, rec1);
    ParamsInClosedForm(4, s.four, Params(2, s.two, rec1));
  }

  ghost predicate AllLegal(rs: seq<Report>) {
    forall i | 0 <= i < |rs| :: rs[i].Legal()
  }

  function Sents(rs: seq<Report>): (ss: seq<Sent>)
    requires AllLegal(rs)
    ensures |ss| == |rs| && forall s | s in ss :: s.Legal()
  {
    if rs == [] then []
    else
      ReportIsLegal(rs[0]);
      [rs[0].AsSent()] + Sents(rs[1..])
  }

  lemma {:induction false} ReceivedAll(rs: seq<Report>)
    requires AllLegal(rs)
    ensures ExpectedAll(Sents(rs)) == seq(|rs|, i requires 0 <= i < |rs| => Received(rs[i]))
  {
    hide Received, Expected, Report.Legal, Report.AsSent, Sent.Legal;
    if rs != [] {
      ReportIsLegal(rs[0]);
      ReportReadsBack(rs[0]);
      ReceivedAll(rs[1..]);
      assert Sents(rs)[1..] == Sents(rs[1..]);
    }
  }

  /** Any reports sent in a frame come back value by value, in order. */
  lemma ReportsReadBack(rs: seq<Report>, trailer: seq<byte>)
    requires |rs| < 256 && AllLegal(rs) && |trailer| == 4
    ensures ParseFrame(TcpStream.Wrap(Payload(Sents(rs)), trailer)).records ==
            seq(|rs|, i requires 0 <= i < |rs| => Received(rs[i]))
  {
    hide ParseFrame, TcpStream.Wrap, Payload, Received, Report.Legal, Sent.Legal;
    FrameReadsBack(Sents(rs), trailer);
    ReceivedAll(rs);
  }
}
