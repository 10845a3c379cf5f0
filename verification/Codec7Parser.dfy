/** The codec 7 parser as the tracker driver runs it. */
module Codec7Parser {
  import opened Bytes
  import opened Division
  import opened ElementStore
  import opened Records
  import C = Codec7

  /** One optional field of the position part. */
  method ReadField(ud: seq<byte>, at: nat, mi: nat, present: bool, f: C.GpsField, before: C.Record)
    returns (ok: bool, i: nat, rec: C.Record)
    requires at <= mi < |ud|
    ensures i <= mi
    ensures (if ok then Some(C.Cursor(i, rec)) else None) == C.TakeField(ud, mi, present, f, Some(C.Cursor(at, before)))
  {
    hide C.Store;
    i, rec := at, before;
    if present {
      if i + f.Width() > mi {
        return false, i, rec;
      }
      rec := C.Store(f, ud[i..i + f.Width()], rec);
      i := i + f.Width();
    }
    ok := true;
  }

  /** The position part: a mask byte and the eight optional fields it announces. */
  method ReadGps(ud: seq<byte>, at: nat, mi: nat, time: nat, before: C.Record) returns (ok: bool, i: nat, rec: C.Record)
    requires at <= mi < |ud|
    ensures i <= mi
    ensures (if ok then Some(C.Cursor(i, rec)) else None) == C.TakeGps(ud, mi, true, time, Some(C.Cursor(at, before)))
  {
    hide C.TakeField, C.TakeFields, BitsOf;
    i, rec := at, before.(error := Some(GpsFix), utcTime := Some(time));
    if i + 1 > mi {
      return false, i, rec;
    }
    var mask := BitsOf(ud[i]);
    i := i + 1;
    FieldsEnd(ud, mi, mask);
    ok, i, rec := ReadMovement(ud, i, mi, mask, rec);
    if !ok { return; }
    ok, i, rec := ReadReception(ud, i, mi, mask, rec);
  }

  /** Position, height, course and speed. */
  method ReadMovement(ud: seq<byte>, at: nat, mi: nat, mask: seq<bool>, before: C.Record)
    returns (ok: bool, i: nat, rec: C.Record)
    requires at <= mi < |ud| && |mask| == 8
    ensures i <= mi
    ensures C.TakeFields(ud, mi, mask, 0, Some(C.Cursor(at, before))) ==
            if ok then C.TakeFields(ud, mi, mask, 4, Some(C.Cursor(i, rec))) else None
  {
    assert C.ORDER[0] == C.LatLon && C.ORDER[1] == C.Alt && C.ORDER[2] == C.Angle && C.ORDER[3] == C.Speed;
    hide C.TakeField, C.TakeFields, C.ORDER;
    i, rec := at, before;
    ok, i, rec := ReadField(ud, i, mi, mask[0], C.LatLon, rec);
    if !ok { return; }
    ok, i, rec := ReadField(ud, i, mi, mask[1], C.Alt, rec);
    if !ok { return; }
    ok, i, rec := ReadField(ud, i, mi, mask[2], C.Angle, rec);
    if !ok { return; }
    ok, i, rec := ReadField(ud, i, mi, mask[3], C.Speed, rec);
  }

  /** Satellites, cell, signal quality and operator. */
  method ReadReception(ud: seq<byte>, at: nat, mi: nat, mask: seq<bool>, before: C.Record)
    returns (ok: bool, i: nat, rec: C.Record)
    requires at <= mi < |ud| && |mask| == 8
    ensures i <= mi
    ensures C.TakeFields(ud, mi, mask, 4, Some(C.Cursor(at, before))) ==
            if ok then C.TakeFields(ud, mi, mask, 8, Some(C.Cursor(i, rec))) else None
  {
    assert C.ORDER[4] == C.Sat && C.ORDER[5] == C.LocCell;
    assert C.ORDER[6] == C.SignalQuality && C.ORDER[7] == C.OperatorCode;
    hide C.TakeField, C.TakeFields, C.ORDER;
    i, rec := at, before;
    ok, i, rec := ReadField(ud, i, mi, mask[4], C.Sat, rec);
    if !ok { return; }
    ok, i, rec := ReadField(ud, i, mi, mask[5], C.LocCell, rec);
    if !ok { return; }
    ok, i, rec := ReadField(ud, i, mi, mask[6], C.SignalQuality, rec);
    if !ok { return; }
    ok, i, rec := ReadField(ud, i, mi, mask[7], C.OperatorCode, rec);
  }

  lemma FieldsEnd(ud: seq<byte>, mi: nat, mask: seq<bool>)
    requires mi < |ud| && |mask| == 8
    ensures forall c: C.Cursor | c.i <= mi :: C.TakeFields(ud, mi, mask, 8, Some(c)) == Some(c)
  {
  }

  /** A counted parameter list. */
  method ReadParams(ud: seq<byte>, at: nat, mi: nat, width: nat, before: C.Record)
    returns (ok: bool, i: nat, rec: C.Record)
    requires at <= mi < |ud|
    ensures i <= mi && (ok ==> i == at + 1 + ud[at] * (width + 1))
    ensures (if ok then Some(C.Cursor(i, rec)) else None) ==
            C.TakeParams(ud, mi, true, width, Some(C.Cursor(at, before)))
  {
    hide C.Param, C.Params, ElementsAt;
    i, rec := at, before;
    if i + 1 > mi {
      return false, i, rec;
    }
    var q := ud[i];
    SpanIsProduct(q, width);
    if i + 1 + q * (width + 1) > mi {
      return false, i, rec;
    }
    i := i + 1;
    ghost var start := i;
    var left := q;
    while left > 0
      invariant 0 <= left <= q && i + Span(left, width) == start + Span(q, width)
      invariant C.Params(width, ElementsAt(ud, i, left, width), rec) ==
                C.Params(width, ElementsAt(ud, start, q, width), before)
    {
      ParamNext(ud, i, left, width, rec);
      rec := C.Param(width, Element(ud[i], ud[i + 1..i + 1 + width]), rec);
      i, left := i + 1 + width, left - 1;
    }
    ParamsEnd(ud, i, width, rec);
    ok := true;
  }

  lemma ParamNext(ud: seq<byte>, i: nat, left: nat, width: nat, rec: C.Record)
    requires left > 0 && i + Span(left, width) <= |ud|
    ensures i + 1 + width + Span(left - 1, width) <= |ud|
    ensures C.Params(width, ElementsAt(ud, i, left, width), rec) ==
            C.Params(width, ElementsAt(ud, i + 1 + width, left - 1, width),
                     C.Param(width, Element(ud[i], ud[i + 1..i + 1 + width]), rec))
  {
    hide C.Param;
  }

  lemma ParamsEnd(ud: seq<byte>, i: nat, width: nat, rec: C.Record)
    requires i <= |ud|
    ensures C.Params(width, ElementsAt(ud, i, 0, width), rec) == rec
  {
  }

  method ParseFix(ud: seq<byte>) returns (records: seq<C.Record>)
    ensures records == C.ParseFrame(ud).records
  {
    hide C.ParseRecord;
    records := [];
    if |ud| < 20 || ud[0..4] != [0, 0, 0, 0] || ud[8] != 7 {
      return;
    }
    var recCount := ud[9];
    var i: nat := 10;
    var mi := |ud| - 5;
    var r := 0;
    while r < recCount && i < mi
      invariant r <= recCount
      invariant C.RecordsFrom(ud, 10, mi, recCount).records == records + C.RecordsFrom(ud, i, mi, recCount - r).records
    {
      var ok, i', rec := ReadRecord(ud, i, mi);
      if !ok {
        break;
      }
      records := records + [rec];
      i, r := i', r + 1;
    }
  }

  /** One pass of the loop in parse_fix, up to where the record is kept. */
  method ReadRecord(ud: seq<byte>, at: nat, mi: nat) returns (ok: bool, i: nat, rec: C.Record)
    requires at < mi < |ud|
    ensures (if ok then Some(C.Cursor(i, rec)) else None) == C.ParseRecord(ud, at, mi)
  {
    hide C.TakeGps, C.TakeParams, BitsOf, FromBE;
    i, rec := at, C.Blank(0);
    if i + 4 > mi {
      return false, i, rec;
    }
    var fixTime := Field(ud, i, 4);
    rec := C.Blank(fixTime / 0x4000_0000);
    fixTime := fixTime % 0x4000_0000 + C.EPOCH_2007;
    i := i + 4;
    if i + 1 > mi {
      return false, i, rec;
    }
    var globalMask := BitsOf(ud[i]);
    i := i + 1;
    PartsStop(ud, mi);
    if globalMask[0] {
      ok, i, rec := ReadGps(ud, i, mi, fixTime, rec);
      if !ok { return; }
    }
    if globalMask[1] {
      ok, i, rec := ReadParams(ud, i, mi, 1, rec);
      if !ok { return; }
    }
    if globalMask[2] {
      ok, i, rec := ReadParams(ud, i, mi, 2, rec);
      if !ok { return; }
    }
    if globalMask[3] {
      ok, i, rec := ReadParams(ud, i, mi, 4, rec);
      if !ok { return; }
    }
    ok := true;
  }

  /** A part that is not announced changes nothing, and nothing follows a failed part. */
  lemma PartsStop(ud: seq<byte>, mi: nat)
    requires mi < |ud|
    ensures forall time: nat, c: C.Cursor | c.i <= mi :: C.TakeGps(ud, mi, false, time, Some(c)) == Some(c)
    ensures forall width: nat, c: C.Cursor | c.i <= mi :: C.TakeParams(ud, mi, false, width, Some(c)) == Some(c)
    ensures forall present, width: nat :: C.TakeParams(ud, mi, present, width, None) == None
  {
    hide C.TakeFields, C.Params;
  }
}
