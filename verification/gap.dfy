/**
  The GAP record walk of an LE Advertising Report: from offset 10, while the
  cursor is before the final (RSSI) byte, read a length byte and a type
  byte, take the payload with Python's clamping slice, dispatch on the type
  and advance by `length + 1`.

  Type tags are the Bluetooth assigned numbers bleson names GAP_FLAGS (0x01),
  GAP_NAME_COMPLETE (0x09), GAP_SERVICE_DATA (0x16, Service Data with a
  16-bit UUID) and GAP_MFG_DATA (0xFF, Manufacturer Specific Data).
 */
module Gap {
  import opened Options
  import opened Bytes

  const GapFlags: byte := 0x01
  const GapNameComplete: byte := 0x09
  const GapServiceData: byte := 0x16
  const GapMfgData: byte := 0xFF

  /** Offset of the first GAP record in the report. */
  const GapStart: nat := 10
  /** Flags value assumed when the advertisement carries no Flags record. */
  const DefaultFlags: int := 6

  /**
    What the walk extracts. `mfgData` stays None until a Service Data or
    Manufacturer Data record is seen (the source's `hasattr(self, "mfg_data")`).
   */
  datatype GapFields = GapFields(flags: int, name: Option<string>, mfgData: Option<seq<byte>>)

  /** The walk's outcome; `aborted` is the ValueError/IndexError a malformed record raised. */
  datatype ScanResult = ScanResult(fields: GapFields, aborted: bool)

  /** One record as the walk sees it: header offset, length and type bytes, clamped payload. */
  datatype GapRecord = GapRecord(offset: nat, length: byte, kind: byte, payload: seq<byte>)

  predicate IsDataKind(kind: byte) {
    kind == GapServiceData || kind == GapMfgData
  }

  predicate IsAscii(bs: seq<byte>) {
    forall i :: 0 <= i < |bs| ==> bs[i] < 128
  }

  /** `payload.decode("ascii")`. */
  function AsciiDecode(bs: seq<byte>): (s: string)
    requires IsAscii(bs)
    ensures |s| == |bs|
    ensures forall i :: 0 <= i < |bs| ==> s[i] as int == bs[i]
  {
    seq(|bs|, i requires 0 <= i < |bs| => bs[i] as char)
  }

  /**
    The records whose handling raises: a Flags record with an empty payload
    (`payload[0]` raises IndexError) and a name that is not ASCII (`decode`
    raises UnicodeDecodeError, a ValueError).
   */
  predicate Malformed(kind: byte, payload: seq<byte>) {
    || (kind == GapFlags && |payload| == 0)
    || (kind == GapNameComplete && !IsAscii(payload))
  }

  /** The effect of one record on the extracted fields; None is the exception it raises. */
  function ApplyRecord(f: GapFields, kind: byte, payload: seq<byte>): (r: Option<GapFields>)
    ensures r.None? <==> Malformed(kind, payload)
    ensures r.Some? && kind == GapFlags ==> r.value.flags == payload[0]
    ensures r.Some? && kind != GapFlags ==> r.value.flags == f.flags
    ensures r.Some? && IsDataKind(kind) ==> r.value.mfgData == Some(payload)
    ensures r.Some? && !IsDataKind(kind) ==> r.value.mfgData == f.mfgData
    ensures r.Some? && kind != GapNameComplete ==> r.value.name == f.name
  {
    if kind == GapFlags then
      if |payload| == 0 then None else Some(f.(flags := payload[0]))
    else if kind == GapNameComplete then
      if !IsAscii(payload) then None else Some(f.(name := Some(AsciiDecode(payload))))
    else if kind == GapServiceData then
      Some(f.(mfgData := Some(payload)))
    else if kind == GapMfgData then
      Some(f.(mfgData := Some(payload)))
    else
      Some(f)
  }

  /** `data[pos + 2 : pos + 2 + length - 1]`, clamped as Python clamps it. */
  function RecordPayload(data: seq<byte>, pos: nat): seq<byte>
    requires pos < |data|
  {
    Slice(data, pos + 2, pos + 1 + data[pos])
  }

  /**
    `rec` is what the walk reads at `rec.offset`: the length byte lies before
    the final byte, and the payload is the clamped slice after the type byte.
   */
  predicate ReadAt(data: seq<byte>, rec: GapRecord) {
    && rec.offset + 1 < |data|
    && rec.length == data[rec.offset]
    && rec.kind == data[rec.offset + 1]
    && rec.payload == Slice(data, rec.offset + 2, rec.offset + 1 + rec.length)
  }

  /** Every record of `rs` is read at or after `pos`. */
  predicate AllReadFrom(data: seq<byte>, pos: nat, rs: seq<GapRecord>) {
    forall i :: 0 <= i < |rs| ==> pos <= rs[i].offset && ReadAt(data, rs[i])
  }

  /** The header sequence the walk visits from `pos`, in order. */
  function Records(data: seq<byte>, pos: nat): (rs: seq<GapRecord>)
    decreases |data| - pos
    ensures |rs| == 0 <==> pos + 1 >= |data|
    ensures |rs| > 0 ==> rs[0].offset == pos && rs[0].length == data[pos]
  {
    if pos + 1 >= |data| then []
    else
      var rec := GapRecord(pos, data[pos], data[pos + 1], RecordPayload(data, pos));
      [rec] + Records(data, pos + data[pos] + 1)
  }

  /**
    Every header the walk reads has its length byte before the final (RSSI)
    byte; the type byte may be the final byte, and the payload is the clamped
    slice after it, so nothing is read beyond the buffer.
   */
  lemma {:induction false} RecordsReadInBounds(data: seq<byte>, pos: nat)
    ensures AllReadFrom(data, pos, Records(data, pos))
    decreases |data| - pos
  {
    var rs := Records(data, pos);
    if |rs| > 0 {
      var next := pos + data[pos] + 1;
      assert rs[1..] == Records(data, next);
      RecordsReadInBounds(data, next);
      forall i | 0 <= i < |rs|
        ensures pos <= rs[i].offset && ReadAt(data, rs[i])
      {
        if i > 0 {
          assert rs[i] == rs[1..][i - 1];
        }
      }
    }
  }

  /**
    Consecutive headers are `length + 1` bytes apart, and the walk stops only
    once the next header would start at or after the final byte.
   */
  lemma {:induction false} RecordsChained(data: seq<byte>, pos: nat)
    ensures var rs := Records(data, pos);
      forall i :: 0 <= i < |rs| - 1 ==> rs[i + 1].offset == rs[i].offset + rs[i].length + 1
    ensures var rs := Records(data, pos);
      |rs| > 0 ==> rs[|rs| - 1].offset + rs[|rs| - 1].length + 2 >= |data|
    decreases |data| - pos
  {
    var rs := Records(data, pos);
    if |rs| > 0 {
      var rest := rs[1..];
      assert rest == Records(data, pos + data[pos] + 1);
      RecordsChained(data, pos + data[pos] + 1);
      forall i | 0 <= i < |rs| - 1
        ensures rs[i + 1].offset == rs[i].offset + rs[i].length + 1
      {
        if i > 0 {
          assert rs[i] == rest[i - 1] && rs[i + 1] == rest[i];
        }
      }
      if |rest| > 0 {
        assert rs[|rs| - 1] == rest[|rest| - 1];
      }
    }
  }

  /** Folds the records in order, stopping at the first one that raises. */
  function ApplyAll(rs: seq<GapRecord>, f: GapFields): ScanResult {
    if |rs| == 0 then ScanResult(f, false)
    else match ApplyRecord(f, rs[0].kind, rs[0].payload)
      case None => ScanResult(f, true)
      case Some(next) => ApplyAll(rs[1..], next)
  }

  /**
    The `while pos < len(data) - 1` loop. It terminates because every step
    advances by `length + 1 >= 1`, and it computes the ordered fold of the
    records it visits.
   */
  function Scan(data: seq<byte>, pos: nat, f: GapFields): (r: ScanResult)
    decreases |data| - pos
    ensures r == ApplyAll(Records(data, pos), f)
  {
    if pos + 1 >= |data| then ScanResult(f, false)
    else
      assert Records(data, pos)[1..] == Records(data, pos + data[pos] + 1);
      match ApplyRecord(f, data[pos + 1], RecordPayload(data, pos))
      case None => ScanResult(f, true)
      case Some(next) => Scan(data, pos + data[pos] + 1, next)
  }

  /** The walk raises exactly when one of the records it visits is malformed. */
  lemma {:induction false} AbortIffMalformed(rs: seq<GapRecord>, f: GapFields)
    ensures ApplyAll(rs, f).aborted <==> exists i :: 0 <= i < |rs| && Malformed(rs[i].kind, rs[i].payload)
  {
    if |rs| > 0 {
      match ApplyRecord(f, rs[0].kind, rs[0].payload)
      case None =>
      case Some(next) =>
        AbortIffMalformed(rs[1..], next);
        assert forall i :: 1 <= i < |rs| ==> rs[i] == rs[1..][i - 1];
        if exists i :: 1 <= i < |rs| && Malformed(rs[i].kind, rs[i].payload) {
          var i :| 1 <= i < |rs| && Malformed(rs[i].kind, rs[i].payload);
          assert Malformed(rs[1..][i - 1].kind, rs[1..][i - 1].payload);
        }
    }
  }

  /** Without a Flags record, the flags keep their starting value. */
  lemma {:induction false} FlagsKeptWithoutFlagsRecord(rs: seq<GapRecord>, f: GapFields)
    requires forall i :: 0 <= i < |rs| ==> rs[i].kind != GapFlags
    ensures ApplyAll(rs, f).fields.flags == f.flags
  {
    if |rs| > 0 {
      match ApplyRecord(f, rs[0].kind, rs[0].payload)
      case None =>
      case Some(next) =>
        assert forall i :: 0 <= i < |rs| - 1 ==> rs[1..][i] == rs[i + 1];
        FlagsKeptWithoutFlagsRecord(rs[1..], next);
    }
  }

  /**
    Service Data and Manufacturer Data share one slot: after a walk that did
    not raise, it holds the payload of the last such record, or its starting
    value when there is none.
   */
  lemma {:induction false} LastDataRecordWins(rs: seq<GapRecord>, f: GapFields)
    requires !ApplyAll(rs, f).aborted
    ensures (forall i :: 0 <= i < |rs| ==> !IsDataKind(rs[i].kind)) ==>
      ApplyAll(rs, f).fields.mfgData == f.mfgData
    ensures forall j :: (0 <= j < |rs| && IsDataKind(rs[j].kind)
      && (forall k :: j < k < |rs| ==> !IsDataKind(rs[k].kind))) ==>
      ApplyAll(rs, f).fields.mfgData == Some(rs[j].payload)
  {
    if |rs| > 0 {
      var next := ApplyRecord(f, rs[0].kind, rs[0].payload).value;
      assert forall i :: 0 <= i < |rs| - 1 ==> rs[1..][i] == rs[i + 1];
      LastDataRecordWins(rs[1..], next);
      forall j | 0 <= j < |rs| && IsDataKind(rs[j].kind)
        && (forall k :: j < k < |rs| ==> !IsDataKind(rs[k].kind))
        ensures ApplyAll(rs, f).fields.mfgData == Some(rs[j].payload)
      {
        if j > 0 {
          assert rs[1..][j - 1] == rs[j];
        }
      }
    }
  }
}
