/**
  `TempHumAdvertisement`: one LE Advertising Report parsed for a device of a
  given brand. Byte 0 is the report count, byte 1 the advertising type,
  byte 2 the address type, bytes 3..8 the address in reverse octet order,
  byte 9 a length, GAP records from byte 10 on, and the last byte the RSSI.

  The source wraps the whole parse in `try ... except (ValueError,
  IndexError): pass`: a raise leaves the fields as far as they were set and
  no measurement.
 */
module Parser {
  import opened Options
  import opened Bytes
  import opened Gap
  import opened Vendor

  /**
    What the parser leaves behind. `rssi` is None only for an empty report,
    where reading the last byte raises after `mac` is set (to None) and
    before any other field;
    `reading` is the decoded measurement, present exactly when the source
    sets `packet` (and with it temperature, humidity and battery).
   */
  datatype Advertisement = Advertisement(
    mac: Option<string>,
    rssi: Option<int>,
    scan: ScanResult,
    reading: Option<Reading>)

  /** The fields before the walk: flags 6, no name, no payload. */
  const InitialFields: GapFields := GapFields(DefaultFlags, None, None)

  /** bleson's `rssi_from_byte`: the byte read as a signed 8-bit value. */
  function RssiFromByte(b: byte): (r: int)
    ensures -128 <= r < 128
    ensures r % 256 == b
    ensures r == b <==> b < 128
  {
    TwosComplement(b, 8)
  }

  predicate SomeMalformed(rs: seq<GapRecord>) {
    exists i :: 0 <= i < |rs| && Malformed(rs[i].kind, rs[i].payload)
  }

  /** The payload the selected layout is decoded from. */
  function Measurement(brand: Brand, scan: ScanResult): (r: Option<Reading>)
    ensures r.Some? <==> !scan.aborted && SelectLayout(brand, scan.fields.mfgData, scan.fields.flags).Some?
    ensures r.Some? ==> (r.value.batteryMillivolts.Some? <==> brand == Moat)
    ensures r.Some? ==> (r.value.model.Some? <==> brand == Govee)
    ensures r.Some? && r.value.packet.TextPacket? ==> |r.value.packet.text| > 0
  {
    if scan.aborted then None
    else match SelectLayout(brand, scan.fields.mfgData, scan.fields.flags)
      case None => None
      case Some(layout) => Some(DecodeLayout(layout, scan.fields.mfgData.value))
  }

  /** `parse_ble_advertisement(data, brand)`. */
  function ParseBleAdvertisement(data: seq<byte>, brand: Brand): (a: Advertisement)
    ensures a.mac == ReverseMac(Slice(data, 3, 9))
    ensures a.mac.Some? <==> |data| >= 9
    ensures a.rssi.None? <==> |data| == 0
    ensures a.rssi.Some? ==> -128 <= a.rssi.value < 128 && a.rssi.value % 256 == data[|data| - 1]
    ensures a.scan.aborted <==>
      |data| == 0 || SomeMalformed(Records(data, GapStart))
    ensures a.reading.Some? ==> !a.scan.aborted && a.scan.fields.mfgData.Some?
    ensures a.reading.Some? ==> (a.reading.value.batteryMillivolts.Some? <==> brand == Moat)
    ensures a.reading.Some? ==> (a.reading.value.model.Some? <==> brand == Govee)
    ensures a.reading.Some? && a.reading.value.packet.TextPacket? ==> |a.reading.value.packet.text| > 0
    ensures a.reading.Some? <==>
      !a.scan.aborted && SelectLayout(brand, a.scan.fields.mfgData, a.scan.fields.flags).Some?
    ensures a.reading == Measurement(brand, a.scan)
    ensures |data| > 0 ==> a.scan == Scan(data, GapStart, InitialFields)
  {
    var mac := ReverseMac(Slice(data, 3, 9));
    if |data| == 0 then
      Advertisement(mac, None, ScanResult(InitialFields, true), None)
    else
      var scan := Scan(data, GapStart, InitialFields);
      AbortIffMalformed(Records(data, GapStart), InitialFields);
      Advertisement(mac, Some(RssiFromByte(data[|data| - 1])), scan, Measurement(brand, scan))
  }

  // ---------------------------------------------------------------------
  // Building reports: the parser's partner

  /**
    A well-formed report as a sensor sends it: address `addr` (in the
    octet order the report carries), one Flags record and one Manufacturer
    Data record, then the RSSI byte.
   */
  function Report(addr: seq<byte>, flags: byte, mfg: seq<byte>, rssiByte: byte): (data: seq<byte>)
    requires |addr| == 6 && |mfg| <= 250
    ensures |data| == 16 + |mfg|
  {
    [1, 0, 0] + addr + [5 + |mfg|] + [2, GapFlags, flags] + [|mfg| + 1, GapMfgData] + mfg + [rssiByte]
  }

  /** The walk over a built report visits exactly its two records. */
  lemma ReportRecords(addr: seq<byte>, flags: byte, mfg: seq<byte>, rssiByte: byte)
    requires |addr| == 6 && |mfg| <= 250
    ensures var data := Report(addr, flags, mfg, rssiByte);
      Records(data, GapStart) == [GapRecord(10, 2, GapFlags, [flags]), GapRecord(13, |mfg| + 1, GapMfgData, mfg)]
  {
    var data := Report(addr, flags, mfg, rssiByte);
    assert data[10] == 2 && data[11] == GapFlags && data[12] == flags;
    assert data[13] == |mfg| + 1 && data[14] == GapMfgData;
    assert data[15..15 + |mfg|] == mfg;
    assert Slice(data, 12, 13) == [flags];
    assert Slice(data, 15, 15 + |mfg|) == mfg;
    assert Records(data, 15 + |mfg|) == [];
    assert Records(data, 13) == [GapRecord(13, |mfg| + 1, GapMfgData, mfg)] + Records(data, 15 + |mfg|);
  }

  /** Parsing a built report gives back its address, flags, payload and RSSI. */
  lemma ReportRoundTrip(addr: seq<byte>, flags: byte, mfg: seq<byte>, rssiByte: byte, brand: Brand)
    requires |addr| == 6 && |mfg| <= 250
    ensures var a := ParseBleAdvertisement(Report(addr, flags, mfg, rssiByte), brand);
      && a.mac == ReverseMac(addr)
      && a.rssi == Some(RssiFromByte(rssiByte))
      && a.scan == ScanResult(GapFields(flags, None, Some(mfg)), false)
  {
    var data := Report(addr, flags, mfg, rssiByte);
    assert Slice(data, 3, 9) == addr;
    assert data[|data| - 1] == rssiByte;
    ReportRecords(addr, flags, mfg, rssiByte);
    var rs := Records(data, GapStart);
    var afterFlags := GapFields(flags, None, None);
    assert ApplyRecord(InitialFields, GapFlags, [flags]) == Some(afterFlags);
    assert rs[1..] == [rs[1]];
    assert ApplyAll(rs[1..][1..], GapFields(flags, None, Some(mfg))) == ScanResult(GapFields(flags, None, Some(mfg)), false);
  }

  /** A Govee H5072/H5075 payload carrying the 24-bit value `packet` and a battery level. */
  function GoveeH5075Payload(packet: nat, battery: byte): (mfg: seq<byte>)
    requires packet < 0x1000000
    ensures |mfg| == 8
  {
    [0x88, 0xEC, 0x00, packet / 65536, (packet / 256) % 256, packet % 256, battery, 0x00]
  }

  lemma BigEndianThree(packet: nat)
    requires packet < 0x1000000
    ensures BigEndianToUnsigned([packet / 65536, (packet / 256) % 256, packet % 256]) == packet
  {
    var bs: seq<byte> := [packet / 65536, (packet / 256) % 256, packet % 256];
    assert bs[..2] == [packet / 65536, (packet / 256) % 256];
    assert bs[..2][..1] == [packet / 65536];
    assert [packet / 65536][..0] == [];
    assert BigEndianToUnsigned(bs[..2]) == 256 * (packet / 65536) + (packet / 256) % 256;
    assert 256 * (packet / 65536) + (packet / 256) % 256 == packet / 256;
  }

  /** A built Govee H5072/H5075 report, parsed for a Govee device, is decoded with that layout. */
  lemma GoveeReportLayout(addr: seq<byte>, mfg: seq<byte>, rssiByte: byte)
    requires |addr| == 6 && |mfg| == 8 && mfg[0] == 0x88 && mfg[1] == 0xEC
    ensures ParseBleAdvertisement(Report(addr, 5, mfg, rssiByte), Govee).reading
      == Some(DecodeGoveePacked(mfg, 3, "Govee H5072/H5075"))
  {
    ReportRoundTrip(addr, 5, mfg, rssiByte, Govee);
    var scan := ScanResult(GapFields(5, None, Some(mfg)), false);
    assert SelectLayout(Govee, Some(mfg), 5) == Some(GoveeH5072H5075) by {
      assert Signature(Some(mfg), 5, 8, 5, 0x88, 0xEC);
    }
    assert Measurement(Govee, scan) == Some(DecodeGoveePacked(mfg, 3, "Govee H5072/H5075"));
  }

  /**
    End to end: a Govee H5072/H5075 report of `tempTenths` and
    `humidityTenths`, parsed for a Govee device, yields that temperature
    and battery level; the humidity comes back intact only when the
    temperature is not negative, and is off by 608 tenths modulo 1000
    otherwise.
   */
  lemma GoveeReportDecodes(addr: seq<byte>, tempTenths: int, humidityTenths: nat, battery: byte, rssiByte: byte)
    requires |addr| == 6 && humidityTenths < 1000
    requires (if tempTenths < 0 then -tempTenths else tempTenths) * 1000 + humidityTenths < GoveeSignBit
    ensures var mfg := GoveeH5075Payload(GoveePack(tempTenths, humidityTenths), battery);
      var a := ParseBleAdvertisement(Report(addr, 5, mfg, rssiByte), Govee);
      && a.reading.Some?
      && a.reading.value.temperature == tempTenths as real / 10.0
      && (tempTenths >= 0 ==> a.reading.value.humidity == humidityTenths as real / 10.0)
      && (tempTenths < 0 ==> a.reading.value.humidity == ((humidityTenths + 608) % 1000) as real / 10.0)
      && a.reading.value.battery == battery
      && a.reading.value.model == Some("Govee H5072/H5075")
  {
    GoveeReportLayout(addr, GoveeH5075Payload(GoveePack(tempTenths, humidityTenths), battery), rssiByte);
    GoveePayloadDecodes(tempTenths, humidityTenths, battery);
  }

  /** The H5072/H5075 decoder on what `GoveeH5075Payload` packed, as the parser computes it. */
  lemma GoveePayloadDecodes(tempTenths: int, humidityTenths: nat, battery: byte)
    requires humidityTenths < 1000
    requires (if tempTenths < 0 then -tempTenths else tempTenths) * 1000 + humidityTenths < GoveeSignBit
    ensures var r := DecodeGoveePacked(GoveeH5075Payload(GoveePack(tempTenths, humidityTenths), battery), 3, "Govee H5072/H5075");
      && r.temperature == tempTenths as real / 10.0
      && (tempTenths >= 0 ==> r.humidity == humidityTenths as real / 10.0)
      && (tempTenths < 0 ==> r.humidity == ((humidityTenths + 608) % 1000) as real / 10.0)
      && r.battery == battery
      && r.model == Some("Govee H5072/H5075")
  {
    var packet := GoveePack(tempTenths, humidityTenths);
    var mfg := GoveeH5075Payload(packet, battery);
    assert mfg[3..6] == [packet / 65536, (packet / 256) % 256, packet % 256];
    BigEndianThree(packet);
    GoveeRoundTrip(tempTenths, humidityTenths);
    GoveeHumidityAsWrittenWrongWhenNegative(tempTenths, humidityTenths);
  }

  /** The intended decoder recovers both values `GoveeH5075Payload` packed, whatever the temperature's sign. */
  lemma GoveePayloadDecodesIntended(tempTenths: int, humidityTenths: nat, battery: byte)
    requires humidityTenths < 1000
    requires (if tempTenths < 0 then -tempTenths else tempTenths) * 1000 + humidityTenths < GoveeSignBit
    ensures var r := DecodeGoveePackedIntended(GoveeH5075Payload(GoveePack(tempTenths, humidityTenths), battery), 3, "Govee H5072/H5075");
      && r.temperature == tempTenths as real / 10.0
      && r.humidity == humidityTenths as real / 10.0
      && r.battery == battery
  {
    var packet := GoveePack(tempTenths, humidityTenths);
    var mfg := GoveeH5075Payload(packet, battery);
    assert mfg[3..6] == [packet / 65536, (packet / 256) % 256, packet % 256];
    BigEndianThree(packet);
    GoveeRoundTrip(tempTenths, humidityTenths);
  }

  /** The low and high byte of a 16-bit value. */
  function WordBytes(w: nat): (bs: seq<byte>)
    requires w < 65536
    ensures |bs| == 2 && Word16(bs[0], bs[1]) == w
  {
    [w % 256, w / 256]
  }

  /** A Moat S2 payload carrying raw temperature, raw humidity and battery millivolts. */
  function MoatS2Payload(rawTemperature: nat, rawHumidity: nat, millivolts: nat): (mfg: seq<byte>)
    requires rawTemperature < 65536 && rawHumidity < 65536 && millivolts < 65536
    ensures |mfg| == 20
  {
    [0x00, 0x10] + [0, 0, 0, 0, 0, 0, 0, 0, 0, 0]
      + WordBytes(rawTemperature) + WordBytes(rawHumidity) + WordBytes(millivolts) + [0, 0]
  }

  /** A built Moat S2 report, parsed for a Moat device, is decoded with that layout. */
  lemma MoatReportLayout(addr: seq<byte>, mfg: seq<byte>, rssiByte: byte)
    requires |addr| == 6 && |mfg| == 20 && mfg[0] == 0x00 && mfg[1] == 0x10
    ensures ParseBleAdvertisement(Report(addr, 6, mfg, rssiByte), Moat).reading == Some(DecodeMoatS2(mfg))
  {
    ReportRoundTrip(addr, 6, mfg, rssiByte, Moat);
    var scan := ScanResult(GapFields(6, None, Some(mfg)), false);
    assert SelectLayout(Moat, Some(mfg), 6) == Some(MoatS2) by {
      assert Signature(Some(mfg), 6, 20, 6, 0x00, 0x10);
    }
    assert Measurement(Moat, scan) == Some(DecodeMoatS2(mfg));
  }

  /**
    End to end: a Moat S2 report parsed for a Moat device yields the
    converted temperature and humidity, the millivolts and the battery
    percentage derived from them.
   */
  lemma MoatReportDecodes(addr: seq<byte>, rawTemperature: nat, rawHumidity: nat, millivolts: nat, rssiByte: byte)
    requires |addr| == 6
    requires rawTemperature < 65536 && rawHumidity < 65536 && millivolts < 65536
    ensures var mfg := MoatS2Payload(rawTemperature, rawHumidity, millivolts);
      var a := ParseBleAdvertisement(Report(addr, 6, mfg, rssiByte), Moat);
      && a.reading.Some?
      && a.reading.value.temperature == MoatS2Temperature(rawTemperature)
      && a.reading.value.humidity == MoatS2Humidity(rawHumidity)
      && a.reading.value.batteryMillivolts == Some(millivolts)
      && a.reading.value.battery == MoatS2BatteryPercent(millivolts)
  {
    MoatReportLayout(addr, MoatS2Payload(rawTemperature, rawHumidity, millivolts), rssiByte);
    MoatPayloadDecodes(rawTemperature, rawHumidity, millivolts);
  }

  /** The Moat S2 decoder recovers what `MoatS2Payload` packed. */
  lemma MoatPayloadDecodes(rawTemperature: nat, rawHumidity: nat, millivolts: nat)
    requires rawTemperature < 65536 && rawHumidity < 65536 && millivolts < 65536
    ensures var r := DecodeMoatS2(MoatS2Payload(rawTemperature, rawHumidity, millivolts));
      && r.temperature == MoatS2Temperature(rawTemperature)
      && r.humidity == MoatS2Humidity(rawHumidity)
      && r.batteryMillivolts == Some(millivolts)
      && r.battery == MoatS2BatteryPercent(millivolts)
  {
    var mfg := MoatS2Payload(rawTemperature, rawHumidity, millivolts);
    assert mfg[12..14] == WordBytes(rawTemperature);
    assert mfg[14..16] == WordBytes(rawHumidity);
    assert mfg[16..18] == WordBytes(millivolts);
  }
}
