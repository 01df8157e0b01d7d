/**
  Vendor layouts of the manufacturer/service payload and their decoders:
  Moat S2, Govee H5072/H5075, Govee H5101/H5102 and Govee H5074/H5051.
  A layout is recognised by the payload's exact length, the Flags value and,
  where the source checks it, the first two payload bytes rendered as hex.
 */
module Vendor {
  import opened Options
  import opened Bytes
  import opened Numbers

  /** `DeviceBrand`: which configured device list the address came from. */
  datatype Brand = Moat | Govee

  /**
    The raw packet identifier kept for diagnostics: an integer for the packed
    Govee layouts, a hex string for Moat S2 and Govee H5074/H5051.
   */
  datatype Packet = IntPacket(n: int) | TextPacket(text: string)

  datatype Layout = MoatS2 | GoveeH5072H5075 | GoveeH5101H5102 | GoveeH5074H5051

  /** What a recognised payload decodes to. */
  datatype Reading = Reading(
    packet: Packet,
    temperature: real,
    humidity: real,
    battery: int,
    batteryMillivolts: Option<int>,
    model: Option<string>)

  // ---------------------------------------------------------------------
  // Layout recognition

  /** `_mfg_data_check`: a payload is present, of exactly this length, with exactly these flags. */
  predicate MfgDataCheck(mfg: Option<seq<byte>>, flags: int, dataLength: nat, wantFlags: int) {
    mfg.Some? && |mfg.value| == dataLength && flags == wantFlags
  }

  /** `_mfg_data_service_uuid_check`: the first two payload bytes, as lower-case hex, equal `uuid`. */
  predicate ServiceUuidCheck(mfg: Option<seq<byte>>, uuid: string) {
    mfg.Some? && |mfg.value| > 2 && HexString(mfg.value[0..2]) == uuid
  }

  predicate IsGoveeH5074(mfg: Option<seq<byte>>, flags: int) {
    MfgDataCheck(mfg, flags, 9, 6)
  }

  predicate IsGoveeH5102(mfg: Option<seq<byte>>, flags: int) {
    MfgDataCheck(mfg, flags, 8, 5) && ServiceUuidCheck(mfg, "0100")
  }

  predicate IsGoveeH5075H5072(mfg: Option<seq<byte>>, flags: int) {
    MfgDataCheck(mfg, flags, 8, 5) && ServiceUuidCheck(mfg, "88ec")
  }

  predicate IsGoveeH5051(mfg: Option<seq<byte>>, flags: int) {
    MfgDataCheck(mfg, flags, 11, 6)
  }

  predicate IsMoatS2(mfg: Option<seq<byte>>, flags: int) {
    MfgDataCheck(mfg, flags, 20, 6) && ServiceUuidCheck(mfg, "0010")
  }

  /** Comparing the hex rendering of the first two bytes with a literal is comparing the bytes. */
  lemma ServiceUuidBytes(mfg: Option<seq<byte>>, a: byte, b: byte)
    ensures ServiceUuidCheck(mfg, HexString([a, b])) <==>
      mfg.Some? && |mfg.value| > 2 && mfg.value[0] == a && mfg.value[1] == b
  {
    if mfg.Some? && |mfg.value| > 2 {
      var lead := mfg.value[0..2];
      assert lead == [mfg.value[0], mfg.value[1]];
      if HexString(lead) == HexString([a, b]) {
        HexStringTwo(lead[0], lead[1]);
        HexStringTwo(a, b);
        var s := HexString([a, b]);
        assert HexPair(lead[0]) == s[0..2] == HexPair(a);
        assert HexPair(lead[1]) == s[2..4] == HexPair(b);
        UpperHexPairInjective(lead[0], a);
        UpperHexPairInjective(lead[1], b);
      }
    }
  }

  lemma UuidLiterals()
    ensures HexString([0x00, 0x10]) == "0010"
    ensures HexString([0x88, 0xEC]) == "88ec"
    ensures HexString([0x01, 0x00]) == "0100"
  {
    assert [0x00, 0x10][..1] == [0x00];
    assert [0x88, 0xEC][..1] == [0x88];
    assert [0x01, 0x00][..1] == [0x01];
  }

  /** Same length, same flags, and the first two bytes are `a`, `b`. */
  predicate Signature(mfg: Option<seq<byte>>, flags: int, len: nat, wantFlags: int, a: byte, b: byte) {
    && mfg.Some? && 2 <= len && |mfg.value| == len && flags == wantFlags
    && mfg.value[0] == a && mfg.value[1] == b
  }

  /**
    The layout the parser decodes: Moat devices only as Moat S2; Govee
    devices as H5072/H5075, else H5101/H5102, else H5074 or H5051. No
    match, or a brand the layout does not belong to, gives None.
   */
  function SelectLayout(brand: Brand, mfg: Option<seq<byte>>, flags: int): (r: Option<Layout>)
    ensures r == Some(MoatS2) <==> brand == Moat && Signature(mfg, flags, 20, 6, 0x00, 0x10)
    ensures r == Some(GoveeH5072H5075) <==> brand == Govee && Signature(mfg, flags, 8, 5, 0x88, 0xEC)
    ensures r == Some(GoveeH5101H5102) <==> brand == Govee && Signature(mfg, flags, 8, 5, 0x01, 0x00)
    ensures r == Some(GoveeH5074H5051) <==>
      brand == Govee && mfg.Some? && flags == 6 && (|mfg.value| == 9 || |mfg.value| == 11)
  {
    SignatureChecks(mfg, flags);
    var packed := Signature(mfg, flags, 8, 5, 0x88, 0xEC) || Signature(mfg, flags, 8, 5, 0x01, 0x00);
    assert packed ==> !(mfg.Some? && flags == 6);
    match brand
    case Moat =>
      if IsMoatS2(mfg, flags) then Some(MoatS2) else None
    case Govee =>
      if IsGoveeH5075H5072(mfg, flags) then
        assert !Signature(mfg, flags, 8, 5, 0x01, 0x00);
        Some(GoveeH5072H5075)
      else if IsGoveeH5102(mfg, flags) then
        Some(GoveeH5101H5102)
      else if IsGoveeH5074(mfg, flags) || IsGoveeH5051(mfg, flags) then
        Some(GoveeH5074H5051)
      else
        None
  }

  lemma SignatureChecks(mfg: Option<seq<byte>>, flags: int)
    ensures IsMoatS2(mfg, flags) <==> Signature(mfg, flags, 20, 6, 0x00, 0x10)
    ensures IsGoveeH5075H5072(mfg, flags) <==> Signature(mfg, flags, 8, 5, 0x88, 0xEC)
    ensures IsGoveeH5102(mfg, flags) <==> Signature(mfg, flags, 8, 5, 0x01, 0x00)
  {
    UuidLiterals();
    ServiceUuidBytes(mfg, 0x00, 0x10);
    assert ServiceUuidCheck(mfg, "0010") <==> ServiceUuidCheck(mfg, HexString([0x00, 0x10]));
    ServiceUuidBytes(mfg, 0x88, 0xEC);
    assert ServiceUuidCheck(mfg, "88ec") <==> ServiceUuidCheck(mfg, HexString([0x88, 0xEC]));
    ServiceUuidBytes(mfg, 0x01, 0x00);
    assert ServiceUuidCheck(mfg, "0100") <==> ServiceUuidCheck(mfg, HexString([0x01, 0x00]));
  }

  /** The payload lengths a layout is recognised at. */
  predicate FitsLayout(layout: Layout, md: seq<byte>) {
    match layout
    case MoatS2 => |md| == 20
    case GoveeH5072H5075 => |md| == 8
    case GoveeH5101H5102 => |md| == 8
    case GoveeH5074H5051 => |md| == 9 || |md| == 11
  }

  // ---------------------------------------------------------------------
  // Moat S2

  /** `rescale_clamped`: linear map of `[inMin, inMax]` onto `[outMin, outMax]`, clamped outside. */
  function RescaleClamped(value: real, inMin: real, inMax: real, outMin: real, outMax: real): (r: real)
    ensures value >= inMax ==> r == outMax
    ensures value < inMax && value <= inMin ==> r == outMin
    ensures inMin < value < inMax && outMin <= outMax ==> outMin <= r <= outMax
  {
    if value >= inMax then outMax
    else if value <= inMin then outMin
    else
      var span := outMax - outMin;
      var frac := (value - inMin) / (inMax - inMin);
      assert span * (value - inMin) / (inMax - inMin) == span * frac;
      assert 0.0 < frac < 1.0 by {
        FractionBetween(value - inMin, inMax - inMin);
      }
      assert outMin <= outMax ==> 0.0 <= span * frac <= span by {
        if outMin <= outMax {
          ScaleBetween(span, frac);
        }
      }
      outMin + span * (value - inMin) / (inMax - inMin)
  }

  lemma FractionBetween(x: real, d: real)
    requires 0.0 < x < d
    ensures 0.0 < x / d < 1.0
  {
    var q := x / d;
    assert q * d == x;
    PositiveFactor(q, d);
    var r := 1.0 - q;
    assert r * d == d - q * d;
    PositiveFactor(r, d);
  }

  lemma PositiveFactor(a: real, d: real)
    requires d > 0.0 && a * d > 0.0
    ensures a > 0.0
  {
    if a <= 0.0 {
      NonPositiveProduct(a, d);
    }
  }

  lemma NonPositiveProduct(a: real, d: real)
    requires a <= 0.0 && d > 0.0
    ensures a * d <= 0.0
  {
  }

  lemma ScaleBetween(a: real, f: real)
    requires 0.0 <= a && 0.0 <= f <= 1.0
    ensures 0.0 <= a * f <= a
  {
  }

  /** With a proper input range and an ordered output range, rescaling preserves order. */
  lemma RescaleClampedMonotone(v: real, w: real, inMin: real, inMax: real, outMin: real, outMax: real)
    requires inMin < inMax && outMin <= outMax
    requires v <= w
    ensures RescaleClamped(v, inMin, inMax, outMin, outMax) <= RescaleClamped(w, inMin, inMax, outMin, outMax)
  {
    var rv := RescaleClamped(v, inMin, inMax, outMin, outMax);
    var rw := RescaleClamped(w, inMin, inMax, outMin, outMax);
    if w >= inMax {
      assert rw == outMax;
    } else if v <= inMin {
      assert rv == outMin;
    } else {
      InteriorMonotone(v, w, inMin, inMax, outMin, outMax);
    }
  }

  /** Between the input bounds the rescaling is the linear map, which keeps order. */
  lemma InteriorMonotone(v: real, w: real, inMin: real, inMax: real, outMin: real, outMax: real)
    requires inMin < v <= w < inMax && outMin <= outMax
    ensures RescaleClamped(v, inMin, inMax, outMin, outMax) <= RescaleClamped(w, inMin, inMax, outMin, outMax)
  {
    var d := inMax - inMin;
    var a := outMax - outMin;
    assert a * (v - inMin) / d == a * ((v - inMin) / d);
    assert a * (w - inMin) / d == a * ((w - inMin) / d);
    DivideMonotone(v - inMin, w - inMin, d);
    MultiplyMonotone(a, (v - inMin) / d, (w - inMin) / d);
  }

  lemma DivideMonotone(x: real, y: real, d: real)
    requires x <= y && d > 0.0
    ensures x / d <= y / d
  {
    assert y / d - x / d == (y - x) / d;
  }

  lemma MultiplyMonotone(a: real, x: real, y: real)
    requires 0.0 <= a && x <= y
    ensures a * x <= a * y
  {
    assert a * y - a * x == a * (y - x);
  }

  const MoatBatteryEmptyMillivolts: real := 2760.0
  const MoatBatteryFullMillivolts: real := 2820.0

  /** `moat_s2_battery_voltage_to_percentage`: 1% at or below 2760 mV, 100% at or above 2820 mV. */
  function MoatS2BatteryVoltageToPercentage(millivolts: int): (p: real)
    ensures 1.0 <= p <= 100.0
    ensures millivolts as real <= MoatBatteryEmptyMillivolts ==> p == 1.0
    ensures millivolts as real >= MoatBatteryFullMillivolts ==> p == 100.0
  {
    RescaleClamped(millivolts as real, MoatBatteryEmptyMillivolts, MoatBatteryFullMillivolts, 1.0, 100.0)
  }

  /** The battery percentage the Moat S2 layout stores: the rescaled voltage truncated by `int()`. */
  function MoatS2BatteryPercent(millivolts: int): (p: int)
    ensures 1 <= p <= 100
    ensures millivolts <= 2760 ==> p == 1
    ensures millivolts >= 2820 ==> p == 100
    ensures p as real <= MoatS2BatteryVoltageToPercentage(millivolts) < p as real + 1.0
  {
    Trunc(MoatS2BatteryVoltageToPercentage(millivolts))
  }

  /** Moat S2 temperature in degrees Celsius from the raw little-endian reading. */
  function MoatS2Temperature(raw: nat): (t: real)
    requires raw < 65536
    ensures -46.85 <= t < 128.87
  {
    var x := raw as real / 65536.0;
    assert 0.0 <= x < 1.0;
    -46.85 + 175.72 * x
  }

  /** Moat S2 relative humidity in percent from the raw little-endian reading. */
  function MoatS2Humidity(raw: nat): (h: real)
    requires raw < 65536
    ensures -6.0 <= h < 119.0
  {
    var x := raw as real / 65536.0;
    assert 0.0 <= x < 1.0;
    -6.0 + 125.0 * x
  }

  /** The Moat S2 branch of the parser (the timestamp at bytes 8..11 is not decoded). */
  function DecodeMoatS2(md: seq<byte>): (r: Reading)
    requires |md| == 20
    ensures r.batteryMillivolts == Some(Word16(md[16], md[17]))
    ensures r.battery == MoatS2BatteryPercent(Word16(md[16], md[17]))
    ensures r.temperature == MoatS2Temperature(Word16(md[12], md[13]))
    ensures r.humidity == MoatS2Humidity(Word16(md[14], md[15]))
    ensures r.packet == TextPacket(HexString(md[8..18]))
    ensures |r.packet.text| == 20
    ensures r.model.None?
  {
    var rawTemperature := LittleEndianToUnsigned(md[12..14]);
    var rawHumidity := LittleEndianToUnsigned(md[14..16]);
    var millivolts := LittleEndianToUnsigned(md[16..18]);
    LittleEndianWord(md[12..14]);
    LittleEndianWord(md[14..16]);
    LittleEndianWord(md[16..18]);
    Reading(
      TextPacket(HexString(md[8..18])),
      MoatS2Temperature(rawTemperature),
      MoatS2Humidity(rawHumidity),
      MoatS2BatteryPercent(millivolts),
      Some(millivolts),
      None)
  }

  // ---------------------------------------------------------------------
  // Govee packed 24-bit layouts (H5072/H5075, H5101/H5102)

  /** Bit 23 of the packed value marks a negative temperature. */
  const GoveeSignBit: nat := 0x800000

  predicate SignBitSet(packet: nat) {
    (packet / GoveeSignBit) % 2 == 1
  }

  /** `packet ^ 0x800000`. */
  function XorSignBit(packet: nat): nat {
    if SignBitSet(packet) then packet - GoveeSignBit else packet + GoveeSignBit
  }

  /**
    `decode_govee_temp`, in tenths of a degree: the decimal digits above the
    last three are the magnitude, and bit 23 the sign.
   */
  function GoveeTempTenths(packet: nat): (t: int)
    ensures SignBitSet(packet) ==> t <= 0
    ensures !SignBitSet(packet) ==> t >= 0
    ensures packet < 2 * GoveeSignBit ==>
      (if packet >= GoveeSignBit then -t else t) == (packet % GoveeSignBit) / 1000
  {
    if SignBitSet(packet) then -(XorSignBit(packet) / 1000) else packet / 1000
  }

  /** `decode_govee_temp` in degrees Celsius. */
  function DecodeGoveeTemp(packet: nat): (t: real)
    ensures SignBitSet(packet) ==> t <= 0.0
    ensures !SignBitSet(packet) ==> t >= 0.0
  {
    GoveeTempTenths(packet) as real / 10.0
  }

  /** Humidity in tenths as the parser computes it: `packet % 1000`, sign bit included. */
  function GoveeHumidityTenthsAsWritten(packet: nat): (h: nat)
    ensures h < 1000
  {
    packet % 1000
  }

  /** Humidity in tenths with the sign bit cleared first, as the encoding intends. */
  function GoveeHumidityTenths(packet: nat): (h: nat)
    ensures h < 1000
    ensures !SignBitSet(packet) ==> h == GoveeHumidityTenthsAsWritten(packet)
  {
    (if SignBitSet(packet) then XorSignBit(packet) else packet) % 1000
  }

  /** How a Govee sensor packs temperature and humidity (both in tenths) into 24 bits. */
  function GoveePack(tempTenths: int, humidityTenths: nat): (packet: nat)
    requires humidityTenths < 1000
    requires (if tempTenths < 0 then -tempTenths else tempTenths) * 1000 + humidityTenths < GoveeSignBit
    ensures packet < 2 * GoveeSignBit
  {
    var magnitude := if tempTenths < 0 then -tempTenths else tempTenths;
    (if tempTenths < 0 then GoveeSignBit else 0) + magnitude * 1000 + humidityTenths
  }

  lemma SignBitOfPack(tempTenths: int, humidityTenths: nat)
    requires humidityTenths < 1000
    requires (if tempTenths < 0 then -tempTenths else tempTenths) * 1000 + humidityTenths < GoveeSignBit
    ensures SignBitSet(GoveePack(tempTenths, humidityTenths)) <==> tempTenths < 0
  {
    var packet := GoveePack(tempTenths, humidityTenths);
    if tempTenths < 0 {
      assert packet / GoveeSignBit == 1;
    } else {
      assert packet / GoveeSignBit == 0;
    }
  }

  /** Decoding a packed reading gives back its temperature and (with the corrected humidity) its humidity. */
  lemma GoveeRoundTrip(tempTenths: int, humidityTenths: nat)
    requires humidityTenths < 1000
    requires (if tempTenths < 0 then -tempTenths else tempTenths) * 1000 + humidityTenths < GoveeSignBit
    ensures GoveeTempTenths(GoveePack(tempTenths, humidityTenths)) == tempTenths
    ensures GoveeHumidityTenths(GoveePack(tempTenths, humidityTenths)) == humidityTenths
  {
    SignBitOfPack(tempTenths, humidityTenths);
    var magnitude := if tempTenths < 0 then -tempTenths else tempTenths;
    assert (magnitude * 1000 + humidityTenths) / 1000 == magnitude;
    assert (magnitude * 1000 + humidityTenths) % 1000 == humidityTenths;
  }

  /** Only the decimal digits above the last three of the magnitude decide the temperature. */
  lemma GoveeTempIgnoresLastDigits(sign: nat, magnitude: nat, digits: nat)
    requires sign <= 1 && magnitude < GoveeSignBit && digits < 1000
    requires 1000 * (magnitude / 1000) + digits < GoveeSignBit
    ensures GoveeTempTenths(sign * GoveeSignBit + 1000 * (magnitude / 1000) + digits)
         == GoveeTempTenths(sign * GoveeSignBit + magnitude)
  {
    var other := 1000 * (magnitude / 1000) + digits;
    assert (sign * GoveeSignBit + other) / GoveeSignBit == sign;
    assert (sign * GoveeSignBit + magnitude) / GoveeSignBit == sign;
    assert other / 1000 == magnitude / 1000;
  }

  /**
    The humidity the parser computes is right exactly for non-negative
    temperatures: with the sign bit set, `packet % 1000` is off by
    `0x800000 % 1000 == 608` modulo 1000.
   */
  lemma GoveeHumidityAsWrittenWrongWhenNegative(tempTenths: int, humidityTenths: nat)
    requires humidityTenths < 1000
    requires (if tempTenths < 0 then -tempTenths else tempTenths) * 1000 + humidityTenths < GoveeSignBit
    ensures GoveeHumidityTenthsAsWritten(GoveePack(tempTenths, humidityTenths)) == humidityTenths
        <==> tempTenths >= 0
    ensures tempTenths < 0 ==>
      GoveeHumidityTenthsAsWritten(GoveePack(tempTenths, humidityTenths)) == (humidityTenths + 608) % 1000
  {
    var magnitude := if tempTenths < 0 then -tempTenths else tempTenths;
    var packet := GoveePack(tempTenths, humidityTenths);
    if tempTenths < 0 {
      assert packet == 8388 * 1000 + magnitude * 1000 + (humidityTenths + 608);
      assert packet % 1000 == (humidityTenths + 608) % 1000;
    } else {
      assert packet % 1000 == humidityTenths;
    }
  }

  /** A concrete case: -5.0 degrees at 50.0% is packed as 8439108 and read back as 10.8%. */
  lemma GoveeHumidityCounterexample()
    ensures GoveePack(-50, 500) == 8439108
    ensures GoveeHumidityTenthsAsWritten(8439108) == 108
    ensures GoveeHumidityTenths(8439108) == 500
  {
  }

  /**
    The packed Govee branches as the parser computes them; the 24-bit value
    starts at `at` and the battery byte follows it. Humidity is
    `packet % 1000` with the sign bit still in place.
   */
  function DecodeGoveePacked(md: seq<byte>, at: nat, model: string): (r: Reading)
    requires at + 4 <= |md|
    ensures r.packet == IntPacket(BigEndianToUnsigned(md[at..at + 3]))
    ensures r.temperature == DecodeGoveeTemp(BigEndianToUnsigned(md[at..at + 3]))
    ensures r.humidity == GoveeHumidityTenthsAsWritten(BigEndianToUnsigned(md[at..at + 3])) as real / 10.0
    ensures r.battery == md[at + 3]
    ensures r.batteryMillivolts.None? && r.model == Some(model)
  {
    ParseHexOfHexString(md[at..at + 3]);
    var packet := ParseHex(HexString(md[at..at + 3]));
    Reading(
      IntPacket(packet),
      DecodeGoveeTemp(packet),
      GoveeHumidityTenthsAsWritten(packet) as real / 10.0,
      md[at + 3],
      None,
      Some(model))
  }

  /**
    The packed Govee branches as the encoding intends them: the humidity
    is read with the sign bit cleared. It differs from the parser's
    decode only in the humidity, and only when the sign bit is set.
   */
  function DecodeGoveePackedIntended(md: seq<byte>, at: nat, model: string): (r: Reading)
    requires at + 4 <= |md|
    ensures r.humidity == GoveeHumidityTenths(BigEndianToUnsigned(md[at..at + 3])) as real / 10.0
    ensures r == DecodeGoveePacked(md, at, model).(humidity := r.humidity)
    ensures !SignBitSet(BigEndianToUnsigned(md[at..at + 3])) ==> r == DecodeGoveePacked(md, at, model)
  {
    var packet := BigEndianToUnsigned(md[at..at + 3]);
    DecodeGoveePacked(md, at, model).(humidity := GoveeHumidityTenths(packet) as real / 10.0)
  }

  // ---------------------------------------------------------------------
  // Govee H5074/H5051

  /**
    The H5074/H5051 branch: bytes 3..6 are two little-endian 16-bit words,
    temperature (two's complement) and humidity, both in hundredths; the
    source swaps hex digit pairs to read them.
   */
  function DecodeGoveeH5074H5051(md: seq<byte>): (r: Reading)
    requires |md| == 9 || |md| == 11
    ensures r.temperature == TwosComplement(Word16(md[3], md[4]), 16) as real / 100.0
    ensures r.humidity == Word16(md[5], md[6]) as real / 100.0
    ensures r.battery == md[7]
    ensures r.packet == TextPacket(HexString([md[4], md[3], md[6], md[5]]))
    ensures r.batteryMillivolts.None? && r.model == Some("Govee H5074/H5051")
  {
    var hex := HexString(md[3..7]);
    var tempLsb := hex[2..4] + hex[0..2];
    var humLsb := hex[6..8] + hex[4..6];
    SwappedWordsHex(md[3..7]);
    HexWordValue(md[4], md[3]);
    HexWordValue(md[6], md[5]);
    Reading(
      TextPacket(tempLsb + humLsb),
      TwosComplement(ParseHex(tempLsb), 16) as real / 100.0,
      ParseHex(humLsb) as real / 100.0,
      md[7],
      None,
      Some("Govee H5074/H5051"))
  }

  /** Swapping the two hex pairs of each 16-bit word of `w` is the hex string of the byte-swapped words. */
  lemma SwappedWordsHex(w: seq<byte>)
    requires |w| == 4
    ensures HexString(w)[2..4] + HexString(w)[0..2] == HexString([w[1], w[0]])
    ensures HexString(w)[6..8] + HexString(w)[4..6] == HexString([w[3], w[2]])
    ensures HexString([w[1], w[0]]) + HexString([w[3], w[2]]) == HexString([w[1], w[0], w[3], w[2]])
  {
    HexStringPairs(w);
    HexStringTwo(w[1], w[0]);
    HexStringTwo(w[3], w[2]);
    var sw := [w[1], w[0], w[3], w[2]];
    assert sw[..3][..2] == [w[1], w[0]];
    assert HexString(sw[..3]) == HexString([w[1], w[0]]) + HexPair(w[3]);
    assert HexString(sw) == HexString(sw[..3]) + HexPair(w[2]);
  }

  lemma HexStringTwo(a: byte, b: byte)
    ensures HexString([a, b]) == HexPair(a) + HexPair(b)
  {
    assert [a, b][..1] == [a];
    assert [a][..0] == [];
  }

  /** Parsing the hex of two bytes reads them big-endian. */
  lemma HexWordValue(hi: byte, lo: byte)
    ensures forall i :: 0 <= i < |HexString([hi, lo])| ==> IsHexChar(HexString([hi, lo])[i])
    ensures ParseHex(HexString([hi, lo])) == Word16(lo, hi)
  {
    ParseHexOfHexString([hi, lo]);
    assert [hi, lo][..1] == [hi];
    assert [hi][..0] == [];
  }

  /** The decode branch for a selected layout. */
  function DecodeLayout(layout: Layout, md: seq<byte>): (r: Reading)
    requires FitsLayout(layout, md)
    ensures r.batteryMillivolts.Some? <==> layout == MoatS2
    ensures r.model.Some? <==> layout != MoatS2
    ensures r.packet.TextPacket? ==> |r.packet.text| > 0
    ensures layout == MoatS2 ==>
      && r.packet == TextPacket(HexString(md[8..18]))
      && r.temperature == MoatS2Temperature(Word16(md[12], md[13]))
      && r.humidity == MoatS2Humidity(Word16(md[14], md[15]))
      && r.battery == MoatS2BatteryPercent(Word16(md[16], md[17]))
      && r.batteryMillivolts == Some(Word16(md[16], md[17]))
    ensures layout == GoveeH5072H5075 ==>
      && r.packet == IntPacket(BigEndianToUnsigned(md[3..6]))
      && r.temperature == DecodeGoveeTemp(BigEndianToUnsigned(md[3..6]))
      && r.humidity == GoveeHumidityTenthsAsWritten(BigEndianToUnsigned(md[3..6])) as real / 10.0
      && r.battery == md[6]
      && r.model == Some("Govee H5072/H5075")
    ensures layout == GoveeH5101H5102 ==>
      && r.packet == IntPacket(BigEndianToUnsigned(md[4..7]))
      && r.temperature == DecodeGoveeTemp(BigEndianToUnsigned(md[4..7]))
      && r.humidity == GoveeHumidityTenthsAsWritten(BigEndianToUnsigned(md[4..7])) as real / 10.0
      && r.battery == md[7]
      && r.model == Some("Govee H5101/H5102")
    ensures layout == GoveeH5074H5051 ==>
      && r.packet == TextPacket(HexString([md[4], md[3], md[6], md[5]]))
      && r.temperature == TwosComplement(Word16(md[3], md[4]), 16) as real / 100.0
      && r.humidity == Word16(md[5], md[6]) as real / 100.0
      && r.battery == md[7]
      && r.model == Some("Govee H5074/H5051")
  {
    match layout
    case MoatS2 => DecodeMoatS2(md)
    case GoveeH5072H5075 => DecodeGoveePacked(md, 3, "Govee H5072/H5075")
    case GoveeH5101H5102 => DecodeGoveePacked(md, 4, "Govee H5101/H5102")
    case GoveeH5074H5051 => DecodeGoveeH5074H5051(md)
  }
}
