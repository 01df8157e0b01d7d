/**
  The integration's two entry points as sequential transitions over the
  configured devices: `handle_meta_event`, run for every HCI LE meta event,
  and `update_ble_devices`, run once per period to publish and reset.
  The HCI poller thread and the timer run concurrently in the integration;
  here they are interleaved one step at a time.
 */
module Dispatch {
  import opened Options
  import opened Bytes
  import opened Vendor
  import opened Parser
  import opened Device

  /** bleson's `EVT_LE_ADVERTISING_REPORT` subevent code. */
  const EvtLeAdvertisingReport: int := 0x02

  datatype HciPacket = HciPacket(subeventCode: int, data: seq<byte>)

  /** The Home Assistant entities a device can have, in the order they are created. */
  datatype EntityKind = TemperatureEntity | HumidityEntity | RssiEntity | BatteryEntity | SamplesEntity

  /** The `*_entities` switches of the configuration. */
  datatype EntityOptions = EntityOptions(temperature: bool, humidity: bool, rssi: bool, battery: bool, numSamples: bool)

  /** `SensorDeviceWrapper`: a device, its entities and the brand its reports are parsed as. */
  datatype DeviceWrapper = DeviceWrapper(device: SensorDevice, entities: seq<EntityKind>, brand: Brand)

  /** One configured device: its MAC and optional name. */
  datatype DeviceConfig = DeviceConfig(mac: string, name: Option<string>)

  // ---------------------------------------------------------------------
  // Reports

  /**
    `BDAddress(mac) == BDAddress(data[3:9])`: bleson renders a byte address
    reversed as upper-case colon-hex, and compares addresses as strings.
   */
  predicate AddressMatches(mac: string, data: seq<byte>) {
    ReverseMac(Slice(data, 3, 9)) == Some(ToUpper(mac))
  }

  /** A configured MAC matches at most one 6-byte address, and only in a report of at least 9 bytes. */
  lemma AddressMatchesUnique(mac: string, data1: seq<byte>, data2: seq<byte>)
    requires AddressMatches(mac, data1) && AddressMatches(mac, data2)
    ensures |data1| >= 9 && |data2| >= 9
    ensures data1[3..9] == data2[3..9]
  {
    ReverseMacInjective(Slice(data1, 3, 9), Slice(data2, 3, 9));
    assert Slice(data1, 3, 9) == data1[3..9];
    assert Slice(data2, 3, 9) == data2[3..9];
  }

  /** The arguments `update` receives from a decoded reading. */
  function ObservationOf(r: Reading): (o: Observation)
    ensures o.temperature == Some(r.temperature) && o.humidity == Some(r.humidity)
    ensures o.batteryPercentage == Some(r.battery) && o.batteryMillivolts == r.batteryMillivolts
    ensures o.packet == Some(r.packet)
  {
    Observation(Some(r.temperature), Some(r.humidity), Some(r.battery), r.batteryMillivolts, Some(r.packet))
  }

  /**
    The device's part of `handle_meta_event` once the address matched:
    parse, `update` only when a measurement was decoded, then
    `append_rssi` in every case.
   */
  function ProcessReport(d: SensorDevice, brand: Brand, data: seq<byte>): (e: SensorDevice)
    ensures SameConfig(d, e)
    ensures var a := ParseBleAdvertisement(data, brand);
      e.samples.numMeasurements == d.samples.numMeasurements + (if a.reading.Some? then 1 else 0)
    ensures var a := ParseBleAdvertisement(data, brand);
      a.reading.None? ==> e.samples == d.samples.(rssi := e.samples.rssi)
    ensures var a := ParseBleAdvertisement(data, brand);
      a.reading.Some? ==> e.samples.latestRawData == Some(RawDataString(Some(a.reading.value.packet)))
    ensures var a := ParseBleAdvertisement(data, brand);
      e.samples.rssi == d.samples.rssi + (if a.rssi.Some? && a.rssi.value < 0 then [a.rssi.value] else [])
    ensures var a := ParseBleAdvertisement(data, brand);
      a.reading.Some? ==> e == AppendRssi(Update(d, ObservationOf(a.reading.value)), a.rssi)
    ensures var a := ParseBleAdvertisement(data, brand);
      a.reading.None? ==> e == AppendRssi(d, a.rssi)
  {
    var a := ParseBleAdvertisement(data, brand);
    var updated := if a.reading.Some? then Update(d, ObservationOf(a.reading.value)) else d;
    AppendRssi(updated, a.rssi)
  }

  /**
    Devices fed only through the parser: valid, and any raw data they hold
    is a non-empty string.
   */
  predicate Fed(d: SensorDevice) {
    Valid(d) && (d.samples.latestRawData.Some? ==> |d.samples.latestRawData.value| > 0)
  }

  lemma ProcessReportKeepsFed(d: SensorDevice, brand: Brand, data: seq<byte>)
    requires Fed(d)
    ensures Fed(ProcessReport(d, brand, data))
  {
    var a := ParseBleAdvertisement(data, brand);
    var updated := if a.reading.Some? then Update(d, ObservationOf(a.reading.value)) else d;
    if a.reading.Some? {
      UpdatePreservesValid(d, ObservationOf(a.reading.value));
    }
    assert Fed(updated);
  }

  /** `handle_meta_event`: every wrapper whose MAC matches the report processes it; nothing else changes. */
  function HandleMetaEvent(ws: seq<DeviceWrapper>, packet: HciPacket): (r: seq<DeviceWrapper>)
    ensures |r| == |ws|
    ensures packet.subeventCode != EvtLeAdvertisingReport ==> r == ws
    ensures forall i :: 0 <= i < |ws| ==> r[i].entities == ws[i].entities && r[i].brand == ws[i].brand
    ensures forall i :: 0 <= i < |ws| && !AddressMatches(ws[i].device.mac, packet.data) ==> r[i] == ws[i]
    ensures forall i :: (0 <= i < |ws| && packet.subeventCode == EvtLeAdvertisingReport
      && AddressMatches(ws[i].device.mac, packet.data)) ==>
        r[i].device == ProcessReport(ws[i].device, ws[i].brand, packet.data)
  {
    if packet.subeventCode != EvtLeAdvertisingReport then ws
    else
      seq(|ws|, i requires 0 <= i < |ws| =>
        if AddressMatches(ws[i].device.mac, packet.data) then
          ws[i].(device := ProcessReport(ws[i].device, ws[i].brand, packet.data))
        else ws[i])
  }

  // ---------------------------------------------------------------------
  // Entities

  /** The fixed creation order of `init_wrapper`. */
  const AllKinds: seq<EntityKind> := [TemperatureEntity, HumidityEntity, RssiEntity, BatteryEntity, SamplesEntity]

  /** Position of a kind in the creation order. */
  function Rank(k: EntityKind): nat {
    match k
    case TemperatureEntity => 0
    case HumidityEntity => 1
    case RssiEntity => 2
    case BatteryEntity => 3
    case SamplesEntity => 4
  }

  predicate RankOrdered(ks: seq<EntityKind>) {
    forall i, j :: 0 <= i < j < |ks| ==> Rank(ks[i]) < Rank(ks[j])
  }

  predicate Enabled(opts: EntityOptions, kind: EntityKind) {
    match kind
    case TemperatureEntity => opts.temperature
    case HumidityEntity => opts.humidity
    case RssiEntity => opts.rssi
    case BatteryEntity => opts.battery
    case SamplesEntity => opts.numSamples
  }

  /** The `if config[...]: ha_entities.append(...)` chain over `kinds`: the enabled ones, in order. */
  function LayoutOver(opts: EntityOptions, kinds: seq<EntityKind>): (es: seq<EntityKind>)
    ensures forall k :: k in es <==> k in kinds && Enabled(opts, k)
  {
    if |kinds| == 0 then []
    else
      var rest := LayoutOver(opts, kinds[1..]);
      assert forall k :: k in kinds <==> k == kinds[0] || k in kinds[1..];
      (if Enabled(opts, kinds[0]) then [kinds[0]] else []) + rest
  }

  /** Keeping only the enabled kinds keeps their relative order. */
  lemma {:induction false} LayoutOverOrdered(opts: EntityOptions, kinds: seq<EntityKind>)
    requires RankOrdered(kinds)
    ensures RankOrdered(LayoutOver(opts, kinds))
  {
    if |kinds| > 0 {
      var rest := LayoutOver(opts, kinds[1..]);
      assert RankOrdered(kinds[1..]) by {
        forall i, j | 0 <= i < j < |kinds| - 1
          ensures Rank(kinds[1..][i]) < Rank(kinds[1..][j])
        {
          assert kinds[1..][i] == kinds[i + 1] && kinds[1..][j] == kinds[j + 1];
        }
      }
      LayoutOverOrdered(opts, kinds[1..]);
      if Enabled(opts, kinds[0]) {
        var es := [kinds[0]] + rest;
        forall i, j | 0 <= i < j < |es|
          ensures Rank(es[i]) < Rank(es[j])
        {
          assert es[j] == rest[j - 1];
          if i > 0 {
            assert es[i] == rest[i - 1];
          } else {
            assert rest[j - 1] in kinds[1..];
            var m :| 0 <= m < |kinds[1..]| && kinds[1..][m] == rest[j - 1];
            assert kinds[1..][m] == kinds[m + 1];
          }
        }
      }
    }
  }

  /**
    The entities `init_wrapper` creates: each kind exactly when its switch
    is on, in the order temperature, humidity, RSSI, battery, samples.
   */
  function EntityLayout(opts: EntityOptions): (es: seq<EntityKind>)
    ensures TemperatureEntity in es <==> opts.temperature
    ensures HumidityEntity in es <==> opts.humidity
    ensures RssiEntity in es <==> opts.rssi
    ensures BatteryEntity in es <==> opts.battery
    ensures SamplesEntity in es <==> opts.numSamples
    ensures RankOrdered(es)
  {
    LayoutOverOrdered(opts, AllKinds);
    LayoutOver(opts, AllKinds)
  }

  /** `init_wrapper`: the device takes the configured name as its description. */
  function InitWrapper(config: DeviceConfig, params: DeviceParams, brand: Brand, opts: EntityOptions): (w: DeviceWrapper)
    ensures w.device.mac == config.mac && w.device.desc == config.name
    ensures Description(w.device) == if config.name.Some? then config.name.value else config.mac
    ensures NoSamples(w.device.samples) && Fed(w.device)
    ensures w.entities == EntityLayout(opts) && w.brand == brand
  {
    DeviceWrapper(CreateDevice(config.mac, params.(description := config.name)), EntityLayout(opts), brand)
  }

  /** A state value written to an entity. */
  datatype StateValue = RealState(r: Option<real>) | IntState(n: Option<int>) | CountState(count: nat)

  /** `entities[index]._state = state`, meant for an entity of kind `kind`. */
  datatype Assignment = Assignment(index: nat, kind: EntityKind, state: StateValue)

  /** The values one publish reads from a device. */
  datatype Readout = Readout(
    temperature: Option<real>,
    humidity: Option<real>,
    rssi: Option<int>,
    battery: Option<int>,
    count: nat)

  /** The primary temperature and humidity are the medians when `use_median` is set, else the means. */
  function ReadoutOf(d: SensorDevice, useMedian: bool): (r: Readout)
    ensures useMedian ==> r.temperature == MedianTemperature(d) && r.humidity == MedianHumidity(d)
    ensures !useMedian ==> r.temperature == MeanTemperature(d) && r.humidity == MeanHumidity(d)
    ensures r.rssi == Rssi(d) && r.battery == BatteryPercentage(d) && r.count == d.samples.numMeasurements
  {
    Readout(
      if useMedian then MedianTemperature(d) else MeanTemperature(d),
      if useMedian then MedianHumidity(d) else MeanHumidity(d),
      Rssi(d),
      BatteryPercentage(d),
      d.samples.numMeasurements)
  }

  /** The state an entity of `kind` is given. */
  function StateFor(readout: Readout, kind: EntityKind): StateValue {
    match kind
    case TemperatureEntity => RealState(readout.temperature)
    case HumidityEntity => RealState(readout.humidity)
    case RssiEntity => IntState(readout.rssi)
    case BatteryEntity => IntState(readout.battery)
    case SamplesEntity => CountState(readout.count)
  }

  /**
    The state writes of `update_ble_devices` over `kinds`: each enabled
    kind writes at the cursor, which then advances.
   */
  function FlushOver(opts: EntityOptions, readout: Readout, kinds: seq<EntityKind>, cursor: nat): seq<Assignment> {
    if |kinds| == 0 then []
    else if Enabled(opts, kinds[0]) then
      [Assignment(cursor, kinds[0], StateFor(readout, kinds[0]))] + FlushOver(opts, readout, kinds[1..], cursor + 1)
    else
      FlushOver(opts, readout, kinds[1..], cursor)
  }

  /** The state writes of one publish, from entity index 0. */
  function FlushStates(opts: EntityOptions, useMedian: bool, d: SensorDevice): seq<Assignment> {
    FlushOver(opts, ReadoutOf(d, useMedian), AllKinds, 0)
  }

  /**
    The cursor walk and the creation order agree: the k-th write lands at
    `cursor + k`, on the k-th enabled kind.
   */
  lemma {:induction false} FlushOverAgrees(opts: EntityOptions, readout: Readout, kinds: seq<EntityKind>, cursor: nat)
    ensures var r := FlushOver(opts, readout, kinds, cursor);
      var layout := LayoutOver(opts, kinds);
      |r| == |layout| && forall k :: 0 <= k < |r| ==>
        && r[k].index == cursor + k && r[k].kind == layout[k] && r[k].state == StateFor(readout, r[k].kind)
  {
    if |kinds| > 0 {
      if Enabled(opts, kinds[0]) {
        FlushOverAgrees(opts, readout, kinds[1..], cursor + 1);
        var r := FlushOver(opts, readout, kinds, cursor);
        var rest := FlushOver(opts, readout, kinds[1..], cursor + 1);
        var layout := LayoutOver(opts, kinds);
        assert layout == [kinds[0]] + LayoutOver(opts, kinds[1..]);
        forall k | 0 <= k < |r|
          ensures r[k].index == cursor + k && r[k].kind == layout[k] && r[k].state == StateFor(readout, r[k].kind)
        {
          if k > 0 {
            assert r[k] == rest[k - 1];
          }
        }
      } else {
        FlushOverAgrees(opts, readout, kinds[1..], cursor);
      }
    }
  }

  /**
    The index `update_ble_devices` writes each kind at is that kind's
    position in the entity list `init_wrapper` built: the k-th write goes to
    entity k, which has the written kind, and every entity is written once.
   */
  lemma EntityIndexAgreement(opts: EntityOptions, useMedian: bool, d: SensorDevice)
    ensures var r := FlushStates(opts, useMedian, d);
      |r| == |EntityLayout(opts)| &&
      forall k :: 0 <= k < |r| ==>
        && r[k].index == k
        && EntityLayout(opts)[r[k].index] == r[k].kind
        && r[k].state == StateFor(ReadoutOf(d, useMedian), r[k].kind)
  {
    FlushOverAgrees(opts, ReadoutOf(d, useMedian), AllKinds, 0);
  }

  /**
    The temperature entity, when enabled, is entity 0 and is given the
    median when `use_median` is set, else the mean; the humidity entity
    follows it and is treated alike.
   */
  lemma PrimaryStates(opts: EntityOptions, useMedian: bool, d: SensorDevice)
    ensures var r := FlushStates(opts, useMedian, d);
      opts.temperature ==>
        && |r| > 0 && r[0].kind == TemperatureEntity
        && r[0].state == RealState(if useMedian then MedianTemperature(d) else MeanTemperature(d))
    ensures var r := FlushStates(opts, useMedian, d);
      var h := if opts.temperature then 1 else 0;
      opts.humidity ==>
        && |r| > h && r[h].kind == HumidityEntity
        && r[h].state == RealState(if useMedian then MedianHumidity(d) else MeanHumidity(d))
  {
    EntityIndexAgreement(opts, useMedian, d);
    var layout := EntityLayout(opts);
    var r := FlushStates(opts, useMedian, d);
    assert layout == LayoutOver(opts, AllKinds);
    assert AllKinds[1..] == [HumidityEntity, RssiEntity, BatteryEntity, SamplesEntity];
    assert AllKinds[1..][1..] == [RssiEntity, BatteryEntity, SamplesEntity];
    if opts.temperature {
      assert layout[0] == TemperatureEntity;
    }
    if opts.humidity {
      var h := if opts.temperature then 1 else 0;
      assert layout[h] == HumidityEntity;
    }
  }

  // ---------------------------------------------------------------------
  // Ticks

  /** Python truthiness of `last_raw_data`: present and non-empty. */
  predicate Truthy(s: Option<string>) {
    s.Some? && |s.value| > 0
  }

  /**
    One wrapper's part of `update_ble_devices`: with raw data, publish the
    states and reset; without, leave the device as it is, so its RSSI
    samples carry over into the next period.
   */
  function TickWrapper(w: DeviceWrapper, opts: EntityOptions, useMedian: bool): (r: (DeviceWrapper, Option<seq<Assignment>>))
    ensures r.0.entities == w.entities && r.0.brand == w.brand && SameConfig(w.device, r.0.device)
    ensures Truthy(w.device.samples.latestRawData) ==>
      NoSamples(r.0.device.samples) && r.1 == Some(FlushStates(opts, useMedian, w.device))
    ensures !Truthy(w.device.samples.latestRawData) ==> r.0 == w && r.1.None?
  {
    if Truthy(w.device.samples.latestRawData) then
      (w.(device := Reset(w.device)), Some(FlushStates(opts, useMedian, w.device)))
    else
      (w, None)
  }

  /** For a device fed through the parser, a tick publishes and resets exactly when an update happened this period. */
  lemma TickResetsIffUpdated(w: DeviceWrapper, opts: EntityOptions, useMedian: bool)
    requires Fed(w.device)
    ensures TickWrapper(w, opts, useMedian).1.Some? <==> w.device.samples.numMeasurements > 0
    ensures w.device.samples.numMeasurements > 0 ==> NoSamples(TickWrapper(w, opts, useMedian).0.device.samples)
    ensures w.device.samples.numMeasurements == 0 ==> TickWrapper(w, opts, useMedian).0 == w
  {
  }

  /** `update_ble_devices` over all wrappers: every wrapper after its tick. */
  function UpdateBleDevices(ws: seq<DeviceWrapper>, opts: EntityOptions, useMedian: bool): (r: seq<DeviceWrapper>)
    ensures |r| == |ws|
    ensures forall i :: 0 <= i < |ws| ==>
      r[i].entities == ws[i].entities && r[i].brand == ws[i].brand && SameConfig(ws[i].device, r[i].device)
    ensures forall i :: 0 <= i < |ws| && Truthy(ws[i].device.samples.latestRawData) ==> NoSamples(r[i].device.samples)
    ensures forall i :: 0 <= i < |ws| && !Truthy(ws[i].device.samples.latestRawData) ==> r[i] == ws[i]
  {
    seq(|ws|, i requires 0 <= i < |ws| => TickWrapper(ws[i], opts, useMedian).0)
  }

  // ---------------------------------------------------------------------
  // Runs

  datatype Event = Report(packet: HciPacket) | Tick

  function Step(ws: seq<DeviceWrapper>, e: Event, opts: EntityOptions, useMedian: bool): seq<DeviceWrapper> {
    match e
    case Report(packet) => HandleMetaEvent(ws, packet)
    case Tick => UpdateBleDevices(ws, opts, useMedian)
  }

  function Run(ws: seq<DeviceWrapper>, events: seq<Event>, opts: EntityOptions, useMedian: bool): seq<DeviceWrapper>
    decreases |events|
  {
    if |events| == 0 then ws else Run(Step(ws, events[0], opts, useMedian), events[1..], opts, useMedian)
  }

  predicate AllFed(ws: seq<DeviceWrapper>) {
    forall i :: 0 <= i < |ws| ==> Fed(ws[i].device)
  }

  lemma StepKeepsFed(ws: seq<DeviceWrapper>, e: Event, opts: EntityOptions, useMedian: bool)
    requires AllFed(ws)
    ensures AllFed(Step(ws, e, opts, useMedian))
    ensures |Step(ws, e, opts, useMedian)| == |ws|
  {
    var r := Step(ws, e, opts, useMedian);
    forall i | 0 <= i < |r|
      ensures Fed(r[i].device)
    {
      if e.Report? && e.packet.subeventCode == EvtLeAdvertisingReport && AddressMatches(ws[i].device.mac, e.packet.data) {
        ProcessReportKeepsFed(ws[i].device, ws[i].brand, e.packet.data);
      }
    }
  }

  /**
    Over any interleaving of reports and ticks, every device keeps its
    invariant: stored samples within their bounds, RSSI samples negative,
    raw data recorded exactly when an update happened, so a tick resets a
    device exactly when it was updated in that period.
   */
  lemma {:induction false} RunKeepsFed(ws: seq<DeviceWrapper>, events: seq<Event>, opts: EntityOptions, useMedian: bool)
    requires AllFed(ws)
    ensures AllFed(Run(ws, events, opts, useMedian))
    ensures |Run(ws, events, opts, useMedian)| == |ws|
    decreases |events|
  {
    if |events| > 0 {
      StepKeepsFed(ws, events[0], opts, useMedian);
      RunKeepsFed(Step(ws, events[0], opts, useMedian), events[1..], opts, useMedian);
    }
  }

  /** Freshly initialised wrappers satisfy the run invariant. */
  lemma InitialWrappersFed(configs: seq<DeviceConfig>, params: DeviceParams, brand: Brand, opts: EntityOptions)
    ensures AllFed(seq(|configs|, i requires 0 <= i < |configs| => InitWrapper(configs[i], params, brand, opts)))
  {
  }
}
