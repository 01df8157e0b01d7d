/**
  `SensorDevice`: the per-device store of one reporting period's samples,
  with the range checks that keep spikes out and the reductions the
  integration publishes.
 */
module Device {
  import opened Options
  import opened Numbers
  import opened Vendor

  /** `HUMIDITY_MIN` and `HUMIDITY_MAX`: humidity samples outside are spikes. */
  const HumidityMin: real := 0.0
  const HumidityMax: real := 99.9

  /** `CreateDeviceParams`. The temperature range is in degrees Celsius. */
  datatype DeviceParams = DeviceParams(
    reportFahrenheit: bool,
    decimalPlaces: Option<int>,
    logSpikes: bool,
    tempRangeMin: real,
    tempRangeMax: real,
    description: Option<string>)

  /** The measurements of the current period, cleared by `reset`. */
  datatype Samples = Samples(
    numMeasurements: nat,
    rssi: seq<int>,
    temperatures: seq<real>,
    humidities: seq<real>,
    batteryPercentages: seq<int>,
    batteryMillivolts: seq<int>,
    latestRawData: Option<string>)

  /** Identity and configuration, then the period's samples. */
  datatype SensorDevice = SensorDevice(
    mac: string,
    desc: Option<string>,
    reportFahrenheit: bool,
    decimalPlaces: Option<int>,
    logSpikes: bool,
    tempRangeMin: real,
    tempRangeMax: real,
    samples: Samples)

  /** What one parsed advertisement hands to `update`. */
  datatype Observation = Observation(
    temperature: Option<real>,
    humidity: Option<real>,
    batteryPercentage: Option<int>,
    batteryMillivolts: Option<int>,
    packet: Option<Packet>)

  const EmptySamples: Samples := Samples(0, [], [], [], [], [], None)

  predicate NoSamples(s: Samples) {
    && s.numMeasurements == 0
    && s.rssi == [] && s.temperatures == [] && s.humidities == []
    && s.batteryPercentages == [] && s.batteryMillivolts == []
    && s.latestRawData.None?
  }

  predicate TemperatureAccepted(d: SensorDevice, t: Option<real>) {
    t.Some? && d.tempRangeMin <= t.value <= d.tempRangeMax
  }

  predicate HumidityAccepted(h: Option<real>) {
    h.Some? && HumidityMin <= h.value <= HumidityMax
  }

  predicate BatteryAccepted(b: Option<int>) {
    b.Some? && 0 <= b.value <= 100
  }

  /**
    The device invariant: every stored sample lies within its bound, every
    stored RSSI is negative, no list holds more update samples than there
    were updates, and raw data is recorded exactly when an update happened.
   */
  predicate Valid(d: SensorDevice) {
    var s := d.samples;
    && (forall i :: 0 <= i < |s.temperatures| ==> d.tempRangeMin <= s.temperatures[i] <= d.tempRangeMax)
    && (forall i :: 0 <= i < |s.humidities| ==> HumidityMin <= s.humidities[i] <= HumidityMax)
    && (forall i :: 0 <= i < |s.batteryPercentages| ==> 0 <= s.batteryPercentages[i] <= 100)
    && (forall i :: 0 <= i < |s.rssi| ==> s.rssi[i] < 0)
    && |s.temperatures| <= s.numMeasurements
    && |s.humidities| <= s.numMeasurements
    && |s.batteryPercentages| <= s.numMeasurements
    && |s.batteryMillivolts| <= s.numMeasurements
    && (s.latestRawData.Some? <==> s.numMeasurements > 0)
  }

  /** Configuration and identity agree; only the samples may differ. */
  predicate SameConfig(d: SensorDevice, e: SensorDevice) {
    e == d.(samples := e.samples)
  }

  // ---------------------------------------------------------------------
  // Transitions

  /** `SensorDevice(mac, params)`: configuration copied, no samples. */
  function CreateDevice(mac: string, params: DeviceParams): (d: SensorDevice)
    ensures d.mac == mac && d.desc == params.description
    ensures d.reportFahrenheit == params.reportFahrenheit && d.decimalPlaces == params.decimalPlaces
    ensures d.logSpikes == params.logSpikes
    ensures d.tempRangeMin == params.tempRangeMin && d.tempRangeMax == params.tempRangeMax
    ensures NoSamples(d.samples) && Valid(d)
  {
    SensorDevice(mac, params.description, params.reportFahrenheit, params.decimalPlaces,
      params.logSpikes, params.tempRangeMin, params.tempRangeMax, EmptySamples)
  }

  /** `reset`: clears every sample list, the counter and the raw data. */
  function Reset(d: SensorDevice): (e: SensorDevice)
    ensures SameConfig(d, e)
    ensures NoSamples(e.samples) && Valid(e)
  {
    d.(samples := EmptySamples)
  }

  /** `str(packet)`: decimal digits for an integer packet, the text itself for a hex packet. */
  function RawDataString(packet: Option<Packet>): (s: string)
    ensures packet.None? ==> s == "None"
    ensures packet.Some? && packet.value.IntPacket? ==> |s| > 0
    ensures packet.Some? && packet.value.TextPacket? ==> s == packet.value.text
  {
    match packet
    case None => "None"
    case Some(IntPacket(n)) => DecimalString(n)
    case Some(TextPacket(text)) => text
  }

  /** The decimal rendering of a non-negative integer packet reads back as that integer. */
  lemma RawDataStringOfIntPacket(n: nat)
    ensures RawDataString(Some(IntPacket(n))) == NatDigits(n)
    ensures ParseDecimal(RawDataString(Some(IntPacket(n)))) == n
  {
    NatDigitsRoundTrip(n);
  }

  /**
    `update`: each measurement is kept only when present and within its
    range (millivolts only when present); the counter and the raw data
    advance whatever was rejected, and the RSSI list is untouched.
   */
  function Update(d: SensorDevice, o: Observation): (e: SensorDevice)
    ensures SameConfig(d, e)
    ensures TemperatureAccepted(d, o.temperature) ==>
      e.samples.temperatures == d.samples.temperatures + [o.temperature.value]
    ensures !TemperatureAccepted(d, o.temperature) ==> e.samples.temperatures == d.samples.temperatures
    ensures HumidityAccepted(o.humidity) ==>
      e.samples.humidities == d.samples.humidities + [o.humidity.value]
    ensures !HumidityAccepted(o.humidity) ==> e.samples.humidities == d.samples.humidities
    ensures BatteryAccepted(o.batteryPercentage) ==>
      e.samples.batteryPercentages == d.samples.batteryPercentages + [o.batteryPercentage.value]
    ensures !BatteryAccepted(o.batteryPercentage) ==>
      e.samples.batteryPercentages == d.samples.batteryPercentages
    ensures o.batteryMillivolts.Some? ==>
      e.samples.batteryMillivolts == d.samples.batteryMillivolts + [o.batteryMillivolts.value]
    ensures o.batteryMillivolts.None? ==> e.samples.batteryMillivolts == d.samples.batteryMillivolts
    ensures e.samples.numMeasurements == d.samples.numMeasurements + 1
    ensures e.samples.latestRawData == Some(RawDataString(o.packet))
    ensures e.samples.rssi == d.samples.rssi
  {
    var s := d.samples;
    var temperatures := if TemperatureAccepted(d, o.temperature) then s.temperatures + [o.temperature.value] else s.temperatures;
    var humidities := if HumidityAccepted(o.humidity) then s.humidities + [o.humidity.value] else s.humidities;
    var batteries := if BatteryAccepted(o.batteryPercentage) then s.batteryPercentages + [o.batteryPercentage.value] else s.batteryPercentages;
    var millivolts := if o.batteryMillivolts.Some? then s.batteryMillivolts + [o.batteryMillivolts.value] else s.batteryMillivolts;
    d.(samples := Samples(s.numMeasurements + 1, s.rssi, temperatures, humidities, batteries, millivolts,
      Some(RawDataString(o.packet))))
  }

  /** `update` keeps the device invariant. */
  lemma UpdatePreservesValid(d: SensorDevice, o: Observation)
    requires Valid(d)
    ensures Valid(Update(d, o))
  {
    var e := Update(d, o);
    var s := d.samples;
    var t := e.samples;
    assert forall i :: 0 <= i < |t.temperatures| ==> d.tempRangeMin <= t.temperatures[i] <= d.tempRangeMax by {
      forall i | 0 <= i < |t.temperatures|
        ensures d.tempRangeMin <= t.temperatures[i] <= d.tempRangeMax
      {
        if i < |s.temperatures| {
          assert t.temperatures[i] == s.temperatures[i];
        }
      }
    }
    assert forall i :: 0 <= i < |t.humidities| ==> HumidityMin <= t.humidities[i] <= HumidityMax by {
      forall i | 0 <= i < |t.humidities|
        ensures HumidityMin <= t.humidities[i] <= HumidityMax
      {
        if i < |s.humidities| {
          assert t.humidities[i] == s.humidities[i];
        }
      }
    }
    assert forall i :: 0 <= i < |t.batteryPercentages| ==> 0 <= t.batteryPercentages[i] <= 100 by {
      forall i | 0 <= i < |t.batteryPercentages|
        ensures 0 <= t.batteryPercentages[i] <= 100
      {
        if i < |s.batteryPercentages| {
          assert t.batteryPercentages[i] == s.batteryPercentages[i];
        }
      }
    }
  }

  /** `append_rssi`: keeps only negative values; nothing else changes. */
  function AppendRssi(d: SensorDevice, value: Option<int>): (e: SensorDevice)
    ensures SameConfig(d, e)
    ensures value.Some? && value.value < 0 ==> e.samples.rssi == d.samples.rssi + [value.value]
    ensures !(value.Some? && value.value < 0) ==> e == d
    ensures e.samples == d.samples.(rssi := e.samples.rssi)
    ensures Valid(d) ==> Valid(e)
  {
    if value.Some? && value.value < 0 then
      d.(samples := d.samples.(rssi := d.samples.rssi + [value.value]))
    else
      d
  }

  /** `decimal_places = value`: a negative value is ignored. */
  function SetDecimalPlaces(d: SensorDevice, value: int): (e: SensorDevice)
    ensures value >= 0 ==> e.decimalPlaces == Some(value)
    ensures value < 0 ==> e == d
    ensures e == d.(decimalPlaces := e.decimalPlaces)
  {
    if value >= 0 then d.(decimalPlaces := Some(value)) else d
  }

  /** The `description` getter: the configured description, else the MAC. */
  function Description(d: SensorDevice): (r: string)
    ensures d.desc.None? ==> r == d.mac
    ensures d.desc.Some? ==> r == d.desc.value
  {
    if d.desc.None? then d.mac else d.desc.value
  }

  /** The `description` setter: only a string replaces the description; None is ignored. */
  function SetDescription(d: SensorDevice, value: Option<string>): (e: SensorDevice)
    ensures value.Some? ==> Description(e) == value.value
    ensures value.None? ==> e == d
    ensures e == d.(desc := e.desc)
  {
    if value.Some? then d.(desc := value) else d
  }

  // ---------------------------------------------------------------------
  // Sequences of updates

  /** `update` applied to each observation in turn. */
  function UpdateAll(d: SensorDevice, obs: seq<Observation>): (e: SensorDevice)
    ensures SameConfig(d, e)
    decreases |obs|
  {
    if |obs| == 0 then d else UpdateAll(Update(d, obs[0]), obs[1..])
  }

  /** The temperatures of `obs` that fall within `[lo, hi]`, in order. */
  function AcceptedTemperatures(obs: seq<Observation>, lo: real, hi: real): seq<real> {
    if |obs| == 0 then []
    else
      var t := obs[0].temperature;
      (if t.Some? && lo <= t.value <= hi then [t.value] else []) + AcceptedTemperatures(obs[1..], lo, hi)
  }

  /** The humidities of `obs` that fall within the humidity range, in order. */
  function AcceptedHumidities(obs: seq<Observation>): seq<real> {
    if |obs| == 0 then []
    else
      (if HumidityAccepted(obs[0].humidity) then [obs[0].humidity.value] else [])
        + AcceptedHumidities(obs[1..])
  }

  /**
    After a run of updates the temperature list has grown by exactly the
    in-range temperatures of the run, in arrival order.
   */
  lemma {:induction false} UpdateAllTemperatures(d: SensorDevice, obs: seq<Observation>)
    ensures UpdateAll(d, obs).samples.temperatures ==
      d.samples.temperatures + AcceptedTemperatures(obs, d.tempRangeMin, d.tempRangeMax)
    decreases |obs|
  {
    if |obs| > 0 {
      var next := Update(d, obs[0]);
      assert next.tempRangeMin == d.tempRangeMin && next.tempRangeMax == d.tempRangeMax;
      UpdateAllTemperatures(next, obs[1..]);
      assert UpdateAll(d, obs) == UpdateAll(next, obs[1..]);
      var tail := AcceptedTemperatures(obs[1..], d.tempRangeMin, d.tempRangeMax);
      if TemperatureAccepted(d, obs[0].temperature) {
        var head := [obs[0].temperature.value];
        assert AcceptedTemperatures(obs, d.tempRangeMin, d.tempRangeMax) == head + tail;
        assert next.samples.temperatures == d.samples.temperatures + head;
        assert (d.samples.temperatures + head) + tail == d.samples.temperatures + (head + tail);
      } else {
        assert AcceptedTemperatures(obs, d.tempRangeMin, d.tempRangeMax) == tail;
      }
    }
  }

  /** Likewise for humidity, against the fixed humidity range. */
  lemma {:induction false} UpdateAllHumidities(d: SensorDevice, obs: seq<Observation>)
    ensures UpdateAll(d, obs).samples.humidities == d.samples.humidities + AcceptedHumidities(obs)
    decreases |obs|
  {
    if |obs| > 0 {
      var next := Update(d, obs[0]);
      UpdateAllHumidities(next, obs[1..]);
      assert UpdateAll(d, obs) == UpdateAll(next, obs[1..]);
      var tail := AcceptedHumidities(obs[1..]);
      if HumidityAccepted(obs[0].humidity) {
        var head := [obs[0].humidity.value];
        assert AcceptedHumidities(obs) == head + tail;
        assert next.samples.humidities == d.samples.humidities + head;
        assert (d.samples.humidities + head) + tail == d.samples.humidities + (head + tail);
      } else {
        assert AcceptedHumidities(obs) == tail;
        assert next.samples.humidities == d.samples.humidities;
      }
    }
  }

  /** A run of updates counts every observation and leaves the RSSI list alone. */
  lemma {:induction false} UpdateAllCounts(d: SensorDevice, obs: seq<Observation>)
    ensures UpdateAll(d, obs).samples.numMeasurements == d.samples.numMeasurements + |obs|
    ensures UpdateAll(d, obs).samples.rssi == d.samples.rssi
    decreases |obs|
  {
    if |obs| > 0 {
      UpdateAllCounts(Update(d, obs[0]), obs[1..]);
    }
  }

  // ---------------------------------------------------------------------
  // Reductions

  function ToReals(s: seq<int>): (r: seq<real>)
    ensures |r| == |s|
    ensures forall i :: 0 <= i < |s| ==> r[i] == s[i] as real
  {
    seq(|s|, i requires 0 <= i < |s| => s[i] as real)
  }

  /**
    `v` is Python's `round` of the mean of `s`: within half a unit of it,
    and even when the mean lies exactly halfway.
   */
  predicate RoundsMean(v: int, s: seq<int>) {
    && |s| > 0
    && var m := Mean(ToReals(s));
    && -0.5 <= v as real - m <= 0.5
    && ((v as real - m == 0.5 || m - v as real == 0.5) ==> v % 2 == 0)
  }

  /** At most one integer rounds a given mean, so `RoundsMean` pins the value. */
  lemma RoundsMeanUnique(a: int, b: int, s: seq<int>)
    ensures RoundsMean(a, s) && RoundsMean(b, s) ==> a == b
  {
  }

  /**
    `round(mean(samples))`, or None when there are no samples (the
    StatisticsError the source catches). The result lies between the
    smallest and the largest sample.
   */
  function RoundedMean(s: seq<int>): (r: Option<int>)
    ensures r.None? <==> |s| == 0
    ensures r.Some? ==> RoundsMean(r.value, s)
    ensures r.Some? ==> exists i :: 0 <= i < |s| && s[i] <= r.value
    ensures r.Some? ==> exists j :: 0 <= j < |s| && r.value <= s[j]
  {
    if |s| == 0 then None
    else
      RoundedMeanBetweenSamples(s);
      Some(RoundHalfEven(Mean(ToReals(s))))
  }

  /** Rounding the mean of integer samples stays between the least and the greatest sample. */
  lemma RoundedMeanBetweenSamples(s: seq<int>)
    requires |s| > 0
    ensures exists i :: 0 <= i < |s| && s[i] <= RoundHalfEven(Mean(ToReals(s)))
    ensures exists j :: 0 <= j < |s| && RoundHalfEven(Mean(ToReals(s))) <= s[j]
  {
    var xs := ToReals(s);
    var i := IndexOf(xs, Min(xs));
    var j := IndexOf(xs, Max(xs));
    RoundWithin(Mean(xs), s[i], s[j]);
  }

  function IndexOf(xs: seq<real>, x: real): (i: nat)
    requires x in xs
    ensures i < |xs| && xs[i] == x
  {
    if xs[0] == x then 0 else 1 + IndexOf(xs[1..], x)
  }

  /** The rounded mean of samples that all lie in `[lo, hi]` lies there too. */
  lemma RoundedMeanWithin(s: seq<int>, lo: int, hi: int)
    ensures (forall i :: 0 <= i < |s| ==> lo <= s[i] <= hi) && RoundedMean(s).Some? ==>
      lo <= RoundedMean(s).value <= hi
  {
    if |s| > 0 {
      var r := RoundedMean(s).value;
      var i :| 0 <= i < |s| && s[i] <= r;
      var j :| 0 <= j < |s| && r <= s[j];
    }
  }

  lemma RoundedMeanAtMost(s: seq<int>, hi: int)
    ensures (forall i :: 0 <= i < |s| ==> s[i] <= hi) && RoundedMean(s).Some? ==> RoundedMean(s).value <= hi
  {
    if |s| > 0 {
      var r := RoundedMean(s).value;
      var j :| 0 <= j < |s| && r <= s[j];
    }
  }

  /** `battery_percentage`. */
  function BatteryPercentage(d: SensorDevice): (r: Option<int>)
    ensures r.None? <==> |d.samples.batteryPercentages| == 0
    ensures r.Some? ==> RoundsMean(r.value, d.samples.batteryPercentages)
    ensures Valid(d) && r.Some? ==> 0 <= r.value <= 100
  {
    RoundedMeanWithin(d.samples.batteryPercentages, 0, 100);
    RoundedMean(d.samples.batteryPercentages)
  }

  /** `battery_millivolts`. */
  function BatteryMillivolts(d: SensorDevice): (r: Option<int>)
    ensures r.None? <==> |d.samples.batteryMillivolts| == 0
    ensures r.Some? ==> RoundsMean(r.value, d.samples.batteryMillivolts)
    ensures r.Some? ==> exists i :: 0 <= i < |d.samples.batteryMillivolts| && d.samples.batteryMillivolts[i] <= r.value
    ensures r.Some? ==> exists j :: 0 <= j < |d.samples.batteryMillivolts| && r.value <= d.samples.batteryMillivolts[j]
  {
    RoundedMean(d.samples.batteryMillivolts)
  }

  /** `rssi`: negative whenever the device invariant holds. */
  function Rssi(d: SensorDevice): (r: Option<int>)
    ensures r.None? <==> |d.samples.rssi| == 0
    ensures r.Some? ==> RoundsMean(r.value, d.samples.rssi)
    ensures r.Some? ==> exists i :: 0 <= i < |d.samples.rssi| && d.samples.rssi[i] <= r.value
    ensures r.Some? ==> exists j :: 0 <= j < |d.samples.rssi| && r.value <= d.samples.rssi[j]
    ensures Valid(d) && r.Some? ==> r.value < 0
  {
    RoundedMeanAtMost(d.samples.rssi, -1);
    RoundedMean(d.samples.rssi)
  }

  /** Each averaged readout is exactly the rounded mean of its samples. */
  lemma ReadoutsAreRoundedMeans(d: SensorDevice)
    ensures BatteryPercentage(d) == RoundedMean(d.samples.batteryPercentages)
    ensures BatteryMillivolts(d) == RoundedMean(d.samples.batteryMillivolts)
    ensures Rssi(d) == RoundedMean(d.samples.rssi)
  {
    if BatteryPercentage(d).Some? {
      RoundsMeanUnique(BatteryPercentage(d).value, RoundedMean(d.samples.batteryPercentages).value, d.samples.batteryPercentages);
    }
    if BatteryMillivolts(d).Some? {
      RoundsMeanUnique(BatteryMillivolts(d).value, RoundedMean(d.samples.batteryMillivolts).value, d.samples.batteryMillivolts);
    }
    if Rssi(d).Some? {
      RoundsMeanUnique(Rssi(d).value, RoundedMean(d.samples.rssi).value, d.samples.rssi);
    }
  }

  /** `round(x, decimal_places)` when rounding is configured. */
  function Rounded(d: SensorDevice, x: real): (r: real)
    ensures d.decimalPlaces.None? ==> r == x
    ensures d.decimalPlaces.Some? ==> CloseAtPlaces(r, x, d.decimalPlaces.value) && HasPlaces(r, d.decimalPlaces.value)
  {
    if d.decimalPlaces.Some? then RoundTo(x, d.decimalPlaces.value) else x
  }

  /** A temperature as published: converted to Fahrenheit when so configured, then rounded. */
  function PresentTemperature(d: SensorDevice, celsius: real): (r: real)
    ensures d.decimalPlaces.None? && !d.reportFahrenheit ==> r == celsius
    ensures d.decimalPlaces.None? && d.reportFahrenheit ==> r == CelsiusToFahrenheit(celsius)
    ensures d.decimalPlaces.Some? ==>
      CloseAtPlaces(r, if d.reportFahrenheit then CelsiusToFahrenheit(celsius) else celsius, d.decimalPlaces.value)
    ensures d.decimalPlaces.Some? ==> HasPlaces(r, d.decimalPlaces.value)
  {
    Rounded(d, if d.reportFahrenheit then CelsiusToFahrenheit(celsius) else celsius)
  }

  /** `mean_temperature`. */
  function MeanTemperature(d: SensorDevice): (r: Option<real>)
    ensures r.None? <==> |d.samples.temperatures| == 0
    ensures r.Some? && d.decimalPlaces.None? && !d.reportFahrenheit ==>
      Min(d.samples.temperatures) <= r.value <= Max(d.samples.temperatures)
    ensures r.Some? && d.decimalPlaces.None? && d.reportFahrenheit ==>
      CelsiusToFahrenheit(Min(d.samples.temperatures)) <= r.value <= CelsiusToFahrenheit(Max(d.samples.temperatures))
    ensures r.Some? && d.decimalPlaces.None? ==>
      var m := Mean(d.samples.temperatures);
      r.value == if d.reportFahrenheit then CelsiusToFahrenheit(m) else m
    ensures r.Some? && d.decimalPlaces.Some? ==>
      var m := Mean(d.samples.temperatures);
      CloseAtPlaces(r.value, if d.reportFahrenheit then CelsiusToFahrenheit(m) else m, d.decimalPlaces.value)
    ensures r.Some? && d.decimalPlaces.Some? ==> HasPlaces(r.value, d.decimalPlaces.value)
  {
    if |d.samples.temperatures| == 0 then None
    else
      var m := Mean(d.samples.temperatures);
      CelsiusToFahrenheitMonotone(Min(d.samples.temperatures), m);
      CelsiusToFahrenheitMonotone(m, Max(d.samples.temperatures));
      Some(PresentTemperature(d, m))
  }

  /** `median_temperature`. */
  function MedianTemperature(d: SensorDevice): (r: Option<real>)
    ensures r.None? <==> |d.samples.temperatures| == 0
    ensures r.Some? && d.decimalPlaces.None? && !d.reportFahrenheit ==>
      Min(d.samples.temperatures) <= r.value <= Max(d.samples.temperatures)
    ensures r.Some? && d.decimalPlaces.None? && d.reportFahrenheit ==>
      CelsiusToFahrenheit(Min(d.samples.temperatures)) <= r.value <= CelsiusToFahrenheit(Max(d.samples.temperatures))
    ensures r.Some? && d.decimalPlaces.None? ==>
      var m := Median(d.samples.temperatures);
      r.value == if d.reportFahrenheit then CelsiusToFahrenheit(m) else m
    ensures r.Some? && d.decimalPlaces.Some? ==>
      var m := Median(d.samples.temperatures);
      CloseAtPlaces(r.value, if d.reportFahrenheit then CelsiusToFahrenheit(m) else m, d.decimalPlaces.value)
    ensures r.Some? && d.decimalPlaces.Some? ==> HasPlaces(r.value, d.decimalPlaces.value)
  {
    if |d.samples.temperatures| == 0 then None
    else
      var m := Median(d.samples.temperatures);
      CelsiusToFahrenheitMonotone(Min(d.samples.temperatures), m);
      CelsiusToFahrenheitMonotone(m, Max(d.samples.temperatures));
      Some(PresentTemperature(d, m))
  }

  /** `mean_humidity`: never converted, rounded when so configured. */
  function MeanHumidity(d: SensorDevice): (r: Option<real>)
    ensures r.None? <==> |d.samples.humidities| == 0
    ensures r.Some? && d.decimalPlaces.None? ==>
      Min(d.samples.humidities) <= r.value <= Max(d.samples.humidities)
    ensures r.Some? && d.decimalPlaces.None? ==> r.value == Mean(d.samples.humidities)
    ensures r.Some? && d.decimalPlaces.Some? ==>
      CloseAtPlaces(r.value, Mean(d.samples.humidities), d.decimalPlaces.value)
    ensures r.Some? && d.decimalPlaces.Some? ==> HasPlaces(r.value, d.decimalPlaces.value)
  {
    if |d.samples.humidities| == 0 then None
    else Some(Rounded(d, Mean(d.samples.humidities)))
  }

  /** `median_humidity`: never converted, rounded when so configured. */
  function MedianHumidity(d: SensorDevice): (r: Option<real>)
    ensures r.None? <==> |d.samples.humidities| == 0
    ensures r.Some? && d.decimalPlaces.None? ==>
      Min(d.samples.humidities) <= r.value <= Max(d.samples.humidities)
    ensures r.Some? && d.decimalPlaces.None? ==> r.value == Median(d.samples.humidities)
    ensures r.Some? && d.decimalPlaces.Some? ==>
      CloseAtPlaces(r.value, Median(d.samples.humidities), d.decimalPlaces.value)
    ensures r.Some? && d.decimalPlaces.Some? ==> HasPlaces(r.value, d.decimalPlaces.value)
  {
    if |d.samples.humidities| == 0 then None
    else Some(Rounded(d, Median(d.samples.humidities)))
  }

  /** Unrounded humidity averages of a valid device lie within the humidity range. */
  lemma HumidityAveragesInRange(d: SensorDevice)
    requires Valid(d) && d.decimalPlaces.None? && |d.samples.humidities| > 0
    ensures HumidityMin <= MeanHumidity(d).value <= HumidityMax
    ensures HumidityMin <= MedianHumidity(d).value <= HumidityMax
  {
    MeanWithin(d.samples.humidities, HumidityMin, HumidityMax);
    MedianWithin(d.samples.humidities, HumidityMin, HumidityMax);
  }

  /** Unrounded Celsius temperature averages of a valid device lie within the configured range. */
  lemma TemperatureAveragesInRange(d: SensorDevice)
    requires Valid(d) && d.decimalPlaces.None? && !d.reportFahrenheit && |d.samples.temperatures| > 0
    ensures d.tempRangeMin <= MeanTemperature(d).value <= d.tempRangeMax
    ensures d.tempRangeMin <= MedianTemperature(d).value <= d.tempRangeMax
  {
    MeanWithin(d.samples.temperatures, d.tempRangeMin, d.tempRangeMax);
    MedianWithin(d.samples.temperatures, d.tempRangeMin, d.tempRangeMax);
  }
}
