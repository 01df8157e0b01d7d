# moat_temp_hum_ble in Dafny

A model of the core of the `moat_temp_hum_ble` Home Assistant integration.
The integration listens for Bluetooth Low Energy advertising reports from Moat
and Govee thermometer/hygrometers. It decodes the temperature, humidity and
battery readings they carry. It collects those readings per configured device
over one reporting period, then publishes means or medians to the device's
entities and resets the device.

The model has three parts, one per source file of the core:

- **The advertisement parser** (`temp_hum_advertisement_parser.py`).
  - `Bytes` holds the byte helpers: two's complement, little-endian words, lower-case hex strings, MAC rendering.
  - `Gap` holds the walk over the length-prefixed GAP records of an HCI advertising report. It includes the exception path: an empty Flags payload or a non-ASCII name abandons the whole advertisement.
  - `Vendor` holds the signature table (payload length, Flags value, service UUID) and the per-model decoders.
  - `Parser` puts them together in `ParseBleAdvertisement`. It also has a report builder: parsing a built report is proved to give back what was put in.
- **`SensorDevice`** (`sensor_device.py`), as the immutable value `Device.SensorDevice`. This covers spike rejection in `update`, the per-period sample lists, `reset`, and the mean, median and rounding read-outs. `Numbers` holds the statistics and rounding they use: `statistics.mean`, `statistics.median`, Python's half-even `round`, `int()` truncation and `str(int)`.
- **The integration glue in `sensor.py`** (`Dispatch`):
  - `handle_meta_event`: match the report's address against each configured device, parse it, update the device, append the RSSI;
  - the entity creation order of `init_wrapper`;
  - the read-and-reset decision of `update_ble_devices`, including the entity-index cursor.
  - `Dispatch.Run` interleaves reports and ticks, and `Dispatch.RunKeepsFed` proves that every device stays valid throughout.

Python floats are modelled as exact reals. Bytes are integers in `0..255`.
The bleson library is outside this model. The parts of it the core uses are written out as assumptions:

- the GAP type codes are 0x01, 0x09, 0x16 and 0xFF;
- `EVT_LE_ADVERTISING_REPORT` is 0x02;
- `hex_string` is lower-case hex without separators;
- `rssi_from_byte` reads a signed 8-bit value;
- two `BDAddress` values are equal when their upper-case colon-hex strings are equal.

## Model

| member | source | states |
|---|---|---|
| Bytes.TwosComplement | custom_components/moat_temp_hum_ble/temp_hum_advertisement_parser.py:22-27 | a `w`-bit value maps into the signed range; it is unchanged exactly when its top bit is clear, and otherwise it is shifted down by `2^w` |
| Bytes.ReverseMac | custom_components/moat_temp_hum_ble/temp_hum_advertisement_parser.py:43-48 | absent exactly when the input is not 6 bytes; otherwise 17 characters, with octet `i` the upper-case hex of byte `5 - i` and colons between octets |
| Bytes.ReverseMacInjective | custom_components/moat_temp_hum_ble/temp_hum_advertisement_parser.py:43-48 | two 6-byte addresses rendered to the same MAC string are the same address |
| Bytes.LittleEndianToUnsigned | custom_components/moat_temp_hum_ble/temp_hum_advertisement_parser.py:51-52 | `little_endian_to_unsigned_int`: the value of `len` bytes read little-endian is below 256^len |
| Bytes.LittleEndianRoundTrip | custom_components/moat_temp_hum_ble/temp_hum_advertisement_parser.py:51-52 | re-encoding the decoded unsigned integer at the same width gives back the bytes |
| Bytes.UnsignedLittleEndianRoundTrip | custom_components/moat_temp_hum_ble/temp_hum_advertisement_parser.py:51-52 | decoding the encoding of a value that fits the width gives back the value |
| Bytes.LittleEndianWord | custom_components/moat_temp_hum_ble/temp_hum_advertisement_parser.py:151 | two bytes read little-endian are `lo + 256 * hi` |
| Bytes.Slice | custom_components/moat_temp_hum_ble/temp_hum_advertisement_parser.py:122 | Python slicing clamps to the buffer and never fails; the result's length and every element are given by the bounds |
| Bytes.ParseHexOfHexString | custom_components/moat_temp_hum_ble/temp_hum_advertisement_parser.py:165-166 | `int(hex_string(bs), 16)` never fails and is the big-endian value of `bs` |
| Gap.Records | custom_components/moat_temp_hum_ble/temp_hum_advertisement_parser.py:113-122 | the walk yields no record exactly when the cursor is at or past the byte before the RSSI; the first record sits at the cursor and has the length byte found there |
| Gap.RecordsReadInBounds | custom_components/moat_temp_hum_ble/temp_hum_advertisement_parser.py:113-122 | every record's length and type bytes lie inside the buffer, and its payload is the clamped slice after them |
| Gap.RecordsChained | custom_components/moat_temp_hum_ble/temp_hum_advertisement_parser.py:142 | each record starts `length + 1` bytes after the previous one, and the walk stops only once the next record would start at or after the final byte |
| Gap.ApplyRecord | custom_components/moat_temp_hum_ble/temp_hum_advertisement_parser.py:130-141 | a record fails exactly when it is an empty Flags record or a non-ASCII name; Flags sets the flags from the first payload byte; Service and Manufacturer Data replace the payload slot; any other type leaves the fields as they were |
| Gap.Scan | custom_components/moat_temp_hum_ble/temp_hum_advertisement_parser.py:113-142 | the loop over the buffer is the fold of the records over the fields |
| Gap.AbortIffMalformed | custom_components/moat_temp_hum_ble/temp_hum_advertisement_parser.py:200-201 | the advertisement is abandoned exactly when one of its records is malformed |
| Gap.FlagsKeptWithoutFlagsRecord | custom_components/moat_temp_hum_ble/temp_hum_advertisement_parser.py:104-142 | without a Flags record the flags keep their default |
| Gap.LastDataRecordWins | custom_components/moat_temp_hum_ble/temp_hum_advertisement_parser.py:136-141 | the payload slot holds the payload of the last Service or Manufacturer Data record, and is unset when there is none |
| Vendor.SignatureChecks | custom_components/moat_temp_hum_ble/temp_hum_advertisement_parser.py:203-237 | each `check_is_*` holds exactly when the payload has the model's length and Flags value and, where the model has one, its two-byte UUID |
| Vendor.ServiceUuidBytes | custom_components/moat_temp_hum_ble/temp_hum_advertisement_parser.py:231-237 | comparing the hex of the first two payload bytes with a UUID string is the same as comparing the bytes, given more than two bytes |
| Vendor.SelectLayout | custom_components/moat_temp_hum_ble/temp_hum_advertisement_parser.py:145-190 | each layout is chosen exactly when its signature (length, Flags value, leading UUID bytes) matches and the device has that layout's brand, so a Moat device only ever yields Moat S2; the Govee signatures never overlap, so the order of the checks does not change the result |
| Vendor.RescaleClamped | custom_components/moat_temp_hum_ble/temp_hum_advertisement_parser.py:55-63 | at or above the upper input bound the result is the upper output bound; at or below the lower input bound it is the lower output bound; strictly between, it lies in the output range |
| Vendor.RescaleClampedMonotone | custom_components/moat_temp_hum_ble/temp_hum_advertisement_parser.py:55-63 | the rescaling never decreases as its input grows |
| Vendor.MoatS2BatteryVoltageToPercentage | custom_components/moat_temp_hum_ble/temp_hum_advertisement_parser.py:66-70 | the estimate lies in 1..100; it is 1 at or below 2760 mV and 100 at or above 2820 mV |
| Vendor.MoatS2BatteryPercent | custom_components/moat_temp_hum_ble/temp_hum_advertisement_parser.py:159-161 | the percentage is the rescaled voltage truncated to a whole number, as `int()` does for a positive value. It lies in 1..100 with the same end points |
| Vendor.MoatS2Temperature | custom_components/moat_temp_hum_ble/temp_hum_advertisement_parser.py:150-152 | every 16-bit raw value gives a temperature in [-46.85, 128.87) |
| Vendor.MoatS2Humidity | custom_components/moat_temp_hum_ble/temp_hum_advertisement_parser.py:153-155 | every 16-bit raw value gives a humidity in [-6, 119) |
| Vendor.DecodeMoatS2 | custom_components/moat_temp_hum_ble/temp_hum_advertisement_parser.py:150-162 | temperature, humidity and millivolts come from payload bytes 12-13, 14-15 and 16-17 read little-endian. The battery comes from the millivolts. The packet is the hex text of bytes 8..17, 20 characters long. There is no model name |
| Vendor.GoveeTempTenths | custom_components/moat_temp_hum_ble/temp_hum_advertisement_parser.py:30-37 | with the sign bit set the tenths are not positive, and otherwise not negative |
| Vendor.DecodeGoveeTemp | custom_components/moat_temp_hum_ble/temp_hum_advertisement_parser.py:30-37 | the temperature's sign follows bit 0x800000 |
| Vendor.GoveeTempIgnoresLastDigits | custom_components/moat_temp_hum_ble/temp_hum_advertisement_parser.py:34-37 | the last three decimal digits (the humidity) never affect the temperature |
| Vendor.GoveeRoundTrip | custom_components/moat_temp_hum_ble/temp_hum_advertisement_parser.py:164-170 | packing tenths of a degree and tenths of a percent as the sensor does, then decoding, gives back both values, negative temperatures included |
| Vendor.GoveeHumidityAsWrittenWrongWhenNegative | custom_components/moat_temp_hum_ble/temp_hum_advertisement_parser.py:168 | `packet % 1000` recovers the humidity for non-negative temperatures and misses it for every negative one |
| Vendor.GoveeHumidityCounterexample | custom_components/moat_temp_hum_ble/temp_hum_advertisement_parser.py:168 | -5.0 °C at 50.0 % packs to 8439108, which the code as written reads as 10.8 % |
| Vendor.DecodeGoveePacked | custom_components/moat_temp_hum_ble/temp_hum_advertisement_parser.py:164-177 | the packet is the big-endian value of the three bytes at the model's offset. The temperature is decoded from it with its sign bit. The humidity is `packet % 1000` tenths, sign bit included, as written. The battery is the following byte, and the model name is set |
| Vendor.DecodeGoveePackedIntended | custom_components/moat_temp_hum_ble/temp_hum_advertisement_parser.py:164-177 | the corrected decoder reads the humidity with the sign bit cleared. It agrees with `DecodeGoveePacked` in every other field, and agrees fully whenever the sign bit is clear |
| Vendor.DecodeGoveeH5074H5051 | custom_components/moat_temp_hum_ble/temp_hum_advertisement_parser.py:178-188 | the digit-swapped hex strings decode to the two's-complement little-endian temperature in hundredths and the little-endian humidity in hundredths; the packet is the swapped hex; the battery is byte 7 |
| Vendor.SwappedWordsHex | custom_components/moat_temp_hum_ble/temp_hum_advertisement_parser.py:179-182 | swapping the hex digit pairs of a word is the hex of the word's bytes swapped |
| Vendor.HexWordValue | custom_components/moat_temp_hum_ble/temp_hum_advertisement_parser.py:183-186 | `int(..., 16)` of the swapped pair never fails and is the little-endian 16-bit value |
| Vendor.DecodeLayout | custom_components/moat_temp_hum_ble/temp_hum_advertisement_parser.py:145-190 | each layout reads its own bytes. Moat S2 reads words 12-13, 14-15 and 16-17 and has the hex of bytes 8..17 as its packet. H5072/H5075 reads the packed value from bytes 3..5 and the battery from byte 6. H5101/H5102 reads them from bytes 4..6 and byte 7. H5074/H5051 reads words 3-4 and 5-6 and the battery from byte 7. Millivolts are present exactly for Moat S2, and a model name exactly for the Govee layouts |
| Parser.RssiFromByte | custom_components/moat_temp_hum_ble/temp_hum_advertisement_parser.py:102 | the RSSI lies in -128..127, agrees with the byte modulo 256, and equals the byte exactly when the byte is below 128 |
| Parser.Measurement | custom_components/moat_temp_hum_ble/temp_hum_advertisement_parser.py:144-190 | a measurement is decoded exactly when the walk finished and a layout matched; millivolts exactly for Moat, a model name exactly for Govee |
| Parser.ParseBleAdvertisement | custom_components/moat_temp_hum_ble/temp_hum_advertisement_parser.py:85-201 | parsing never fails. The MAC is present exactly when there are at least 9 bytes; the RSSI is absent exactly for an empty buffer; the walk is abandoned exactly for an empty buffer or a malformed record; a reading is present exactly when the walk finished and a layout matched. The reading is the layout decode of the scan, and for a non-empty buffer the scan is the record walk over the whole buffer |
| Parser.ReportRoundTrip | custom_components/moat_temp_hum_ble/temp_hum_advertisement_parser.py:85-142 | parsing a built report gives back its address, its RSSI byte as a signed value, its flags and its payload |
| Parser.GoveeReportDecodes | custom_components/moat_temp_hum_ble/temp_hum_advertisement_parser.py:163-170 | a built Govee H5072/H5075 report, parsed for a Govee device, gives back the packed temperature, the battery byte and the model name. The packed humidity comes back when the temperature is not negative. Below zero it comes back shifted by 608 tenths, modulo 1000 |
| Parser.GoveePayloadDecodesIntended | custom_components/moat_temp_hum_ble/temp_hum_advertisement_parser.py:163-170 | the corrected decoder gives back the packed temperature, humidity and battery byte of a built H5072/H5075 payload, for either sign of temperature |
| Parser.GoveeReportLayout | custom_components/moat_temp_hum_ble/temp_hum_advertisement_parser.py:163-170 | a built report whose payload carries the H5072/H5075 signature, parsed for a Govee device, is decoded with that layout |
| Parser.MoatReportLayout | custom_components/moat_temp_hum_ble/temp_hum_advertisement_parser.py:145-162 | a built report whose payload carries the Moat S2 signature, parsed for a Moat device, is decoded with that layout |
| Parser.MoatReportDecodes | custom_components/moat_temp_hum_ble/temp_hum_advertisement_parser.py:145-162 | a built Moat S2 report for a Moat device decodes to the converted raw temperature and humidity, the millivolts and the derived percentage |
| Numbers.Mean | custom_components/moat_temp_hum_ble/sensor_device.py:154 | the mean of a non-empty list lies between its least and greatest element |
| Numbers.MeanWithin | custom_components/moat_temp_hum_ble/sensor_device.py:180 | when every sample lies in a range, so does their mean |
| Numbers.Sort | custom_components/moat_temp_hum_ble/sensor_device.py:167 | the order median takes is ascending and a permutation of the samples |
| Numbers.Median | custom_components/moat_temp_hum_ble/sensor_device.py:167 | the median lies between the least and greatest element |
| Numbers.SortPermutationsAgree | custom_components/moat_temp_hum_ble/sensor_device.py:167 | two arrival orders of the same samples sort to the same sequence |
| Numbers.MedianOrderIndependent | custom_components/moat_temp_hum_ble/sensor_device.py:167 | the median depends only on the multiset of samples, not on their arrival order |
| Numbers.MedianWithin | custom_components/moat_temp_hum_ble/sensor_device.py:191 | when every sample lies in a range, so does their median |
| Numbers.RoundHalfEven | custom_components/moat_temp_hum_ble/sensor_device.py:125 | `round` gives an integer within one half of its input, and the even one on a tie |
| Numbers.RoundTo | custom_components/moat_temp_hum_ble/sensor_device.py:160 | `round(x, n)` is within half a unit in the n-th place of `x`, and has no more than `n` places |
| Numbers.Trunc | custom_components/moat_temp_hum_ble/temp_hum_advertisement_parser.py:159 | `int()` truncates toward zero |
| Numbers.CelsiusToFahrenheitMonotone | custom_components/moat_temp_hum_ble/sensor_device.py:157-158 | the conversion to Fahrenheit keeps order |
| Numbers.NatDigitsRoundTrip | custom_components/moat_temp_hum_ble/sensor_device.py:223 | the decimal digits `str` gives an integer packet read back to the packet |
| Device.CreateDevice | custom_components/moat_temp_hum_ble/sensor_device.py:49-58 | a new device holds the given MAC and parameters and no samples |
| Device.Reset | custom_components/moat_temp_hum_ble/sensor_device.py:60-68 | reset clears every sample list, the count and the raw data, and keeps the configuration |
| Device.SetDecimalPlaces | custom_components/moat_temp_hum_ble/sensor_device.py:82-86 | a non-negative value is stored and a negative one is ignored; nothing else changes |
| Device.Description | custom_components/moat_temp_hum_ble/sensor_device.py:88-91 | the description falls back to the MAC when none is set |
| Device.SetDescription | custom_components/moat_temp_hum_ble/sensor_device.py:93-97 | a string becomes the description and anything else is ignored; nothing else changes |
| Device.RawDataString | custom_components/moat_temp_hum_ble/sensor_device.py:223 | `str(packet)` is "None" for no packet, the text of a text packet, and a non-empty digit string for an integer packet |
| Device.RawDataStringOfIntPacket | custom_components/moat_temp_hum_ble/sensor_device.py:223 | the raw data of an integer packet reads back to the packet |
| Device.Update | custom_components/moat_temp_hum_ble/sensor_device.py:198-224 | a temperature is appended exactly when it lies in the device's range; a humidity exactly when it lies in 0..99.9; a battery percentage exactly when it lies in 0..100; millivolts whenever present. The count grows by one, the raw data becomes `str(packet)`, and the RSSI samples and configuration are untouched |
| Device.UpdatePreservesValid | custom_components/moat_temp_hum_ble/sensor_device.py:198-224 | after any update every stored sample still lies in its accepted range, no list outgrows the count, and raw data is present exactly when the count is positive |
| Device.UpdateAllTemperatures | custom_components/moat_temp_hum_ble/sensor_device.py:201-205 | after a run of updates the temperatures are the earlier ones followed by exactly the in-range ones, in arrival order |
| Device.UpdateAllHumidities | custom_components/moat_temp_hum_ble/sensor_device.py:207-211 | likewise for humidities in 0..99.9 |
| Device.UpdateAllCounts | custom_components/moat_temp_hum_ble/sensor_device.py:223-224 | a run of updates adds its length to the count and leaves the RSSI samples alone |
| Device.AppendRssi | custom_components/moat_temp_hum_ble/sensor_device.py:145-148 | a negative RSSI is appended; anything else, absence included, leaves the device unchanged; validity is kept |
| Device.RoundedMean | custom_components/moat_temp_hum_ble/sensor_device.py:121-143 | the result is `round(mean(samples))`: the integer within half a unit of the mean, with ties going to the even one. It is absent exactly when there are no samples, and lies between the least and greatest sample |
| Device.RoundedMeanWithin | custom_components/moat_temp_hum_ble/sensor_device.py:121-143 | when every sample lies in a range, so does the rounded mean |
| Device.BatteryPercentage | custom_components/moat_temp_hum_ble/sensor_device.py:121-127 | `round(mean(...))` of the collected percentages: within half a unit of their mean, and even on a tie. Absent exactly when none was collected; for a valid device it lies in 0..100 |
| Device.BatteryMillivolts | custom_components/moat_temp_hum_ble/sensor_device.py:129-135 | `round(mean(...))` of the collected voltages: within half a unit of their mean, and even on a tie. Absent exactly when none was collected; otherwise between the least and greatest voltage |
| Device.Rssi | custom_components/moat_temp_hum_ble/sensor_device.py:137-143 | `round(mean(...))` of the collected RSSI values: within half a unit of their mean, and even on a tie. Absent exactly when none was collected; otherwise between the least and greatest value, and negative for a valid device |
| Device.ReadoutsAreRoundedMeans | custom_components/moat_temp_hum_ble/sensor_device.py:121-143 | the battery percentage, battery voltage and RSSI readouts equal `RoundedMean` of their samples, because at most one integer rounds a given mean |
| Device.Rounded | custom_components/moat_temp_hum_ble/sensor_device.py:159-160 | without rounding the value passes through; with `n` places the result is within half a unit in the n-th place and has at most `n` places |
| Device.PresentTemperature | custom_components/moat_temp_hum_ble/sensor_device.py:157-160 | Fahrenheit conversion applies when configured, before rounding. The rounded value has at most the configured number of places |
| Device.MeanTemperature | custom_components/moat_temp_hum_ble/sensor_device.py:150-161 | absent exactly when there are no temperatures. Without decimal places it is exactly the mean, converted to Fahrenheit when so configured, and lies between the converted extreme samples. With decimal places set, it is within half a unit at that place of the converted mean, and has at most that many places |
| Device.MedianTemperature | custom_components/moat_temp_hum_ble/sensor_device.py:163-174 | the same for the median. It is absent exactly when there are no temperatures and is exactly the converted median when unrounded. Otherwise it is within half a unit at the set place of the converted median, and has at most that many places |
| Device.MeanHumidity | custom_components/moat_temp_hum_ble/sensor_device.py:176-185 | absent exactly when there are no humidities. Unrounded, it is exactly the mean and lies between the extreme samples. Rounded, it is within half a unit at the set place of the mean, and has at most that many places |
| Device.MedianHumidity | custom_components/moat_temp_hum_ble/sensor_device.py:187-196 | the same for the median: exactly the median when unrounded, and within half a unit at the set place, with at most that many places, when rounded |
| Device.HumidityAveragesInRange | custom_components/moat_temp_hum_ble/sensor_device.py:176-196 | for a valid device the unrounded mean and median humidity lie in 0..99.9 |
| Device.TemperatureAveragesInRange | custom_components/moat_temp_hum_ble/sensor_device.py:150-174 | for a valid Celsius device the unrounded mean and median temperature lie in the configured range |
| Dispatch.AddressMatchesUnique | custom_components/moat_temp_hum_ble/sensor.py:96-101 | a configured MAC matches reports only when their address bytes 3..8 are the same |
| Dispatch.ProcessReport | custom_components/moat_temp_hum_ble/sensor.py:105-117 | a matched report counts as a measurement exactly when it decoded one, and sets the raw data from its packet. Without one, only the RSSI samples may change. A negative RSSI is appended either way. The device is updated with exactly the parsed reading, and then the parsed RSSI is appended |
| Dispatch.ProcessReportKeepsFed | custom_components/moat_temp_hum_ble/sensor.py:105-117 | processing a report keeps the device valid and any raw data it holds non-empty |
| Dispatch.HandleMetaEvent | custom_components/moat_temp_hum_ble/sensor.py:90-117 | a meta event other than an advertising report changes nothing; otherwise exactly the devices whose MAC matches process the report, and entities and brands never change |
| Dispatch.LayoutOver | custom_components/moat_temp_hum_ble/sensor.py:143-153 | a kind is created exactly when it is among the candidates and its switch is on |
| Dispatch.LayoutOverOrdered | custom_components/moat_temp_hum_ble/sensor.py:143-153 | the created entities keep the fixed temperature, humidity, RSSI, battery, sample-count order |
| Dispatch.EntityLayout | custom_components/moat_temp_hum_ble/sensor.py:143-153 | each entity kind exists exactly when its switch is on, in the fixed order |
| Dispatch.InitWrapper | custom_components/moat_temp_hum_ble/sensor.py:137-155 | the new wrapper has the configured MAC and name, falling back to the MAC, no samples, and the configured entities and brand |
| Dispatch.FlushOverAgrees | custom_components/moat_temp_hum_ble/sensor.py:174-207 | the k-th state write lands at cursor + k, on the k-th created kind, with that kind's value |
| Dispatch.EntityIndexAgreement | custom_components/moat_temp_hum_ble/sensor.py:174-207 | every entity is written exactly once, at its own index, with the value for its kind |
| Dispatch.PrimaryStates | custom_components/moat_temp_hum_ble/sensor.py:177-192 | the temperature and humidity entities get the medians when `use_median` is set and the means otherwise |
| Dispatch.TickWrapper | custom_components/moat_temp_hum_ble/sensor.py:166-220 | with raw data, the states are written and the device is reset; without, the device is left alone so its RSSI samples carry over; entities, brand and configuration never change |
| Dispatch.TickResetsIffUpdated | custom_components/moat_temp_hum_ble/sensor.py:172-220 | for a device fed through the parser, a tick publishes and resets exactly when a measurement arrived this period |
| Dispatch.UpdateBleDevices | custom_components/moat_temp_hum_ble/sensor.py:159-220 | each device with raw data ends the tick empty, each other device is untouched, and the configuration, brand and entities are kept |
| Dispatch.RunKeepsFed | custom_components/moat_temp_hum_ble/sensor.py:90-220 | any interleaving of reports and ticks keeps every device valid and the number of devices fixed |
| Dispatch.InitialWrappersFed | custom_components/moat_temp_hum_ble/sensor.py:137-155 | freshly created devices start valid |

## Left out

- Home Assistant glue is left out: platform setup, configuration schema, entity classes, `async_schedule_update_ha_state`, the update loop's timer and the BLE scanner start-up. The model keeps only the entity kinds, their order and the state each is given.
- The state-attribute dictionaries written in `update_ble_devices` (mean, median, last raw data, rssi, battery level, battery mV, sample count) are not modelled. They are side channels read from the same device accessors that the modelled states use.
- Logging is not modelled, and `log_spikes` is stored but changes nothing.
- The HCI poller thread and the timer run concurrently in the integration. Here they are interleaved one event at a time, with no locking.
- Floats are not modelled: all arithmetic is exact over the reals, and `round` is exact half-even on reals. Binary rounding error in the Moat conversions, in `celsius_to_fahrenheit` and in `round(x, n)` is not represented.
- The bleson library is not part of this model. Its constants, `hex_string`, `rssi_from_byte` and `BDAddress` are written out as stated above. A report shorter than 9 bytes is taken never to match a configured MAC.
- An empty buffer is left out in one respect. There, `data[-1]` raises after `mac` is set (to None) and before any other attribute, so the source leaves `rssi` and `packet` unset. `Parser.ParseBleAdvertisement` reports the MAC as None and both others as absent. Such a buffer never reaches the parser through `handle_meta_event`, because it cannot match an address.
- The `name` the parser extracts is kept in the scan result, but nothing downstream reads it.
- Per-device calibration offsets are not modelled. The configuration constants name them, but neither `sensor.py` nor `sensor_device.py` applies them.
- The Govee layouts are recognised at payload lengths 8, 8, 9 and 11 bytes, the lengths the `check_is_*` predicates test (temp_hum_advertisement_parser.py:203-221).
- `temp_range_min`/`temp_range_max` are typed `int` in the source. They are reals here, so that temperatures compare against them directly.

## Findings

| source | as written | input that shows it | evidently intended | confidence | as-written member | corrected member |
|---|---|---|---|---|---|---|
| custom_components/moat_temp_hum_ble/temp_hum_advertisement_parser.py:168 | `humidity = (packet % 1000) / 10.0`, taken with the sign bit 0x800000 still set | -5.0 °C at 50.0 % packs to 0x800000 + 50500 = 8439108, which reads back as 10.8 % | clear the sign bit before taking `% 1000`, as `decode_govee_temp` does for the temperature; the same holds at line 175 | not executed | Vendor.GoveeHumidityAsWrittenWrongWhenNegative | Parser.GoveePayloadDecodesIntended |
