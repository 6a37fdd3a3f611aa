# System monitor applet: sensor data pipeline

A Dafny model of the data side of the Cinnamon system monitor applet: the value
formatters that turn byte counts, rates, percentages and temperatures into labels, the
bounded per-series history with its lazily rescanned minimum and maximum, the debounced
threshold warning, the sensor data provider that finds sensor lines in `sensors` output
and aggregates them every tick, and the thermal module built on it.

Modules, one per file:

- `Js` (js.dfy): the JavaScript semantics the pipeline leans on — `undefined` as `None`,
  truthiness of settings values, `startsWith`/`endsWith`, ASCII case-insensitive search,
  maximal character runs.
- `Units` (units.dfy): `determinatePrefix` with the exponent characterised as the floored
  logarithm, and `format`, `formatBytes`, `formatRate`, `formatPercent`, `formatThermal`,
  `formatRPM`. `toFixed` is a field of the formatter, left uninterpreted.
- `History` (history.dfy): `updateHistory`, `updateMinMax` and the module's `min`/`max`
  getters, over a store of all series plus the extremum tracker.
- `Warning` (warning.dfy): `checkWarning` with the shared and the indexed counter, and runs
  of ticks.
- `Sensors` (sensors.dfy): the adapter-section scan of `SensorDataProvider.init` and the
  tick `SensorDataProvider.getData`, with the data matcher as a parameter.
- `Thermal` (thermal.dfy): the thermal data matcher written out as a scanner, sensor names
  and core colours (`parseSensorLine`), start-up, the tick with its warning check
  (`parseResult`) and `onSettingsChanged`.
- `Scenario` (scenario.dfy): a worked example of the thermal provider: `sensors` output with
  a virtual adapter, whose reading must be ignored, followed by an ISA adapter with one core,
  taken through start-up, the settings hook and one tick.

The model follows the code as written, including where its behaviour is easy to misread:

- `getData` does not skip a sensor whose line is missing or does not match: reading the
  capture of a failed match throws, so the tick stops there. The sensors before it keep the
  values already saved; no aggregate is saved, `updateMinMax` does not run and the thermal
  warning check is not reached (`Sensors.GetData`, outcome `Threw`; `Thermal.Tick`, outcome
  `Aborted`).
- The warning counter is not held at 0 after it fires: every further tick over the
  threshold decrements it below 0. It still fires only once per breach, since it fires
  only on the step from 1 to 0 (`Warning.NoRepeatDuringBreach`).
- The prefix exponent is not clamped to the prefix table. The table `" KMGTEZY"` has no
  letter for peta, so the fifth power shows as `E`; values below 1 and from `base^8` on get
  the prefix `undefined` (`undefinedi` when binary).
- The extrema are rescanned over every series, the aggregate and all sensors alike, and
  the recorded index is the sample's position from the front of its series.
- `formatThermal` converts to Fahrenheit iff the unit setting is falsy but shows the ℃
  sign only for the exact setting `"celsius"`: any other truthy setting shows the Celsius
  number with the ℉ sign.
- A stored extremum of 0 counts as absent (`!this.min`), and the maximum rescan starts
  from 1; both are kept as written (`History.ZeroMinimumIsForgotten`,
  `History.MaximumRescanFloorsAtOne`).

## Model

| member | source | states |
|---|---|---|
| Units.Exponent | modules/__init__.js:101-103 | The floored logarithm: the exponent `k` puts `value / base^k` in `[1, base)`; it is non-negative iff the value is at least 1, and at most 0 below the base. |
| Units.ExponentIsLargest | modules/__init__.js:101-103 | For every natural `n`, `base^n <= value` iff `n <= k`: the exponent is the largest power of the base not above the value. |
| Units.ExponentUnique | modules/__init__.js:101-103 | No other integer exponent puts the scaled value in `[1, base)`. |
| Units.PrefixSymbol | modules/__init__.js:109-113 | The prefix is defined iff it is binary or the exponent indexes the table; for an exponent `k` in 0..7 it is the table's letter `k`, followed by "i" when binary; outside the table it reads `undefined` or "undefinedi". |
| Units.DeterminatePrefix | modules/__init__.js:89-118 | Values `<= 0` come back unchanged with an empty prefix, as do values in `[1, base)`; any positive value is scaled into `[1, base)`, scaling back by `base^k` restores it, and the prefix is the one for the floored exponent. |
| Units.PrefixTableRange | modules/__init__.js:89-118 | In `[1, base)` the prefix is empty; in `[base, base^8)` the exponent `k` is in 1..7 and the prefix is the table's letter `k` (K, M, G, T, E, Z, Y), followed by "i" when binary; below 1 or from `base^8` on it is `undefined`/"undefinedi". |
| Units.PetaShownAsExa | modules/__init__.js:17 | `2 * 1000^5` bytes scale to 2 with the letter E, because the table has no P. |
| Units.ShowsUnique | modules/__init__.js:89-118 | A value has only one way of being shown (`Shows`: unchanged with no prefix when not positive, otherwise as `x` in `[1, base)` with `x * base^k` equal to the value and the prefix for `k`, none for `k = 0`): the number and prefix are determined by the value and the base. |
| Units.DeterminatePrefixShows | modules/__init__.js:89-118 | The number and prefix `determinatePrefix` returns are the way the value is shown. |
| Units.FormatNumber | modules/__init__.js:52-54 | The label is the number rendered with two decimals. |
| Units.FormatBytes | modules/__init__.js:56-62 | The label is the shown number with one decimal, a space, the shown prefix and "B", where the value is shown with binary prefixes iff the byte unit is exactly "binary"; so non-positive counts print unscaled with a bare "B", binary sizes from 1 KiB up to the table's end get an "iB" unit, and decimal sizes below 1000 print unscaled. |
| Units.FormatRate | modules/__init__.js:64-87 | The label is the shown number with one decimal, a space, the shown prefix, "B" when the rate unit ends in "byte" and "bit" otherwise, "/s", a space and ▲ for a truthy direction or ▼ otherwise; the value shown is the rate times 8 iff the unit ends in "bit", with binary prefixes iff it starts with "binary". |
| Units.ByteRateIsBytesPerSecond | modules/__init__.js:56-87 | For a byte rate unit whose binary choice agrees with the byte unit, the rate label is exactly the byte label followed by "/s" and the arrow. |
| Units.FormatPercent | modules/__init__.js:120-123 | The label is a number `q` with `q * total == 100 * part`, printed with one decimal and "%". |
| Units.FormatThermal | modules/__init__.js:125-135 | A falsy unit setting converts to Fahrenheit with ℉; exactly "celsius" keeps Celsius with ℃; any other truthy setting keeps Celsius but shows ℉. |
| Units.FormatRpm | modules/__init__.js:137-139 | The label is the number rendered with no decimals followed by " RPM". |
| Units.Format | modules/__init__.js:30-50 | A tag outside number/bytes/rate/percent/thermal/rpm passes the value through unchanged, and every known tag produces its formatter's label; a missing percent total means 1. |
| History.TrimFront | modules/__init__.js:329-330 | Shifting from the front while the series is too long leaves exactly its last `n` samples. |
| History.UpdateHistory | modules/__init__.js:323-341 | A missing series changes nothing; otherwise only that series changes, to the last `graphSteps + 2` samples of old series plus the value, ending in the value; the minimum is replaced (index = new length) iff it is tracked and null, 0 or larger, and the maximum symmetrically. |
| History.EntriesAreRetained | modules/__init__.js:345-355 | The rescan's nested loops visit exactly the retained samples, each with its position in its series. |
| History.ScanMin | modules/__init__.js:344-356 | The minimum rescan finds null iff there is no sample, and otherwise the least sample, at its first occurrence in visiting order. |
| History.ScanMax | modules/__init__.js:358-370 | The maximum rescan finds a value of at least 1 that bounds every sample, index 0 when it stays 1, and otherwise the first occurrence of the greatest sample. |
| History.UpdateMinMax | modules/__init__.js:343-371 | Untracked extrema stay untracked; an age above 1 only counts down; an age reaching 0 rescans every series and takes exactly the value and index `ScanMin`/`ScanMax` find in visiting order: the minimum null iff all are empty and otherwise a retained lower bound, the maximum at least 1 and an upper bound. Samples are untouched. |
| History.ModuleMin | modules/__init__.js:251-253 | The getter returns the tracked minimum when it is truthy and 0 otherwise. |
| History.ModuleMax | modules/__init__.js:255-257 | The getter returns the tracked maximum when it is truthy and 1 otherwise. |
| History.UpdateHistoryKeepsBounds | modules/__init__.js:323-341 | Appending a non-zero sample keeps the tracked extrema bounding every retained sample. |
| History.UpdateMinMaxKeepsBounds | modules/__init__.js:343-371 | A countdown step or a rescan keeps the tracked extrema bounding every retained sample. |
| History.GettersEnclose | modules/__init__.js:251-257 | While the extrema bound the samples, every retained sample lies between the `min` and `max` getters. |
| History.ZeroMinimumIsForgotten | modules/__init__.js:332-335 | After samples 0 and 3 the tracked minimum is 3, because a stored 0 reads as absent. |
| History.MaximumRescanFloorsAtOne | modules/__init__.js:358-370 | A rescan over samples all below 1 yields the maximum 1. |
| Warning.CheckWarning | modules/__init__.js:373-391 | At or over the threshold the counter drops by one and a notification fires iff it reaches exactly 0; below it the counter resets to the warning time without notifying. |
| Warning.CheckWarningAt | modules/__init__.js:373-391 | With an index, only that counter changes, exactly as the shared counter would. |
| Warning.SustainedBreach | modules/__init__.js:373-385 | A run of over-threshold ticks counts down by one per tick and notifies exactly on the tick where the counter passes from 1 to 0. |
| Warning.SustainedBreachNotifiesOnce | modules/__init__.js:373-385 | From a fresh counter, a sustained breach notifies exactly once, on tick number `warningTime`. |
| Warning.SpentCountdownIsSilent | modules/__init__.js:373-385 | A counter at or below 0 never notifies during a run of over-threshold ticks, since only the step from 1 to 0 notifies. |
| Warning.RunSplit | modules/__init__.js:373-391 | A run of ticks splits at any point into two runs, the second continuing from the counter the first left. |
| Warning.NoRepeatDuringBreach | modules/__init__.js:373-391 | After a notification, a continued breach never notifies again; only a tick below the threshold rearms it. |
| Sensors.AdapterState | modules/__init__.js:434-439 | An adapter header sets the flag to whether the header lacks "virtual" in any case; any other line keeps it. |
| Sensors.ScanFrom | modules/__init__.js:431-443 | The loop from line `i` on hands over only line numbers at or after `i`, inside the output, whose lines the data matcher accepts. |
| Sensors.Scan | modules/__init__.js:431-443 | The whole scan hands over only line numbers inside the output whose lines the data matcher accepts. |
| Sensors.AdapterStateTracksSection | modules/__init__.js:434-439 | The flag the scan carries is exactly "the last adapter header so far lacks 'virtual' in any case". |
| Sensors.ScanSelects | modules/__init__.js:431-443 | The scan hands over exactly the matching lines of real adapter sections, in strictly increasing order. |
| Sensors.ReadPrefix | modules/__init__.js:453-458 | The readings obtained are those of the longest prefix of sensors whose lines exist and match, and the sensor after it has no reading. |
| Sensors.SaveData | modules/__init__.js:317-321 | Saving records the value under its series name and pushes it into that series' history. |
| Sensors.SaveReadings | modules/__init__.js:453-458 | Saving readings leaves the provider's sensor lists, notification counter and availability untouched and keeps the number of series. |
| Sensors.SaveReadingsData | modules/__init__.js:453-458 | Sensor `k`'s reading is recorded as series `k + 1`, and every other recorded value is kept. The keys afterwards are the old keys plus `1..|readings|`, so no other series is added. |
| Sensors.SaveReadingsKeys | modules/__init__.js:453-458 | Saving `n` readings adds exactly the keys `1..n` to the recorded values. |
| Sensors.SaveReadingsSeries | modules/__init__.js:453-458 | Series `k + 1` gains sensor `k`'s reading, bounded to its capacity; all other series are unchanged. |
| Sensors.Running | modules/__init__.js:460-465 | The running aggregate is null iff no sensor was read; then the least reading for "min", the greatest for "max", the sum for "avg", the first reading for any other mode. |
| Sensors.Aggregate | modules/__init__.js:460-469 | The saved aggregate is a least reading for "min", a greatest for "max", the mean for "avg", and the first sensor's reading otherwise. |
| Sensors.SaveAggregate | modules/__init__.js:471-473 | The aggregate goes to series 0, and the resulting store is exactly `updateMinMax` applied after pushing the aggregate into history 0; the extremum update leaves every series' samples unchanged. |
| Sensors.GetData | modules/__init__.js:449-474 | A tick throws iff some sensor's line is missing or does not match, and then at the first such sensor; it never touches the sensor lists. |
| Sensors.GetDataThrew | modules/__init__.js:453-458 | A tick that throws leaves exactly the provider that saving the readings before the failing sensor gives: no aggregate and no `updateMinMax`. |
| Sensors.GetDataDone | modules/__init__.js:453-473 | A complete tick records every reading under series `k + 1` and the aggregate under series 0. Its recorded values are exactly those the saved readings left with the aggregate under 0, so the keys are the old keys plus `0..|sensors|`. Its store is `updateMinMax` applied after pushing the aggregate into history 0 of the store the saved readings left. |
| Sensors.GetDataDoneSeries | modules/__init__.js:453-473 | A complete tick pushes the aggregate into history 0 and each reading into its sensor's history, keeping only the last capacity samples. |
| Sensors.GetDataKeepsBounds | modules/__init__.js:449-474 | While no reading and no aggregate is 0, a tick keeps the extrema bounding every retained sample. |
| Thermal.MatchAtSound | modules/thermal.js:21 | A match the scanner reports at a position is a signed decimal with a fraction followed by "°C". |
| Thermal.MatchAtComplete | modules/thermal.js:21 | Any such token at a position is the one the scanner reports there. |
| Thermal.FindFrom | modules/thermal.js:21 | The search reports the first position with a match, or none when no position has one. |
| Thermal.DecimalValue | modules/__init__.js:457 | The parsed capture is exactly the digits with the point removed, read as a whole number, divided by 10 to the number of fraction digits, and negated after a minus sign; so its magnitude lies in `[w, w + 1)` for the whole-number digits `w`. |
| Thermal.Find | modules/thermal.js:21 | A line yields a number iff it holds such a token, and the number is the value of the leftmost one. |
| Thermal.NoDegreeNoData | modules/thermal.js:21 | A line without the degree sign never yields a number. |
| Thermal.SensorName | modules/thermal.js:30 | The name is the first maximal run of non-colon characters of the line. |
| Thermal.MatchedLineHasName | modules/thermal.js:30 | Every line the matcher accepts has a name, so the name lookup never fails during the scan. |
| Thermal.CoreFrom | modules/thermal.js:31 | The search reports the first position where "core", optional white space and a digit match, ignoring ASCII case, or none. |
| Thermal.ColorRef | modules/thermal.js:31-36 | The colour reference is null iff the name has no such match, and otherwise the first match's digit mod 4 plus 1, always in 1..4. |
| Thermal.ParseSensorLine | modules/thermal.js:29-41 | A sensor line appends exactly one entry to each of the colour references, sensor line numbers, names and histories, and changes nothing else. |
| Thermal.ParseAll | modules/thermal.js:29-41 | Over several lines, the sensor list grows by the lines' numbers in order and the histories by one empty history each; the recorded values, extrema and counters are kept. |
| Thermal.ParseAllNames | modules/thermal.js:30-39 | Each recorded sensor keeps the name taken from its own line, in step with the sensor list. |
| Thermal.ParseAllColors | modules/thermal.js:31-36 | Each recorded sensor keeps the colour reference derived from its name, in step with the name list. |
| Thermal.ScanSensors | modules/__init__.js:419-443 | The scan's sensors are the scanned lines, each named from its own line and coloured from its name, with one empty history each after the aggregate's, no recorded values, the extrema unset and the warning counter at 0. |
| Thermal.ScanSensorsSelects | modules/__init__.js:431-443 | The recorded sensors are exactly the matching lines of real adapter sections, strictly increasing, with the per-sensor lists lined up. |
| Thermal.Init | modules/__init__.js:415-447 | The provider is unavailable iff there are no sensor lines or none was recorded; histories number one more than sensors and start empty; no values are recorded; the extrema start unset and bounded; the warning counter starts at 0. |
| Thermal.InitIsSilentUntilReset | modules/__init__.js:373-385 | From start-up's counter, a run of over-threshold ticks never notifies until a tick below the threshold resets the counter. |
| Thermal.Tick | modules/thermal.js:47-52 | A tick leaves exactly the provider `getData` on the output leaves, apart from the warning counter: the same store, recorded values and availability; it aborts iff a sensor read fails, at the sensor `getData` stops at, the first one without a reading; a complete tick saves the aggregate and, iff the warning is on, steps the shared counter on the aggregate and notifies as that step does; the per-sensor lists keep their shape. |
| Thermal.CelsiusOf | modules/thermal.js:58 | The conversion is the exact inverse of the formatter's Fahrenheit conversion. |
| Thermal.OnSettingsChanged | modules/thermal.js:54-60 | With the warning off nothing changes; with it on the counter resets to the warning time, and a falsy unit converts the threshold so that it reads back as the entered Fahrenheit value. |
| Thermal.ThresholdShownAsEntered | modules/thermal.js:57-58 | The converted threshold is formatted as the Fahrenheit value the user entered. |
| Scenario.CoreReading | modules/thermal.js:21 | In "Core 0: +45.0°C" the first match runs from position 8 (the sign) to 13, and it reads 45. |
| Scenario.VirtualReading | modules/thermal.js:21 | In "temp1: +40.0°C" the first match runs from position 7 (the sign) to 12, and it reads 40. |
| Scenario.OneTokenLine | modules/thermal.js:21 | In a line whose only `°` follows a five-character reading that comes after a space, every match starts at or after the reading and ends where it ends. The first match is that reading, and its value is that reading's value. |
| Scenario.CoreName | modules/thermal.js:30-36 | That line is named "Core 0" and takes colour 1. |
| Scenario.Scanned | modules/__init__.js:431-443 | A virtual adapter's line "temp1: +40.0°C" matches and reads 40. Yet when it comes before an ISA adapter's core line, only the core line (index 3) is recorded. |
| Scenario.VirtualAdapterIgnored | modules/__init__.js:415-447 | Start-up on that output yields one available sensor, line 3, named "Core 0" with colour 1. |
| Scenario.HotCoreNotifies | modules/thermal.js:47-60 | With the warning on, one tick of warning time and a 40 ℃ threshold, the first tick completes with aggregate 45 and notifies. |

## Left out

- Widgets (menu items, graphs, panel labels and their label substitution), the module's
  object wiring and prototype mixing, and the colour-setting parsing: user-interface
  plumbing with no effect on the data.
- Notification delivery through the message tray and its message text: a notification is
  the `notify` flag of a warning step.
- The thermal module's own `getData`, which runs the `sensors` command: subprocess I/O. A
  tick takes the command's output lines as a parameter.
- `toFixed` digit rendering: `toFixed` is an uninterpreted function field of
  `Units.Formatter`, so labels are stated in terms of it.
- `Units.Format` and `Units.FormatThermal`: the source's default arguments
  (`value = 0` in `format`, `celsius = 0` in `formatThermal`, modules/__init__.js:30 and
  :125) are not modelled; callers always pass a number, so an `undefined` value, such as a
  label drawn before the first tick, which the source formats as 0, has no counterpart.
- Floating point: values are reals. `Math.log` rounding, `parseFloat`'s rounding to a
  double, NaN and infinities are not modelled.
- `Units.FormatPercent`: requires a non-zero total; the source would print Infinity or NaN.
- `Units.Format`: requires a non-zero numeric total (or none) for the percent tag, for the
  same reason.
- `Warning.CheckWarningAt`: requires the index to be inside the counter array. Out of range,
  a value at or over the threshold decrements `undefined` to NaN, and a value below it
  stores the warning time at that index and extends the array.
- `Sensors.GetData`: requires at least one sensor; with none the source saves a null or NaN
  aggregate, and a provider without sensors is unavailable and never ticks.
- `Thermal.Tick`: requires at least one sensor, as `Sensors.GetData` does.
- `Thermal.Tick`: modules/thermal.js:48 calls `parseResult` on
  `SensorDataProvider.prototype`, which modules/__init__.js:409-475 does not define, so as
  written that call throws on every tick. The model runs `SensorDataProvider`'s
  `getData(result)` in its place, which is what the call evidently means.
- `Thermal.ParseSensorLine`: requires the line to hold a non-colon character, without which
  the source throws; every line the scan hands over has one (`Thermal.MatchedLineHasName`).
- `Thermal.Init`: the warning counter starts at 0, where the source leaves it `undefined`
  until `onSettingsChanged` sets it; from either value no notification can fire before a
  reset (decrementing `undefined` gives NaN, which never equals 0; from 0, see
  `Thermal.InitIsSilentUntilReset`).
- `Thermal.DecimalValue`: the parsed number is the exact decimal over the reals, not its
  nearest double.
- The extremum age counters start at 0 where the source leaves them `undefined`; the first
  saved sample always sets them before `updateMinMax` first runs.
