/** The sensor data provider of modules/__init__.js (`SensorDataProvider` over
    `BaseDataProvider`): the adapter-scoped scan that finds the sensor lines at start-up, and
    the per-tick `getData` that reads every sensor, saves it, folds the sensors into one
    aggregate and updates the extrema. The module-specific data matcher is a parameter:
    `find(line)` is the number its first capture parses to, or `None` when the line does not
    match. */
module Sensors {
  import opened Js
  import opened History

  /** The provider state: the history store, the latest value per series (`data`), the line
      number of each sensor, the sensor names, the warning countdown (`notifications`) and
      whether the module is unavailable. */
  datatype Provider = Provider(
    store: Store,
    data: map<nat, real>,
    sensors: seq<nat>,
    sensorNames: seq<string>,
    notifications: int,
    unavailable: bool)

  /** An adapter header: the line's first eight characters are `Adapter:`. */
  predicate IsAdapterLine(line: string)
  {
    StartsWith(line, "Adapter:")
  }

  /** The `inAdapter` flag after looking at one more line: an adapter header sets it to
      whether the header lacks "virtual" in any case; any other line keeps it. */
  function AdapterState(line: string, inAdapter: bool): (r: bool)
    ensures IsAdapterLine(line) ==> (r <==> !ContainsIgnoreCase(line, "virtual"))
    ensures !IsAdapterLine(line) ==> r == inAdapter
  {
    if IsAdapterLine(line) then !ContainsIgnoreCase(line, "virtual") else inAdapter
  }

  /** The loop of `init` from line `i` on: the line numbers it hands to `parseSensorLine`, in
      the order it hands them over. */
  function ScanFrom(lines: seq<string>, matches: string -> bool, i: nat, inAdapter: bool): (r: seq<nat>)
    requires i <= |lines|
    ensures forall k :: 0 <= k < |r| ==> i <= r[k] < |lines| && matches(lines[r[k]])
    decreases |lines| - i
  {
    if i == |lines| then
      []
    else
      var inAdapter' := AdapterState(lines[i], inAdapter);
      (if inAdapter' && matches(lines[i]) then [i] else []) + ScanFrom(lines, matches, i + 1, inAdapter')
  }

  /** The whole scan, starting outside any adapter section. */
  function Scan(lines: seq<string>, matches: string -> bool): (r: seq<nat>)
    ensures forall k :: 0 <= k < |r| ==> r[k] < |lines| && matches(lines[r[k]])
  {
    ScanFrom(lines, matches, 0, false)
  }

  /** Line `i` belongs to a real adapter's section: the last adapter header at or before it
      does not mention "virtual" in any case. */
  ghost predicate InRealSection(lines: seq<string>, i: int)
  {
    exists h :: 0 <= h <= i < |lines| && IsAdapterLine(lines[h])
      && !ContainsIgnoreCase(lines[h], "virtual")
      && forall j :: h < j <= i ==> !IsAdapterLine(lines[j])
  }

  /** The line is one the scan must record. */
  ghost predicate Selected(lines: seq<string>, matches: string -> bool, i: int)
  {
    0 <= i < |lines| && InRealSection(lines, i) && matches(lines[i])
  }

  /** The flag the loop carries is exactly "inside a real adapter's section". */
  lemma AdapterStateTracksSection(lines: seq<string>, i: nat)
    requires i < |lines|
    ensures AdapterState(lines[i], i > 0 && InRealSection(lines, i - 1)) == InRealSection(lines, i)
  {
    if IsAdapterLine(lines[i]) {
      if ContainsIgnoreCase(lines[i], "virtual") {
        forall h | 0 <= h <= i && IsAdapterLine(lines[h]) && !ContainsIgnoreCase(lines[h], "virtual")
          ensures exists j :: h < j <= i && IsAdapterLine(lines[j])
        {
          assert h != i;
        }
      }
    } else {
      if InRealSection(lines, i) {
        var h :| 0 <= h <= i < |lines| && IsAdapterLine(lines[h])
          && !ContainsIgnoreCase(lines[h], "virtual")
          && forall j :: h < j <= i ==> !IsAdapterLine(lines[j]);
        assert h < i;
        assert InRealSection(lines, i - 1);
      }
      if i > 0 && InRealSection(lines, i - 1) {
        var h :| 0 <= h <= i - 1 < |lines| && IsAdapterLine(lines[h])
          && !ContainsIgnoreCase(lines[h], "virtual")
          && forall j :: h < j <= i - 1 ==> !IsAdapterLine(lines[j]);
        assert forall j :: h < j <= i ==> !IsAdapterLine(lines[j]);
      }
    }
  }

  /** The scan from line `i` records only selected lines from `i` on. */
  lemma {:induction false} ScanFromSound(lines: seq<string>, matches: string -> bool, i: nat, inAdapter: bool)
    requires i <= |lines|
    requires inAdapter == (i > 0 && InRealSection(lines, i - 1))
    ensures forall x :: x in ScanFrom(lines, matches, i, inAdapter) ==> i <= x && Selected(lines, matches, x)
    decreases |lines| - i
  {
    if i < |lines| {
      var inAdapter' := AdapterState(lines[i], inAdapter);
      AdapterStateTracksSection(lines, i);
      ScanFromSound(lines, matches, i + 1, inAdapter');
      var head := if inAdapter' && matches(lines[i]) then [i] else [];
      assert ScanFrom(lines, matches, i, inAdapter) == head + ScanFrom(lines, matches, i + 1, inAdapter');
    }
  }

  /** The scan from line `i` records every selected line from `i` on. */
  lemma {:induction false} ScanFromComplete(lines: seq<string>, matches: string -> bool, i: nat, inAdapter: bool)
    requires i <= |lines|
    requires inAdapter == (i > 0 && InRealSection(lines, i - 1))
    ensures forall x :: i <= x < |lines| && Selected(lines, matches, x) ==>
      x in ScanFrom(lines, matches, i, inAdapter)
    decreases |lines| - i
  {
    if i < |lines| {
      var inAdapter' := AdapterState(lines[i], inAdapter);
      AdapterStateTracksSection(lines, i);
      ScanFromComplete(lines, matches, i + 1, inAdapter');
      var head := if inAdapter' && matches(lines[i]) then [i] else [];
      assert ScanFrom(lines, matches, i, inAdapter) == head + ScanFrom(lines, matches, i + 1, inAdapter');
      assert inAdapter' && matches(lines[i]) <==> Selected(lines, matches, i);
    }
  }

  /** The scan records lines in increasing order. */
  lemma {:induction false} ScanFromIncreasing(lines: seq<string>, matches: string -> bool, i: nat, inAdapter: bool)
    requires i <= |lines|
    ensures Increasing(ScanFrom(lines, matches, i, inAdapter))
    decreases |lines| - i
  {
    if i < |lines| {
      var inAdapter' := AdapterState(lines[i], inAdapter);
      ScanFromIncreasing(lines, matches, i + 1, inAdapter');
      var head := if inAdapter' && matches(lines[i]) then [i] else [];
      var rest := ScanFrom(lines, matches, i + 1, inAdapter');
      assert ScanFrom(lines, matches, i, inAdapter) == head + rest;
      PrependSmaller(head, rest, i);
    }
  }

  predicate Increasing(xs: seq<nat>)
  {
    forall k, l :: 0 <= k < l < |xs| ==> xs[k] < xs[l]
  }

  /** Putting at most one number in front of larger increasing ones keeps them increasing. */
  lemma PrependSmaller(head: seq<nat>, rest: seq<nat>, i: nat)
    requires head == [] || head == [i]
    requires forall k :: 0 <= k < |rest| ==> i < rest[k]
    requires Increasing(rest)
    ensures Increasing(head + rest)
  {
    var r := head + rest;
    forall k, l | 0 <= k < l < |r|
      ensures r[k] < r[l]
    {
      if k >= |head| {
        assert r[k] == rest[k - |head|] && r[l] == rest[l - |head|];
      } else {
        assert r[l] == rest[l - 1];
      }
    }
  }

  /** `init` hands `parseSensorLine` exactly the lines of real adapter sections that the data
      matcher accepts, in increasing line order; lines of a virtual adapter never reach it,
      whatever they contain. */
  lemma ScanSelects(lines: seq<string>, matches: string -> bool)
    ensures forall k :: 0 <= k < |Scan(lines, matches)| ==> Selected(lines, matches, Scan(lines, matches)[k])
    ensures forall x :: Selected(lines, matches, x) ==> x in Scan(lines, matches)
    ensures forall k, l :: 0 <= k < l < |Scan(lines, matches)| ==> Scan(lines, matches)[k] < Scan(lines, matches)[l]
  {
    ScanFromSound(lines, matches, 0, false);
    ScanFromComplete(lines, matches, 0, false);
    ScanFromIncreasing(lines, matches, 0, false);
  }

  /** The value sensor line `line` gives this tick: nothing when the result has no such line
      or the line does not match. */
  function Reading(result: seq<string>, line: nat, find: string -> Option<real>): Option<real>
  {
    if line < |result| then find(result[line]) else None
  }

  /** The readings `getData` gets through before it stops: the longest prefix of the sensors
      that all read a value. */
  function ReadPrefix(result: seq<string>, sensors: seq<nat>, find: string -> Option<real>): (rs: seq<real>)
    ensures |rs| <= |sensors|
    ensures forall k :: 0 <= k < |rs| ==> Reading(result, sensors[k], find) == Some(rs[k])
    ensures |rs| < |sensors| ==> Reading(result, sensors[|rs|], find).None?
  {
    if |sensors| == 0 then
      []
    else
      var rs := ReadPrefix(result, sensors[..|sensors| - 1], find);
      if |rs| < |sensors| - 1 then
        rs
      else
        match Reading(result, sensors[|sensors| - 1], find)
        case None => rs
        case Some(d) => rs + [d]
  }

  /** `saveData(name, value)`: record the value and push it into series `name`. */
  function SaveData(p: Provider, name: nat, value: real, graphSteps: nat): (r: Provider)
    ensures r.data == p.data[name := value]
    ensures r.store == UpdateHistory(p.store, name, value, graphSteps)
    ensures r.sensors == p.sensors && r.sensorNames == p.sensorNames
    ensures r.notifications == p.notifications && r.unavailable == p.unavailable
  {
    p.(data := p.data[name := value], store := UpdateHistory(p.store, name, value, graphSteps))
  }

  /** Saving readings `rs[k]` to series `k + 1`, in order; `SaveReadingsData` and
      `SaveReadingsSeries` state where they end up. */
  function SaveReadings(p: Provider, rs: seq<real>, graphSteps: nat): (r: Provider)
    ensures r.sensors == p.sensors && r.sensorNames == p.sensorNames
    ensures r.notifications == p.notifications && r.unavailable == p.unavailable
    ensures |r.store.series| == |p.store.series|
  {
    if |rs| == 0 then
      p
    else
      SaveData(SaveReadings(p, rs[..|rs| - 1], graphSteps), |rs|, rs[|rs| - 1], graphSteps)
  }

  /** Reading `n - 1` is recorded as the value of series `n`; other recorded values stay, and
      no other series gains a value. */
  lemma {:induction false} SaveReadingsData(p: Provider, rs: seq<real>, graphSteps: nat)
    ensures forall n: nat :: 1 <= n <= |rs| ==>
      n in SaveReadings(p, rs, graphSteps).data && SaveReadings(p, rs, graphSteps).data[n] == rs[n - 1]
    ensures forall n :: n in p.data && !(1 <= n <= |rs|) ==>
      n in SaveReadings(p, rs, graphSteps).data && SaveReadings(p, rs, graphSteps).data[n] == p.data[n]
    ensures SaveReadings(p, rs, graphSteps).data.Keys == p.data.Keys + SeriesOf(|rs|)
  {
    SaveReadingsKeys(p, rs, graphSteps);
    if |rs| > 0 {
      var init := rs[..|rs| - 1];
      SaveReadingsData(p, init, graphSteps);
      var q := SaveReadings(p, init, graphSteps);
      var r := SaveReadings(p, rs, graphSteps);
      assert r.data == q.data[|rs| := rs[|rs| - 1]];
      forall n: nat | 1 <= n <= |rs|
        ensures n in r.data && r.data[n] == rs[n - 1]
      {
        if n < |rs| {
          assert n in q.data && q.data[n] == init[n - 1];
          assert init[n - 1] == rs[n - 1];
        }
      }
    }
  }

  /** Saving readings adds exactly their series numbers to the recorded values' keys. */
  lemma {:induction false} SaveReadingsKeys(p: Provider, rs: seq<real>, graphSteps: nat)
    ensures SaveReadings(p, rs, graphSteps).data.Keys == p.data.Keys + SeriesOf(|rs|)
  {
    if |rs| > 0 {
      SaveReadingsKeys(p, rs[..|rs| - 1], graphSteps);
    }
  }

  /** The series numbers of `count` readings, 1 to `count`. */
  function SeriesOf(count: nat): (r: set<nat>)
    ensures forall n: nat :: n in r <==> 1 <= n <= count
  {
    if count == 0 then {} else SeriesOf(count - 1) + {count}
  }

  /** Series `n` of the readings gains reading `n - 1`; every other series is left alone. */
  lemma {:induction false} SaveReadingsSeries(p: Provider, rs: seq<real>, graphSteps: nat)
    ensures var r := SaveReadings(p, rs, graphSteps);
      && (forall n: nat :: 1 <= n <= |rs| && n < |p.store.series| ==>
            r.store.series[n] == Last(p.store.series[n] + [rs[n - 1]], Capacity(graphSteps)))
      && (forall i :: 0 <= i < |p.store.series| && !(1 <= i <= |rs|) ==>
            r.store.series[i] == p.store.series[i])
  {
    if |rs| > 0 {
      var init := rs[..|rs| - 1];
      SaveReadingsSeries(p, init, graphSteps);
      var q := SaveReadings(p, init, graphSteps);
      var r := SaveReadings(p, rs, graphSteps);
      assert r.store == UpdateHistory(q.store, |rs|, rs[|rs| - 1], graphSteps);
      forall n: nat | 1 <= n <= |rs| && n < |p.store.series|
        ensures r.store.series[n] == Last(p.store.series[n] + [rs[n - 1]], Capacity(graphSteps))
      {
        if n < |rs| {
          assert init[n - 1] == rs[n - 1];
        }
      }
    }
  }

  function Sum(ds: seq<real>): real
  {
    if |ds| == 0 then 0.0 else Sum(ds[..|ds| - 1]) + ds[|ds| - 1]
  }

  /** The running aggregate of the loop in `getData`, `None` (`null`) before the first
      sensor: the first sensor seeds it, after which "min" keeps the least, "max" the
      greatest, "avg" adds up, and any other mode keeps the first value. */
  function Running(mode: string, ds: seq<real>): (r: Option<real>)
    ensures r.None? <==> |ds| == 0
    ensures |ds| > 0 && mode == "min" ==>
      r.value in ds && forall k :: 0 <= k < |ds| ==> r.value <= ds[k]
    ensures |ds| > 0 && mode == "max" ==>
      r.value in ds && forall k :: 0 <= k < |ds| ==> ds[k] <= r.value
    ensures |ds| > 0 && mode == "avg" ==> r.value == Sum(ds)
    ensures |ds| > 0 && mode != "min" && mode != "max" && mode != "avg" ==> r.value == ds[0]
  {
    if |ds| == 0 then
      None
    else
      var init := ds[..|ds| - 1];
      var v := Running(mode, init);
      var d := ds[|ds| - 1];
      assert forall k :: 0 <= k < |init| ==> ds[k] == init[k];
      assert forall x :: x in init ==> x in ds;
      if v.None? || (mode == "min" && v.value > d) then Some(d)
      else if mode == "avg" then Some(v.value + d)
      else if mode == "max" && v.value < d then Some(d)
      else v
  }

  /** The aggregate saved to series 0: the least reading for "min", the greatest for "max",
      the mean for "avg", and the first sensor's reading for any other mode. */
  function Aggregate(mode: string, ds: seq<real>): (r: real)
    requires |ds| > 0
    ensures mode == "min" ==> r in ds && forall k :: 0 <= k < |ds| ==> r <= ds[k]
    ensures mode == "max" ==> r in ds && forall k :: 0 <= k < |ds| ==> ds[k] <= r
    ensures mode == "avg" ==> r * |ds| as real == Sum(ds)
    ensures mode != "min" && mode != "max" && mode != "avg" ==> r == ds[0]
  {
    var v := Running(mode, ds).value;
    if mode == "avg" then v / |ds| as real else v
  }

  /** The end of a complete tick: the aggregate goes to series 0, then `updateMinMax` runs;
      the samples themselves are left alone by the extrema update. */
  function SaveAggregate(p: Provider, agg: real, graphSteps: nat): (r: Provider)
    ensures r.sensors == p.sensors && r.sensorNames == p.sensorNames
    ensures r.notifications == p.notifications && r.unavailable == p.unavailable
    ensures r.data == p.data[0 := agg]
    ensures |r.store.series| == |p.store.series|
    ensures |p.store.series| > 0 ==>
      r.store.series[0] == Last(p.store.series[0] + [agg], Capacity(graphSteps))
    ensures forall i :: 0 < i < |p.store.series| ==> r.store.series[i] == p.store.series[i]
    ensures r.store == UpdateMinMax(UpdateHistory(p.store, 0, agg, graphSteps))
  {
    var q := SaveData(p, 0, agg, graphSteps);
    q.(store := UpdateMinMax(q.store))
  }

  /** The outcome of one `getData` tick. When a sensor's line is missing or does not match,
      the source's `data.match(...)[1]` throws: the tick stops there, keeping what it saved
      for the sensors before. */
  datatype Outcome = Done(p: Provider) | Threw(p: Provider, sensor: nat)

  /** Every sensor reads a value this tick. */
  predicate AllRead(result: seq<string>, sensors: seq<nat>, find: string -> Option<real>)
  {
    forall k :: 0 <= k < |sensors| ==> Reading(result, sensors[k], find).Some?
  }

  function Readings(result: seq<string>, sensors: seq<nat>, find: string -> Option<real>): (rs: seq<real>)
    requires AllRead(result, sensors, find)
    ensures |rs| == |sensors|
    ensures forall k :: 0 <= k < |sensors| ==> Reading(result, sensors[k], find) == Some(rs[k])
  {
    seq(|sensors|, k requires 0 <= k < |sensors| => Reading(result, sensors[k], find).value)
  }

  /** `getData(result)`: sensor `k`'s reading goes to series `k + 1`, the aggregate to
      series 0, and then `updateMinMax` runs once. It throws at the first sensor without a
      reading; what each outcome saved is stated by `GetDataThrew` and `GetDataDone`. */
  function GetData(p: Provider, mode: string, graphSteps: nat, result: seq<string>,
                   find: string -> Option<real>): (r: Outcome)
    requires |p.sensors| > 0
    ensures r.p.sensors == p.sensors && r.p.sensorNames == p.sensorNames
    ensures r.p.notifications == p.notifications && r.p.unavailable == p.unavailable
    ensures |r.p.store.series| == |p.store.series|
    ensures r.Threw? <==> !AllRead(result, p.sensors, find)
    ensures r.Threw? ==>
      && r.sensor < |p.sensors|
      && Reading(result, p.sensors[r.sensor], find).None?
      && forall k :: 0 <= k < r.sensor ==> Reading(result, p.sensors[k], find).Some?
  {
    var rs := ReadPrefix(result, p.sensors, find);
    var saved := SaveReadings(p, rs, graphSteps);
    if |rs| < |p.sensors| then
      Threw(saved, |rs|)
    else
      assert rs == Readings(result, p.sensors, find);
      Done(SaveAggregate(saved, Aggregate(mode, rs), graphSteps))
  }

  /** A tick that throws has saved the readings of the sensors before the failing one, each
      under its series, and done nothing else: no aggregate and no `updateMinMax`. */
  lemma GetDataThrew(p: Provider, mode: string, graphSteps: nat, result: seq<string>,
                     find: string -> Option<real>)
    requires |p.sensors| > 0
    ensures var r := GetData(p, mode, graphSteps, result, find);
      r.Threw? ==> forall k :: 0 <= k < r.sensor ==>
        k + 1 in r.p.data && Some(r.p.data[k + 1]) == Reading(result, p.sensors[k], find)
    ensures var r := GetData(p, mode, graphSteps, result, find);
      r.Threw? ==> r.p == SaveReadings(p, ReadPrefix(result, p.sensors, find), graphSteps)
  {
    var rs := ReadPrefix(result, p.sensors, find);
    var saved := SaveReadings(p, rs, graphSteps);
    SaveReadingsData(p, rs, graphSteps);
    forall k | 0 <= k < |rs|
      ensures k + 1 in saved.data && Some(saved.data[k + 1]) == Reading(result, p.sensors[k], find)
    {
      var n: nat := k + 1;
      assert 1 <= n <= |rs|;
    }
  }

  /** A complete tick records every reading under its series and the aggregate under
      series 0, and its store is the one `updateMinMax` makes of the store after the last
      save. */
  lemma GetDataDone(p: Provider, mode: string, graphSteps: nat, result: seq<string>,
                    find: string -> Option<real>)
    requires |p.sensors| > 0
    ensures var r := GetData(p, mode, graphSteps, result, find);
      r.Done? ==>
      var rs := Readings(result, p.sensors, find);
      && 0 in r.p.data && r.p.data[0] == Aggregate(mode, rs)
      && forall k :: 0 <= k < |rs| ==> k + 1 in r.p.data && r.p.data[k + 1] == rs[k]
    ensures var r := GetData(p, mode, graphSteps, result, find);
      r.Done? ==>
      var rs := Readings(result, p.sensors, find);
      r.p.store == UpdateMinMax(UpdateHistory(SaveReadings(p, rs, graphSteps).store, 0, Aggregate(mode, rs), graphSteps))
    ensures var r := GetData(p, mode, graphSteps, result, find);
      r.Done? ==>
      var rs := Readings(result, p.sensors, find);
      && r.p.data == SaveReadings(p, rs, graphSteps).data[0 := Aggregate(mode, rs)]
      && r.p.data.Keys == p.data.Keys + {0} + SeriesOf(|p.sensors|)
  {
    var rs := ReadPrefix(result, p.sensors, find);
    if |rs| == |p.sensors| {
      assert rs == Readings(result, p.sensors, find);
      SaveReadingsData(p, rs, graphSteps);
      var r := SaveAggregate(SaveReadings(p, rs, graphSteps), Aggregate(mode, rs), graphSteps);
      forall k | 0 <= k < |rs|
        ensures k + 1 in r.data && r.data[k + 1] == rs[k]
      {
        var n: nat := k + 1;
        assert 1 <= n <= |rs|;
      }
    }
  }

  /** A complete tick pushes the aggregate into series 0 and each reading into its sensor's
      series, bounded to the capacity. */
  lemma GetDataDoneSeries(p: Provider, mode: string, graphSteps: nat, result: seq<string>,
                          find: string -> Option<real>)
    requires |p.sensors| > 0
    ensures var r := GetData(p, mode, graphSteps, result, find);
      r.Done? ==>
      var rs := Readings(result, p.sensors, find);
      && (|p.store.series| > 0 ==>
            r.p.store.series[0] == Last(p.store.series[0] + [Aggregate(mode, rs)], Capacity(graphSteps)))
      && forall k :: 0 <= k < |rs| && k + 1 < |p.store.series| ==>
            r.p.store.series[k + 1] == Last(p.store.series[k + 1] + [rs[k]], Capacity(graphSteps))
  {
    var rs := ReadPrefix(result, p.sensors, find);
    if |rs| == |p.sensors| {
      assert rs == Readings(result, p.sensors, find);
      SaveReadingsSeries(p, rs, graphSteps);
      var r := SaveAggregate(SaveReadings(p, rs, graphSteps), Aggregate(mode, rs), graphSteps);
      forall k | 0 <= k < |rs| && k + 1 < |p.store.series|
        ensures r.store.series[k + 1] == Last(p.store.series[k + 1] + [rs[k]], Capacity(graphSteps))
      {
        var n: nat := k + 1;
        assert 1 <= n <= |rs| && n < |p.store.series|;
      }
    }
  }

  /** As long as no reading and no aggregate is 0, a tick keeps the tracked extrema bounding
      every retained sample. */
  lemma GetDataKeepsBounds(p: Provider, mode: string, graphSteps: nat, result: seq<string>,
                           find: string -> Option<real>)
    requires |p.sensors| > 0
    requires Bounded(p.store)
    requires forall k :: 0 <= k < |p.sensors| ==> Reading(result, p.sensors[k], find) != Some(0.0)
    requires AllRead(result, p.sensors, find) ==> Aggregate(mode, Readings(result, p.sensors, find)) != 0.0
    ensures Bounded(GetData(p, mode, graphSteps, result, find).p.store)
  {
    var rs := ReadPrefix(result, p.sensors, find);
    SaveReadingsKeepsBounds(p, rs, graphSteps);
    var saved := SaveReadings(p, rs, graphSteps);
    if |rs| == |p.sensors| {
      assert rs == Readings(result, p.sensors, find);
      var agg := Aggregate(mode, rs);
      UpdateHistoryKeepsBounds(saved.store, 0, agg, graphSteps);
      UpdateMinMaxKeepsBounds(UpdateHistory(saved.store, 0, agg, graphSteps));
    }
  }

  lemma {:induction false} SaveReadingsKeepsBounds(p: Provider, rs: seq<real>, graphSteps: nat)
    requires Bounded(p.store)
    requires forall k :: 0 <= k < |rs| ==> rs[k] != 0.0
    ensures Bounded(SaveReadings(p, rs, graphSteps).store)
  {
    if |rs| > 0 {
      SaveReadingsKeepsBounds(p, rs[..|rs| - 1], graphSteps);
      var q := SaveReadings(p, rs[..|rs| - 1], graphSteps);
      UpdateHistoryKeepsBounds(q.store, |rs|, rs[|rs| - 1], graphSteps);
    }
  }
}
