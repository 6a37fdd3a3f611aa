/** The rolling history of a data provider: one bounded series per sensor plus the aggregate,
    and the running minimum and maximum kept across all of them
    (`updateHistory`, `updateMinMax` and the module's `min`/`max` getters in modules/__init__.js). */
module History {

  /** A tracked extremum: `undefined` when the provider does not track it at all, `null`
      before anything was seen (or after a rescan found nothing), otherwise a value. */
  datatype Extremum = Untracked | Unset | Value(v: real)

  /** `!x` for a stored extremum: `undefined`, `null` and 0 are all falsy. */
  predicate Falsy(e: Extremum)
  {
    e.Untracked? || e.Unset? || e == Value(0.0)
  }

  /** The extrema and their age counters (`minIndex`/`maxIndex`), counting down to a rescan. */
  datatype Tracker = Tracker(min: Extremum, max: Extremum, minIndex: int, maxIndex: int)

  /** All series (index 0 the aggregate, `i + 1` sensor `i`) and the tracker over them. */
  datatype Store = Store(series: seq<seq<real>>, tracker: Tracker)

  /** The number of samples a series keeps: `graphSteps + 2`. */
  function Capacity(graphSteps: nat): nat
  {
    graphSteps + 2
  }

  /** The last `n` elements of `s` (all of them when there are fewer). */
  function Last(s: seq<real>, n: nat): seq<real>
  {
    if |s| <= n then s else s[|s| - n..]
  }

  /** Drops samples from the front, one at a time, for as long as more than `n` remain. */
  function TrimFront(s: seq<real>, n: nat): (r: seq<real>)
    ensures r == Last(s, n)
    decreases |s|
  {
    if |s| > n then TrimFront(s[1..], n) else s
  }

  /** Every element of `Last(s, n)` is the element of `s` at an offset of `|s| - |Last(s, n)|`. */
  lemma LastOffset(s: seq<real>, n: nat, j: nat)
    requires j < |Last(s, n)|
    ensures |s| - |Last(s, n)| + j < |s|
    ensures Last(s, n)[j] == s[|s| - |Last(s, n)| + j]
  {
  }

  /** The value is somewhere in the series. */
  ghost predicate Retained(series: seq<seq<real>>, x: real)
  {
    exists i, j :: 0 <= i < |series| && 0 <= j < |series[i]| && series[i][j] == x
  }

  predicate AllEmpty(series: seq<seq<real>>)
  {
    forall i :: 0 <= i < |series| ==> |series[i]| == 0
  }

  /** `x` is at most every retained value. */
  ghost predicate BelowAll(series: seq<seq<real>>, x: real)
  {
    forall i, j :: 0 <= i < |series| && 0 <= j < |series[i]| ==> x <= series[i][j]
  }

  /** `x` is at least every retained value. */
  ghost predicate AboveAll(series: seq<seq<real>>, x: real)
  {
    forall i, j :: 0 <= i < |series| && 0 <= j < |series[i]| ==> series[i][j] <= x
  }

  /** `updateHistory(this.history[name], value)`: append, trim the front to the capacity, and
      fold the value into the tracked extrema. A value becomes the new minimum when the stored
      minimum is falsy (so a stored 0 counts as absent) or larger; the maximum symmetrically.
      A series index with no series leaves everything as it was. */
  function UpdateHistory(st: Store, name: nat, value: real, graphSteps: nat): (r: Store)
    ensures name >= |st.series| ==> r == st
    ensures |r.series| == |st.series|
    ensures forall i :: 0 <= i < |st.series| && i != name ==> r.series[i] == st.series[i]
    ensures name < |st.series| ==>
      && r.series[name] == Last(st.series[name] + [value], Capacity(graphSteps))
      && 0 < |r.series[name]| <= Capacity(graphSteps)
      && r.series[name][|r.series[name]| - 1] == value
    ensures name < |st.series| ==>
      var t := st.tracker;
      if !t.min.Untracked? && (Falsy(t.min) || t.min.v > value)
      then r.tracker.min == Value(value) && r.tracker.minIndex == |r.series[name]|
      else r.tracker.min == t.min && r.tracker.minIndex == t.minIndex
    ensures name < |st.series| ==>
      var t := st.tracker;
      if !t.max.Untracked? && (Falsy(t.max) || t.max.v < value)
      then r.tracker.max == Value(value) && r.tracker.maxIndex == |r.series[name]|
      else r.tracker.max == t.max && r.tracker.maxIndex == t.maxIndex
  {
    if name >= |st.series| then
      st
    else
      var s := TrimFront(st.series[name] + [value], Capacity(graphSteps));
      var t := st.tracker;
      var t1 :=
        if !t.min.Untracked? && (Falsy(t.min) || t.min.v > value)
        then t.(min := Value(value), minIndex := |s|)
        else t;
      var t2 :=
        if !t1.max.Untracked? && (Falsy(t1.max) || t1.max.v < value)
        then t1.(max := Value(value), maxIndex := |s|)
        else t1;
      Store(st.series[name := s], t2)
  }

  /** One retained sample as the rescan visits it: its value and its position in its series. */
  datatype Entry = Entry(value: real, pos: nat)

  function Positions(s: seq<real>): (r: seq<Entry>)
    ensures |r| == |s|
    ensures forall j :: 0 <= j < |s| ==> r[j] == Entry(s[j], j)
  {
    seq(|s|, j requires 0 <= j < |s| => Entry(s[j], j))
  }

  /** The samples in the order the rescan's nested loops visit them: series by series,
      front to back. */
  function Entries(series: seq<seq<real>>): seq<Entry>
  {
    if |series| == 0 then [] else Entries(series[..|series| - 1]) + Positions(series[|series| - 1])
  }

  /** The rescan sees exactly the retained samples, each with its position. */
  lemma EntriesAreRetained(series: seq<seq<real>>)
    ensures forall p :: 0 <= p < |Entries(series)| ==> Retained(series, Entries(series)[p].value)
    ensures forall i, j :: 0 <= i < |series| && 0 <= j < |series[i]| ==>
      Entry(series[i][j], j) in Entries(series)
    ensures |Entries(series)| == 0 <==> AllEmpty(series)
  {
    EntriesSound(series);
    EntriesComplete(series);
    EntriesEmpty(series);
  }

  /** Every visited sample is retained. */
  lemma {:induction false} EntriesSound(series: seq<seq<real>>)
    ensures forall p :: 0 <= p < |Entries(series)| ==> Retained(series, Entries(series)[p].value)
  {
    if |series| > 0 {
      var init := series[..|series| - 1];
      var last := series[|series| - 1];
      EntriesSound(init);
      var es := Entries(series);
      assert es == Entries(init) + Positions(last);
      forall p | 0 <= p < |es|
        ensures Retained(series, es[p].value)
      {
        if p < |Entries(init)| {
          assert es[p] == Entries(init)[p];
          var i, j :| 0 <= i < |init| && 0 <= j < |init[i]| && init[i][j] == es[p].value;
          assert series[i][j] == es[p].value;
        } else {
          var j := p - |Entries(init)|;
          assert es[p] == Entry(last[j], j);
          assert series[|series| - 1][j] == es[p].value;
        }
      }
    }
  }

  /** Every retained sample is visited, with its position in its series. */
  lemma EntriesComplete(series: seq<seq<real>>)
    ensures forall i, j :: 0 <= i < |series| && 0 <= j < |series[i]| ==>
      Entry(series[i][j], j) in Entries(series)
  {
    forall i, j | 0 <= i < |series| && 0 <= j < |series[i]|
      ensures Entry(series[i][j], j) in Entries(series)
    {
      EntryVisited(series, i, j);
    }
  }

  /** Sample `j` of series `i` is visited after the samples of the series before it. */
  lemma {:induction false} EntryVisited(series: seq<seq<real>>, i: nat, j: nat)
    requires i < |series| && j < |series[i]|
    ensures |Entries(series[..i])| + j < |Entries(series)|
    ensures Entries(series)[|Entries(series[..i])| + j] == Entry(series[i][j], j)
    decreases |series|
  {
    var init := series[..|series| - 1];
    assert Entries(series) == Entries(init) + Positions(series[|series| - 1]);
    if i < |init| {
      assert init[i] == series[i] && init[..i] == series[..i];
      EntryVisited(init, i, j);
    } else {
      assert series[..i] == init;
    }
  }

  lemma {:induction false} EntriesEmpty(series: seq<seq<real>>)
    ensures |Entries(series)| == 0 <==> AllEmpty(series)
  {
    if |series| > 0 {
      var init := series[..|series| - 1];
      EntriesEmpty(init);
      if AllEmpty(series) {
        assert AllEmpty(init);
      } else if AllEmpty(init) {
        assert |series[|series| - 1]| != 0;
      } else {
        assert |Entries(init)| != 0;
      }
    }
  }

  /** What a rescan finds: the extremum (`null` when there is none) and its recorded index. */
  datatype Found = Found(extremum: Extremum, index: int)

  /** The minimum rescan: starting from `null`, a value is taken whenever nothing was taken
      yet or it is strictly smaller. It finds the least value and the position of its first
      occurrence in visiting order. */
  function ScanMin(es: seq<Entry>): (r: Found)
    ensures !r.extremum.Untracked?
    ensures r.extremum.Unset? <==> |es| == 0
    ensures r.extremum.Unset? ==> r.index == 0
    ensures r.extremum.Value? ==> forall p :: 0 <= p < |es| ==> r.extremum.v <= es[p].value
    ensures r.extremum.Value? ==>
      exists p :: 0 <= p < |es| && es[p].value == r.extremum.v && r.index == es[p].pos
        && forall q :: 0 <= q < p ==> es[q].value > r.extremum.v
  {
    if |es| == 0 then
      Found(Unset, 0)
    else
      var init := es[..|es| - 1];
      var f := ScanMin(init);
      var e := es[|es| - 1];
      assert forall p :: 0 <= p < |init| ==> es[p] == init[p];
      if f.extremum.Unset? || f.extremum.v > e.value then Found(Value(e.value), e.pos) else f
  }

  /** The maximum rescan: starting from 1, a value is taken whenever it is strictly larger.
      It finds the greatest value but never less than 1; the index stays 0 when no value
      exceeds 1. */
  function ScanMax(es: seq<Entry>): (r: Found)
    ensures r.extremum.Value? && r.extremum.v >= 1.0
    ensures forall p :: 0 <= p < |es| ==> es[p].value <= r.extremum.v
    ensures r.extremum.v == 1.0 ==> r.index == 0
    ensures r.extremum.v > 1.0 ==>
      exists p :: 0 <= p < |es| && es[p].value == r.extremum.v && r.index == es[p].pos
        && forall q :: 0 <= q < p ==> es[q].value < r.extremum.v
  {
    if |es| == 0 then
      Found(Value(1.0), 0)
    else
      var init := es[..|es| - 1];
      var f := ScanMax(init);
      var e := es[|es| - 1];
      assert forall p :: 0 <= p < |init| ==> es[p] == init[p];
      if f.extremum.v < e.value then Found(Value(e.value), e.pos) else f
  }

  /** `updateMinMax`: each tracked age counter is decremented; one that reaches 0 or below
      triggers a rescan of every retained series for its extremum, which takes the value and
      the index `ScanMin`/`ScanMax` find in visiting order. */
  function UpdateMinMax(st: Store): (r: Store)
    ensures r.series == st.series
    ensures st.tracker.min.Untracked? ==>
      r.tracker.min == st.tracker.min && r.tracker.minIndex == st.tracker.minIndex
    ensures !st.tracker.min.Untracked? && st.tracker.minIndex > 1 ==>
      r.tracker.min == st.tracker.min && r.tracker.minIndex == st.tracker.minIndex - 1
    ensures !st.tracker.min.Untracked? && st.tracker.minIndex <= 1 ==>
      && !r.tracker.min.Untracked?
      && (r.tracker.min.Unset? <==> AllEmpty(st.series))
      && (r.tracker.min.Value? ==>
            Retained(st.series, r.tracker.min.v) && BelowAll(st.series, r.tracker.min.v))
      && r.tracker.min == ScanMin(Entries(st.series)).extremum
      && r.tracker.minIndex == ScanMin(Entries(st.series)).index
    ensures st.tracker.max.Untracked? ==>
      r.tracker.max == st.tracker.max && r.tracker.maxIndex == st.tracker.maxIndex
    ensures !st.tracker.max.Untracked? && st.tracker.maxIndex > 1 ==>
      r.tracker.max == st.tracker.max && r.tracker.maxIndex == st.tracker.maxIndex - 1
    ensures !st.tracker.max.Untracked? && st.tracker.maxIndex <= 1 ==>
      && r.tracker.max.Value?
      && r.tracker.max.v >= 1.0
      && AboveAll(st.series, r.tracker.max.v)
      && (r.tracker.max.v > 1.0 ==> Retained(st.series, r.tracker.max.v))
      && (r.tracker.max.v == 1.0 ==> r.tracker.maxIndex == 0)
      && r.tracker.max == ScanMax(Entries(st.series)).extremum
      && r.tracker.maxIndex == ScanMax(Entries(st.series)).index
  {
    var t := st.tracker;
    var es := Entries(st.series);
    EntriesAreRetained(st.series);
    var t1 :=
      if t.min.Untracked? then t
      else if t.minIndex - 1 > 0 then t.(minIndex := t.minIndex - 1)
      else
        var f := ScanMin(es);
        t.(min := f.extremum, minIndex := f.index);
    var t2 :=
      if t1.max.Untracked? then t1
      else if t1.maxIndex - 1 > 0 then t1.(maxIndex := t1.maxIndex - 1)
      else
        var f := ScanMax(es);
        t1.(max := f.extremum, maxIndex := f.index);
    Store(st.series, t2)
  }

  /** The module's `min` getter: the provider's minimum, or 0 when that is falsy. */
  function ModuleMin(t: Tracker): (r: real)
    ensures Falsy(t.min) ==> r == 0.0
    ensures !Falsy(t.min) ==> r == t.min.v
  {
    if t.min.Value? then t.min.v else 0.0
  }

  /** The module's `max` getter: the provider's maximum, or 1 when that is falsy. */
  function ModuleMax(t: Tracker): (r: real)
    ensures Falsy(t.max) ==> r == 1.0
    ensures !Falsy(t.max) ==> r == t.max.v
  {
    if t.max.Value? && t.max.v != 0.0 then t.max.v else 1.0
  }

  /** No retained sample is 0. */
  ghost predicate NoZero(series: seq<seq<real>>)
  {
    forall i, j :: 0 <= i < |series| && 0 <= j < |series[i]| ==> series[i][j] != 0.0
  }

  /** The tracked extrema bound every retained sample (they need not be attained: an evicted
      extremum stays until its age runs out), and an unset extremum means nothing is
      retained. This holds as long as no sample is 0, which the tracker would mistake for an
      absent extremum. */
  ghost predicate Bounded(st: Store)
  {
    && NoZero(st.series)
    && (st.tracker.min.Value? ==> st.tracker.min.v != 0.0 && BelowAll(st.series, st.tracker.min.v))
    && (st.tracker.min.Unset? ==> AllEmpty(st.series))
    && (st.tracker.max.Value? ==> st.tracker.max.v != 0.0 && AboveAll(st.series, st.tracker.max.v))
    && (st.tracker.max.Unset? ==> AllEmpty(st.series))
  }

  lemma BoundedInitially(n: nat)
    ensures Bounded(Store(seq(n, _ => []), Tracker(Unset, Unset, 0, 0)))
  {
  }

  /** Appending a non-zero sample keeps the extrema bounding every retained sample. */
  lemma UpdateHistoryKeepsBounds(st: Store, name: nat, value: real, graphSteps: nat)
    requires Bounded(st)
    requires value != 0.0
    ensures Bounded(UpdateHistory(st, name, value, graphSteps))
  {
    var r := UpdateHistory(st, name, value, graphSteps);
    if name < |st.series| {
      var old' := st.series[name] + [value];
      var s := r.series[name];
      assert s == Last(old', Capacity(graphSteps));
      forall j | 0 <= j < |s|
        ensures s[j] == value || s[j] in st.series[name]
      {
        LastOffset(old', Capacity(graphSteps), j);
      }
      forall i, j | 0 <= i < |r.series| && 0 <= j < |r.series[i]|
        ensures r.series[i][j] == value
          || exists j' :: 0 <= j' < |st.series[i]| && st.series[i][j'] == r.series[i][j]
      {
        if i == name && r.series[i][j] != value {
          assert s[j] in st.series[name];
        }
      }
      var t := st.tracker;
      if t.min.Unset? || t.max.Unset? {
        assert |s| == 1;
      }
    }
  }

  /** A rescan or a countdown step keeps the extrema bounding every retained sample. */
  lemma UpdateMinMaxKeepsBounds(st: Store)
    requires Bounded(st)
    ensures Bounded(UpdateMinMax(st))
  {
    var r := UpdateMinMax(st);
    if r.tracker.min.Value? && r.tracker.min != st.tracker.min {
      var i, j :| 0 <= i < |st.series| && 0 <= j < |st.series[i]| && st.series[i][j] == r.tracker.min.v;
    }
    if r.tracker.max.Unset? {
      assert st.tracker.max.Unset?;
    }
  }

  /** With both extrema tracked and bounded, the module's `min`/`max` getters enclose every
      retained sample, so the graphs' value range covers all they draw. */
  lemma GettersEnclose(st: Store)
    requires Bounded(st)
    requires !st.tracker.min.Untracked? && !st.tracker.max.Untracked?
    ensures BelowAll(st.series, ModuleMin(st.tracker))
    ensures AboveAll(st.series, ModuleMax(st.tracker))
  {
  }

  /** A stored 0 reads as "no minimum": after the samples 0 and 3 the minimum is 3,
      although 0 is still retained. */
  lemma ZeroMinimumIsForgotten()
    ensures
      var st0 := Store([[]], Tracker(Unset, Unset, 0, 0));
      var st2 := UpdateHistory(UpdateHistory(st0, 0, 0.0, 10), 0, 3.0, 10);
      st2.series == [[0.0, 3.0]] && st2.tracker.min == Value(3.0)
  {
    var st0 := Store([[]], Tracker(Unset, Unset, 0, 0));
    var st1 := UpdateHistory(st0, 0, 0.0, 10);
    assert [] + [0.0] == [0.0];
    assert st1.series == [[0.0]] && st1.tracker.min == Value(0.0);
    assert [0.0] + [3.0] == [0.0, 3.0];
  }

  /** The maximum rescan never goes below 1: samples all below 1 rescan to a maximum of 1. */
  lemma MaximumRescanFloorsAtOne()
    ensures
      var st := Store([[0.25, 0.5]], Tracker(Value(0.25), Value(0.5), 5, 1));
      UpdateMinMax(st).tracker.max == Value(1.0)
  {
    var st := Store([[0.25, 0.5]], Tracker(Value(0.25), Value(0.5), 5, 1));
    EntriesAreRetained(st.series);
    assert AboveAll(st.series, UpdateMinMax(st).tracker.max.v);
    assert st.series[0][1] == 0.5;
  }
}
