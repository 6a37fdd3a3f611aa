/** The warning debounce of `checkWarning` (modules/__init__.js): a countdown of
    over-threshold ticks that notifies when it reaches exactly 0 and restarts whenever the
    value drops below the threshold. Delivering the notification is outside the model; a
    notification is the `notify` flag of a step. */
module Warning {

  /** One `checkWarning` call on the shared counter: the new counter and whether it notifies. */
  datatype Step = Step(counter: int, notify: bool)

  /** `checkWarning(value)` without an index. A value at or above the threshold decrements
      the counter and notifies iff it becomes exactly 0; a value below resets it to the
      warning time. */
  function CheckWarning(counter: int, value: real, threshold: real, warningTime: int): (r: Step)
    ensures value >= threshold ==> r.counter == counter - 1
    ensures value < threshold ==> r.counter == warningTime
    ensures r.notify <==> value >= threshold && counter == 1
  {
    if value >= threshold then
      var c := counter - 1;
      Step(c, c == 0)
    else
      Step(warningTime, false)
  }

  /** One `checkWarning` call with an index into the per-sensor counters. */
  datatype IndexedStep = IndexedStep(counters: seq<int>, notify: bool)

  /** `checkWarning(value, body, index)`: the same step on the indexed counter alone. */
  function CheckWarningAt(counters: seq<int>, index: nat, value: real, threshold: real, warningTime: int)
    : (r: IndexedStep)
    requires index < |counters|
    ensures |r.counters| == |counters|
    ensures forall k :: 0 <= k < |counters| && k != index ==> r.counters[k] == counters[k]
    ensures var s := CheckWarning(counters[index], value, threshold, warningTime);
      r.counters[index] == s.counter && r.notify == s.notify
  {
    if value >= threshold then
      var c := counters[index] - 1;
      IndexedStep(counters[index := c], c == 0)
    else
      IndexedStep(counters[index := warningTime], false)
  }

  /** The counter and the notifications of a run of ticks on the shared counter. */
  datatype Trace = Trace(counter: int, fires: seq<bool>)

  function Run(counter: int, values: seq<real>, threshold: real, warningTime: int): (r: Trace)
    ensures |r.fires| == |values|
    decreases |values|
  {
    if |values| == 0 then
      Trace(counter, [])
    else
      var s := CheckWarning(counter, values[0], threshold, warningTime);
      var rest := Run(s.counter, values[1..], threshold, warningTime);
      Trace(rest.counter, [s.notify] + rest.fires)
  }

  /** A run of over-threshold ticks counts down one per tick and notifies exactly on the
      tick where the counter passes from 1 to 0. */
  lemma {:induction false} SustainedBreach(counter: int, values: seq<real>, threshold: real, warningTime: int)
    requires forall k :: 0 <= k < |values| ==> values[k] >= threshold
    ensures Run(counter, values, threshold, warningTime).counter == counter - |values|
    ensures forall k :: 0 <= k < |values| ==>
      (Run(counter, values, threshold, warningTime).fires[k] <==> counter == k + 1)
    decreases |values|
  {
    BreachPrefix(counter, values, |values|, threshold, warningTime);
    if |values| > 0 {
      SustainedBreach(counter - 1, values[1..], threshold, warningTime);
    }
  }

  /** From a fresh countdown of `warningTime >= 1`, a sustained breach notifies exactly once,
      on tick number `warningTime`, and not at all when it is shorter. */
  lemma SustainedBreachNotifiesOnce(values: seq<real>, threshold: real, warningTime: int)
    requires warningTime >= 1
    requires forall k :: 0 <= k < |values| ==> values[k] >= threshold
    ensures forall k :: 0 <= k < |values| ==>
      (Run(warningTime, values, threshold, warningTime).fires[k] <==> k == warningTime - 1)
    ensures |values| >= warningTime ==> Run(warningTime, values, threshold, warningTime).fires[warningTime - 1]
  {
    SustainedBreach(warningTime, values, threshold, warningTime);
  }

  /** A countdown already at or below 0 never notifies before a tick below the threshold
      resets it: decrementing only moves it further from the step from 1 to 0. */
  lemma SpentCountdownIsSilent(counter: int, values: seq<real>, n: nat, threshold: real, warningTime: int)
    requires counter <= 0 && n <= |values|
    requires forall k :: 0 <= k < n ==> values[k] >= threshold
    ensures forall k :: 0 <= k < n ==> !Run(counter, values, threshold, warningTime).fires[k]
  {
    BreachPrefix(counter, values, n, threshold, warningTime);
  }

  /** A run splits at any tick: the second part continues from the counter the first left. */
  lemma {:induction false} RunSplit(counter: int, values: seq<real>, n: nat, threshold: real, warningTime: int)
    requires n <= |values|
    ensures var first := Run(counter, values[..n], threshold, warningTime);
      var second := Run(first.counter, values[n..], threshold, warningTime);
      Run(counter, values, threshold, warningTime) == Trace(second.counter, first.fires + second.fires)
    decreases n
  {
    if n > 0 {
      var s := CheckWarning(counter, values[0], threshold, warningTime);
      var tail := values[1..];
      RunSplit(s.counter, tail, n - 1, threshold, warningTime);
      assert tail[..n - 1] == values[..n][1..];
      assert tail[n - 1..] == values[n..];
      var first' := Run(s.counter, tail[..n - 1], threshold, warningTime);
      var first := Run(counter, values[..n], threshold, warningTime);
      assert first == Trace(first'.counter, [s.notify] + first'.fires);
      var second := Run(first.counter, values[n..], threshold, warningTime);
      var rest := Run(s.counter, tail, threshold, warningTime);
      assert rest == Trace(second.counter, first'.fires + second.fires);
      assert Run(counter, values, threshold, warningTime) == Trace(rest.counter, [s.notify] + rest.fires);
      assert [s.notify] + rest.fires == first.fires + second.fires;
    } else {
      assert values[..0] == [] && values[0..] == values;
    }
  }

  /** No notification storm: once a notification fired, a continued breach never notifies
      again; only a tick below the threshold can rearm it. */
  lemma NoRepeatDuringBreach(
    counter: int, values: seq<real>, threshold: real, warningTime: int, a: nat, b: nat)
    requires a < b < |values|
    requires Run(counter, values, threshold, warningTime).fires[a]
    requires forall m :: a < m <= b ==> values[m] >= threshold
    ensures !Run(counter, values, threshold, warningTime).fires[b]
  {
    RunSplit(counter, values, a + 1, threshold, warningTime);
    var first := Run(counter, values[..a + 1], threshold, warningTime);
    var tail := values[a + 1..];
    assert first.fires[a];
    LastFireZeroes(counter, values[..a + 1], threshold, warningTime);
    BreachPrefix(0, tail, b - a, threshold, warningTime);
  }

  /** A tick that notifies leaves the counter at 0. */
  lemma {:induction false} LastFireZeroes(counter: int, values: seq<real>, threshold: real, warningTime: int)
    requires |values| > 0 && Run(counter, values, threshold, warningTime).fires[|values| - 1]
    ensures Run(counter, values, threshold, warningTime).counter == 0
    decreases |values|
  {
    var s := CheckWarning(counter, values[0], threshold, warningTime);
    var rest := Run(s.counter, values[1..], threshold, warningTime);
    if |values| > 1 {
      assert Run(counter, values, threshold, warningTime).fires[|values| - 1] == rest.fires[|values| - 2];
      LastFireZeroes(s.counter, values[1..], threshold, warningTime);
    }
  }

  /** Over the first `n` ticks of a breach the counter counts down one per tick, notifying
      exactly where it passes from 1 to 0. */
  lemma {:induction false} BreachPrefix(counter: int, values: seq<real>, n: nat, threshold: real, warningTime: int)
    requires n <= |values|
    requires forall k :: 0 <= k < n ==> values[k] >= threshold
    ensures forall k :: 0 <= k < n ==>
      (Run(counter, values, threshold, warningTime).fires[k] <==> counter == k + 1)
    decreases n
  {
    if n > 0 {
      BreachPrefix(counter - 1, values[1..], n - 1, threshold, warningTime);
      var r := Run(counter, values, threshold, warningTime);
      var rest := Run(counter - 1, values[1..], threshold, warningTime);
      assert r.fires == [counter == 1] + rest.fires;
      forall k | 0 <= k < n
        ensures r.fires[k] <==> counter == k + 1
      {
        if k > 0 {
          assert r.fires[k] == rest.fires[k - 1];
        }
      }
    }
  }
}
