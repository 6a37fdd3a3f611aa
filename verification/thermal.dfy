/** The thermal module's data provider (modules/thermal.js): its data matcher
    `/([+-]?\d+\.\d+)\xb0C/` written out as a scanner, the sensor name and core colour of a
    sensor line, the start-up scan, one tick with its warning check, and the settings hook
    that resets the warning countdown and converts the threshold. */
module Thermal {
  import opened Js
  import opened History
  import opened Warning
  import Units
  import opened Sensors

  // ---------------------------------------------------------------------------------------
  // The data matcher

  predicate IsSign(c: char)
  {
    c == '+' || c == '-'
  }

  predicate AllDigits(t: string)
  {
    forall k :: 0 <= k < |t| ==> IsDigit(t[k])
  }

  /** `t` reads as `[+-]?\d+\.\d+` with the sign taking `q` characters and the point at `d`. */
  ghost predicate DecimalShape(t: string, q: nat, d: nat)
  {
    && q <= 1 && q < d < |t| - 1
    && (q == 1 ==> IsSign(t[0]))
    && AllDigits(t[q..d]) && t[d] == '.' && AllDigits(t[d + 1..])
  }

  /** The text the matcher's capture group accepts. */
  ghost predicate DecimalText(t: string)
  {
    exists q: nat, d: nat :: DecimalShape(t, q, d)
  }

  /** `s[p..e]` is a capture and "°C" follows it: a match of the data matcher at `p`. */
  ghost predicate CelsiusToken(s: string, p: nat, e: nat)
  {
    p <= e && e + 2 <= |s| && DecimalText(s[p..e]) && s[e] == '°' && s[e + 1] == 'C'
  }

  /** A line is sensor data: the matcher matches somewhere in it. */
  ghost predicate IsSensorData(s: string)
  {
    exists p: nat, e: nat :: CelsiusToken(s, p, e)
  }

  /** The match JavaScript reports: the one that starts first. */
  ghost predicate Leftmost(s: string, p: nat, e: nat)
  {
    CelsiusToken(s, p, e) && forall p': nat, e': nat :: p' < p ==> !CelsiusToken(s, p', e')
  }

  /** The end of the maximal run of digits starting at `i`. */
  function DigitsEnd(s: string, i: nat): (j: nat)
    requires i <= |s|
    ensures i <= j <= |s|
    ensures forall k :: i <= k < j ==> IsDigit(s[k])
    ensures j == |s| || !IsDigit(s[j])
    decreases |s| - i
  {
    if i == |s| || !IsDigit(s[i]) then i else DigitsEnd(s, i + 1)
  }

  /** A run of digits is maximal in only one place. */
  lemma {:induction false} DigitsEndUnique(s: string, i: nat, j: nat)
    requires i <= j <= |s|
    requires forall k :: i <= k < j ==> IsDigit(s[k])
    requires j == |s| || !IsDigit(s[j])
    ensures DigitsEnd(s, i) == j
    decreases j - i
  {
    if i < j {
      DigitsEndUnique(s, i + 1, j);
    }
  }

  /** Whether the matcher matches at `p`, and where the capture ends. Both digit runs are
      maximal, because a shorter run would leave a digit where the point or the degree sign
      must stand, so no backtracking can find another match at `p`. */
  function MatchAt(s: string, p: nat): (r: Option<nat>)
    requires p <= |s|
  {
    var q := if p < |s| && IsSign(s[p]) then p + 1 else p;
    var d := DigitsEnd(s, q);
    if d == q || d == |s| || s[d] != '.' then
      None
    else
      var e := DigitsEnd(s, d + 1);
      if e == d + 1 || e + 2 > |s| || s[e] != '°' || s[e + 1] != 'C' then None else Some(e)
  }

  lemma MatchAtSound(s: string, p: nat)
    requires p <= |s|
    ensures MatchAt(s, p).Some? ==> CelsiusToken(s, p, MatchAt(s, p).value)
  {
    if MatchAt(s, p).Some? {
      var e := MatchAt(s, p).value;
      var q := if p < |s| && IsSign(s[p]) then p + 1 else p;
      var d := DigitsEnd(s, q);
      ShapeFromPlace(s, p, e, q - p, d - p);
    }
  }

  /** The converse of `ShapeInPlace`: a shape laid out in the line is a capture's shape. */
  lemma ShapeFromPlace(s: string, p: nat, e: nat, q: nat, d: nat)
    requires e <= |s| && q <= 1 && p + q < p + d < e - 1
    requires q == 1 ==> IsSign(s[p])
    requires forall k :: p + q <= k < p + d ==> IsDigit(s[k])
    requires s[p + d] == '.'
    requires forall k :: p + d + 1 <= k < e ==> IsDigit(s[k])
    ensures DecimalShape(s[p..e], q, d)
  {
    var t := s[p..e];
    SliceOfSlice(s, p, e, q, d);
    SliceOfSlice(s, p, e, d + 1, |t|);
    DigitRun(s, p + q, p + d);
    DigitRun(s, p + d + 1, e);
  }

  lemma SliceOfSlice(s: string, a: nat, b: nat, i: nat, j: nat)
    requires a <= b <= |s| && i <= j <= b - a
    ensures s[a..b][i..j] == s[a + i..a + j]
  {
    forall k | 0 <= k < j - i
      ensures s[a..b][i..j][k] == s[a + i..a + j][k]
    {
      assert s[a..b][i..j][k] == s[a..b][i + k] == s[a + i + k];
    }
  }

  /** A slice is all digits iff the stretch of the string it copies is. */
  lemma DigitRun(s: string, i: nat, j: nat)
    requires i <= j <= |s|
    ensures AllDigits(s[i..j]) <==> forall k :: i <= k < j ==> IsDigit(s[k])
  {
    if AllDigits(s[i..j]) {
      forall k | i <= k < j
        ensures IsDigit(s[k])
      {
        assert s[i..j][k - i] == s[k];
      }
    }
  }

  lemma MatchAtComplete(s: string, p: nat, e: nat)
    requires CelsiusToken(s, p, e)
    ensures MatchAt(s, p) == Some(e)
  {
    var q: nat, d: nat :| DecimalShape(s[p..e], q, d);
    ShapeInPlace(s, p, e, q, d);
    MatchAtShape(s, p, e, q, d);
  }

  /** The scanner finds a shape laid out in the line, ending where it ends. */
  lemma MatchAtShape(s: string, p: nat, e: nat, q: nat, d: nat)
    requires e + 2 <= |s| && s[e] == '°' && s[e + 1] == 'C'
    requires q <= 1 && p + q < p + d < e - 1
    requires IsSign(s[p]) <==> q == 1
    requires forall k :: p + q <= k < p + d ==> IsDigit(s[k])
    requires s[p + d] == '.'
    requires forall k :: p + d + 1 <= k < e ==> IsDigit(s[k])
    ensures MatchAt(s, p) == Some(e)
  {
    DigitsEndUnique(s, p + q, p + d);
    DigitsEndUnique(s, p + d + 1, e);
  }

  /** A capture's shape read off in the line itself. */
  lemma ShapeInPlace(s: string, p: nat, e: nat, q: nat, d: nat)
    requires p <= e <= |s| && DecimalShape(s[p..e], q, d)
    ensures p + q < p + d < e - 1
    ensures IsSign(s[p]) <==> q == 1
    ensures forall k :: p + q <= k < p + d ==> IsDigit(s[k])
    ensures s[p + d] == '.'
    ensures forall k :: p + d + 1 <= k < e ==> IsDigit(s[k])
  {
    var t := s[p..e];
    SliceOfSlice(s, p, e, q, d);
    SliceOfSlice(s, p, e, d + 1, |t|);
    DigitRun(s, p + q, p + d);
    DigitRun(s, p + d + 1, e);
    assert t[0] == s[p] && t[d] == s[p + d];
    if q == 0 {
      assert IsDigit(s[p + q]);
    }
  }

  lemma NoMatchAt(s: string, p: nat)
    requires p <= |s|
    requires MatchAt(s, p).None?
    ensures forall e: nat :: !CelsiusToken(s, p, e)
  {
    forall e: nat | CelsiusToken(s, p, e)
      ensures false
    {
      MatchAtComplete(s, p, e);
    }
  }

  /** The search for the first match from position `p` on. */
  function FindFrom(s: string, p: nat): (r: Option<(nat, nat)>)
    requires p <= |s|
    ensures r.Some? ==>
      && p <= r.value.0 && CelsiusToken(s, r.value.0, r.value.1)
      && forall p': nat, e': nat :: p <= p' < r.value.0 ==> !CelsiusToken(s, p', e')
    ensures r.None? ==> forall p': nat, e': nat :: p <= p' ==> !CelsiusToken(s, p', e')
    decreases |s| - p
  {
    MatchAtSound(s, p);
    match MatchAt(s, p)
    case Some(e) => Some((p, e))
    case None =>
      NoMatchAt(s, p);
      if p == |s| then None else FindFrom(s, p + 1)
  }

  function NatValue(ds: string): (n: nat)
    requires AllDigits(ds)
  {
    if |ds| == 0 then 0 else 10 * NatValue(ds[..|ds| - 1]) + DigitValue(ds[|ds| - 1])
  }

  function Pow10(n: nat): (r: nat)
    ensures r >= 1
  {
    if n == 0 then 1 else 10 * Pow10(n - 1)
  }

  /** A digit string stays below the next power of ten. */
  lemma {:induction false} NatValueBelow(ds: string)
    requires AllDigits(ds)
    ensures NatValue(ds) < Pow10(|ds|)
  {
    if |ds| > 0 {
      NatValueBelow(ds[..|ds| - 1]);
    }
  }

  /** Digits after digits: the value of `w + f` is that of `w` shifted by `|f|` places plus
      that of `f`. */
  lemma {:induction false} NatValueAppend(w: string, f: string)
    requires AllDigits(w) && AllDigits(f)
    ensures AllDigits(w + f)
    ensures NatValue(w + f) == NatValue(w) * Pow10(|f|) + NatValue(f)
    decreases |f|
  {
    assert forall k :: 0 <= k < |w + f| ==> IsDigit((w + f)[k]) by {
      forall k | 0 <= k < |w + f|
        ensures IsDigit((w + f)[k])
      {
        if k >= |w| {
          assert (w + f)[k] == f[k - |w|];
        }
      }
    }
    if |f| > 0 {
      var f' := f[..|f| - 1];
      assert AllDigits(f') by {
        forall k | 0 <= k < |f'|
          ensures IsDigit(f'[k])
        {
          assert f'[k] == f[k];
        }
      }
      NatValueAppend(w, f');
      assert (w + f)[..|w + f| - 1] == w + f';
      assert (w + f)[|w + f| - 1] == f[|f| - 1];
      ShiftDigit(NatValue(w), Pow10(|f'|), NatValue(f'), NatValue(w + f'), DigitValue(f[|f| - 1]));
    } else {
      assert w + f == w;
    }
  }

  lemma ShiftDigit(a: int, c: int, x: int, y: int, digit: int)
    requires y == a * c + x
    ensures 10 * y + digit == a * (10 * c) + (10 * x + digit)
  {
  }

  /** The unsigned value of whole digits `w` and fraction digits `f`: the digits read
      without the point, over ten to the number of fraction digits. */
  function Magnitude(w: string, f: string): (m: real)
    requires AllDigits(w) && AllDigits(f)
    ensures NatValue(w) as real <= m < NatValue(w) as real + 1.0
    ensures AllDigits(w + f) && m == NatValue(w + f) as real / Pow10(|f|) as real
  {
    NatValueBelow(f);
    NatValueAppend(w, f);
    WholePart(NatValue(w), NatValue(f), Pow10(|f|), NatValue(w + f));
    NatValue(w + f) as real / Pow10(|f|) as real
  }

  /** `t / b` for `t = a * b + n` with `0 <= n < b` lies in `[a, a + 1)`. */
  lemma WholePart(a: int, n: int, b: int, t: int)
    requires 0 <= n < b && t == a * b + n
    ensures a as real <= t as real / b as real < a as real + 1.0
  {
    var x, y := a as real, b as real;
    assert t as real == x * y + n as real;
    assert t as real / y == x + n as real / y;
    FractionBelowOne(n as real, y);
  }

  lemma FractionBelowOne(n: real, b: real)
    requires 0.0 <= n < b
    ensures 0.0 <= n / b < 1.0
  {
  }

  /** The sign and the point of a capture sit where the scanner looks for them. */
  lemma DecimalSplit(t: string)
    requires DecimalText(t)
    ensures var q := if IsSign(t[0]) then 1 else 0;
      var d := DigitsEnd(t, q);
      q < d < |t| - 1 && t[d] == '.' && AllDigits(t[q..d]) && AllDigits(t[d + 1..])
  {
    var q: nat, d: nat :| DecimalShape(t, q, d);
    if q == 0 {
      assert IsDigit(t[q..d][0]);
    }
    assert forall k :: q <= k < d ==> IsDigit(t[k]) by {
      forall k | q <= k < d
        ensures IsDigit(t[k])
      {
        assert t[q..d][k - q] == t[k];
      }
    }
    DigitsEndUnique(t, q, d);
  }

  /** `parseFloat` of a capture, exactly over the reals: the whole digits plus the fraction
      digits over the matching power of ten, negated after a minus sign. */
  function DecimalValue(t: string): (r: real)
    requires DecimalText(t)
    ensures t[0] == '-' ==> r <= 0.0
    ensures t[0] != '-' ==> r >= 0.0
    ensures var q := if IsSign(t[0]) then 1 else 0;
      var whole := NatValue(t[q..DigitsEnd(t, q)]) as real;
      whole <= (if r < 0.0 then -r else r) < whole + 1.0
    ensures var q := if IsSign(t[0]) then 1 else 0;
      var d := DigitsEnd(t, q);
      q < d < |t| - 1 && AllDigits(t[q..d] + t[d + 1..])
      && (if t[0] == '-' then -r else r) == NatValue(t[q..d] + t[d + 1..]) as real / Pow10(|t[d + 1..]|) as real
  {
    DecimalSplit(t);
    var q := if IsSign(t[0]) then 1 else 0;
    var d := DigitsEnd(t, q);
    var magnitude := Magnitude(t[q..d], t[d + 1..]);
    if t[0] == '-' then -magnitude else magnitude
  }

  /** `result[line].match(dataMatcher)`, its capture parsed: the number of the first match,
      nothing when the line does not match. */
  function Find(line: string): (r: Option<real>)
    ensures r.Some? <==> IsSensorData(line)
    ensures r.Some? ==> exists p: nat, e: nat :: Leftmost(line, p, e) && r.value == DecimalValue(line[p..e])
  {
    match FindFrom(line, 0)
    case None => None
    case Some((p, e)) => Some(DecimalValue(line[p..e]))
  }

  /** A line without the degree sign is never sensor data. */
  lemma NoDegreeNoData(s: string)
    requires forall k :: 0 <= k < |s| ==> s[k] != '°'
    ensures Find(s) == None
  {
  }

  /** Every character of a capture is a digit, the point, or a leading sign. */
  lemma CaptureChars(t: string, q: nat, d: nat, k: nat)
    requires DecimalShape(t, q, d) && k < |t|
    ensures IsDigit(t[k]) || t[k] == '.' || (k == 0 && IsSign(t[k]))
  {
    if q <= k < d {
      assert t[q..d][k - q] == t[k];
    } else if k > d {
      assert t[d + 1..][k - d - 1] == t[k];
    }
  }

  /** `line.match(dataMatcher)` is not `null`. */
  predicate Matches(line: string)
  {
    Find(line).Some?
  }

  // ---------------------------------------------------------------------------------------
  // Sensor names and core colours

  /** `line.match(/[^:]+/)` is not `null`: the line holds a character other than a colon. */
  predicate HasName(line: string)
  {
    exists k :: 0 <= k < |line| && line[k] != ':'
  }

  /** `name` is the first maximal run of characters other than a colon in `line`, and it
      starts at `i`. */
  ghost predicate NameAt(line: string, i: nat, name: string)
  {
    && |name| > 0 && i + |name| <= |line| && line[i..i + |name|] == name
    && (forall k :: 0 <= k < |name| ==> name[k] != ':')
    && (forall k :: 0 <= k < i ==> line[k] == ':')
    && (i + |name| == |line| || line[i + |name|] == ':')
  }

  /** The sensor name, `line.match(/[^:]+/)[0]`. */
  function SensorName(line: string): (r: string)
    requires HasName(line)
    ensures exists i: nat :: NameAt(line, i, r)
  {
    var i := RunEnd(line, 0, c => c == ':');
    var j := RunEnd(line, i, c => c != ':');
    assert NameAt(line, i, line[i..j]);
    line[i..j]
  }

  /** A data line always has a name: the degree sign of its match is not a colon. */
  lemma MatchedLineHasName(line: string)
    requires Matches(line)
    ensures HasName(line)
  {
    var p: nat, e: nat :| Leftmost(line, p, e);
    assert line[e] != ':';
  }

  /** `/core\s*(\d)/i` matches at `p` with its digit at `j`. */
  ghost predicate CoreToken(name: string, p: nat, j: nat)
  {
    && OccursAtIgnoreCase(name, "core", p) && p + 4 <= j < |name|
    && (forall k :: p + 4 <= k < j ==> IsSpace(name[k])) && IsDigit(name[j])
  }

  /** Where the digit of a core match at `p` stands: the space run is maximal, as a digit is
      never a space. */
  function CoreAt(name: string, p: nat): (r: Option<nat>)
    requires p <= |name|
  {
    if OccursAtIgnoreCase(name, "core", p) then
      var j := RunEnd(name, p + 4, IsSpace);
      if j < |name| && IsDigit(name[j]) then Some(j) else None
    else
      None
  }

  lemma CoreAtExact(name: string, p: nat)
    requires p <= |name|
    ensures CoreAt(name, p).Some? ==> CoreToken(name, p, CoreAt(name, p).value)
    ensures forall j: nat :: CoreToken(name, p, j) ==> CoreAt(name, p) == Some(j)
  {
    forall j: nat | CoreToken(name, p, j)
      ensures CoreAt(name, p) == Some(j)
    {
      assert !IsSpace(name[j]);
      RunEndUnique(name, p + 4, IsSpace, j);
    }
  }

  /** The first core match from `p` on: where it starts and where its digit stands. */
  function CoreFrom(name: string, p: nat): (r: Option<(nat, nat)>)
    requires p <= |name|
    ensures r.Some? ==>
      && p <= r.value.0 && CoreToken(name, r.value.0, r.value.1)
      && forall p': nat, j: nat :: p <= p' < r.value.0 ==> !CoreToken(name, p', j)
    ensures r.None? ==> forall p': nat, j: nat :: p <= p' ==> !CoreToken(name, p', j)
    decreases |name| - p
  {
    CoreAtExact(name, p);
    match CoreAt(name, p)
    case Some(j) => Some((p, j))
    case None =>
      assert forall j: nat :: !CoreToken(name, p, j);
      if p == |name| then
        None
      else
        var r := CoreFrom(name, p + 1);
        assert forall p': nat, j: nat :: p <= p' && CoreToken(name, p', j) ==> p + 1 <= p';
        r
  }

  /** The colour reference `parseSensorLine` pushes: for a name matching "core", optional
      white space and a digit `d` (ASCII letters in any case), `d % 4 + 1`; otherwise `null`. */
  function ColorRef(name: string): (r: Option<nat>)
    ensures r.None? <==> forall p: nat, j: nat :: !CoreToken(name, p, j)
    ensures r.Some? ==> 1 <= r.value <= 4
    ensures r.Some? ==> exists p: nat, j: nat ::
      && CoreToken(name, p, j) && r.value == DigitValue(name[j]) % 4 + 1
      && forall p': nat, j': nat :: p' < p ==> !CoreToken(name, p', j')
  {
    match CoreFrom(name, 0)
    case None => None
    case Some((_, j)) => Some(DigitValue(name[j]) % 4 + 1)
  }

  // ---------------------------------------------------------------------------------------
  // The provider

  /** The thermal provider: the sensor provider state plus one colour reference per sensor. */
  datatype ThermalProvider = ThermalProvider(base: Provider, colorRefs: seq<Option<nat>>)

  /** The settings the thermal provider reads: `graphSteps`, `thermalMode`, `thermalWarning`,
      `thermalWarningTime`, `thermalWarningValue` and `thermalUnit`. */
  datatype Settings = Settings(
    graphSteps: nat,
    mode: string,
    warning: JsValue,
    warningTime: int,
    warningValue: real,
    unit: JsValue)

  /** The per-sensor lists line up: one history per sensor after the aggregate's, one name and
      one colour reference per sensor, and the sensor lines strictly increasing. */
  predicate WellFormed(t: ThermalProvider)
  {
    && |t.base.store.series| == |t.base.sensors| + 1
    && |t.base.sensorNames| == |t.base.sensors|
    && |t.colorRefs| == |t.base.sensors|
    && forall k, l :: 0 <= k < l < |t.base.sensors| ==> t.base.sensors[k] < t.base.sensors[l]
  }

  /** `parseSensorLine(line, lineNumber)`: one more sensor, with its colour reference, line
      number, name and an empty history. */
  function ParseSensorLine(t: ThermalProvider, line: string, lineNumber: nat): (r: ThermalProvider)
    requires HasName(line)
    ensures r.colorRefs == t.colorRefs + [ColorRef(SensorName(line))]
    ensures r.base.sensors == t.base.sensors + [lineNumber]
    ensures r.base.sensorNames == t.base.sensorNames + [SensorName(line)]
    ensures r.base.store.series == t.base.store.series + [[]]
    ensures r.base.store.tracker == t.base.store.tracker && r.base.data == t.base.data
    ensures r.base.notifications == t.base.notifications && r.base.unavailable == t.base.unavailable
  {
    var name := SensorName(line);
    var b := t.base;
    ThermalProvider(
      b.(sensors := b.sensors + [lineNumber],
         sensorNames := b.sensorNames + [name],
         store := b.store.(series := b.store.series + [[]])),
      t.colorRefs + [ColorRef(name)])
  }

  /** Every picked line is in range and has a name. */
  predicate Nameable(lines: seq<string>, picked: seq<nat>)
  {
    forall k :: 0 <= k < |picked| ==> picked[k] < |lines| && HasName(lines[picked[k]])
  }

  /** `parseSensorLine` over the given line numbers, in order; `ParseAllNames` and
      `ParseAllColors` state what names and colours it appends. */
  function ParseAll(t: ThermalProvider, lines: seq<string>, picked: seq<nat>): (r: ThermalProvider)
    requires Nameable(lines, picked)
    ensures r.base.sensors == t.base.sensors + picked
    ensures |r.base.store.series| == |t.base.store.series| + |picked|
    ensures forall i :: 0 <= i < |r.base.store.series| ==>
      r.base.store.series[i] == if i < |t.base.store.series| then t.base.store.series[i] else []
    ensures r.base.store.tracker == t.base.store.tracker && r.base.data == t.base.data
    ensures r.base.notifications == t.base.notifications && r.base.unavailable == t.base.unavailable
    decreases |picked|
  {
    if |picked| == 0 then
      t
    else
      var n := |picked| - 1;
      var u := ParseAll(t, lines, picked[..n]);
      assert picked[..n] + [picked[n]] == picked;
      ParseSensorLine(u, lines[picked[n]], picked[n])
  }

  /** Every recorded sensor is a line with a name, and its name is that line's name. */
  predicate NamesFollowLines(t: ThermalProvider, lines: seq<string>)
  {
    && Nameable(lines, t.base.sensors)
    && |t.base.sensorNames| == |t.base.sensors|
    && forall k :: 0 <= k < |t.base.sensors| ==> t.base.sensorNames[k] == SensorName(lines[t.base.sensors[k]])
  }

  /** Every sensor's colour reference is the one its name gives. */
  predicate ColorsFollowNames(t: ThermalProvider)
  {
    && |t.colorRefs| == |t.base.sensorNames|
    && forall k :: 0 <= k < |t.colorRefs| ==> t.colorRefs[k] == ColorRef(t.base.sensorNames[k])
  }

  /** Handing lines over keeps every sensor named after its line. */
  lemma {:induction false} ParseAllNames(t: ThermalProvider, lines: seq<string>, picked: seq<nat>)
    requires Nameable(lines, picked)
    requires NamesFollowLines(t, lines)
    ensures NamesFollowLines(ParseAll(t, lines, picked), lines)
    decreases |picked|
  {
    if |picked| > 0 {
      ParseAllNames(t, lines, picked[..|picked| - 1]);
    }
  }

  /** Handing lines over keeps every colour reference the one its sensor's name gives. */
  lemma {:induction false} ParseAllColors(t: ThermalProvider, lines: seq<string>, picked: seq<nat>)
    requires Nameable(lines, picked)
    requires ColorsFollowNames(t)
    ensures ColorsFollowNames(ParseAll(t, lines, picked))
    decreases |picked|
  {
    if |picked| > 0 {
      ParseAllColors(t, lines, picked[..|picked| - 1]);
    }
  }

  /** The provider before the scan: the aggregate's empty history, both extrema tracked but
      unset, no sensors. The warning countdown starts at 0: the source leaves it undefined
      until the settings hook sets it, and neither value can reach a notification before a
      reset. */
  const Fresh := ThermalProvider(Provider(Store([[]], Tracker(Unset, Unset, 0, 0)), map[], [], [], 0, false), [])

  /** The loop of `init` over the sensor lines, each recorded line handed to
      `parseSensorLine`. */
  function ScanSensors(lines: seq<string>): (t: ThermalProvider)
    ensures t.base.sensors == Scan(lines, Matches) && !t.base.unavailable
    ensures NamesFollowLines(t, lines) && ColorsFollowNames(t)
    ensures t.base.store.tracker == Tracker(Unset, Unset, 0, 0)
    ensures t.base.notifications == 0
    ensures |t.base.store.series| == |t.base.sensors| + 1
    ensures forall i :: 0 <= i < |t.base.store.series| ==> t.base.store.series[i] == []
    ensures t.base.data == map[]
  {
    ScanNameable(lines);
    var r := ParseAll(Fresh, lines, Scan(lines, Matches));
    ParseAllFromFresh(lines, Scan(lines, Matches));
    r
  }

  /** Parsing into a fresh provider leaves every history empty and keeps names and colours
      in step with the lines. */
  lemma ParseAllFromFresh(lines: seq<string>, picked: seq<nat>)
    requires Nameable(lines, picked)
    ensures var r := ParseAll(Fresh, lines, picked);
      && (forall i :: 0 <= i < |r.base.store.series| ==> r.base.store.series[i] == [])
      && NamesFollowLines(r, lines) && ColorsFollowNames(r)
  {
    assert Fresh.base.store.series == [[]];
    FreshFollows(lines);
    ParseAllNames(Fresh, lines, picked);
    ParseAllColors(Fresh, lines, picked);
  }

  /** A provider with no sensors trivially has its names and colours in step. */
  lemma FreshFollows(lines: seq<string>)
    ensures NamesFollowLines(Fresh, lines) && ColorsFollowNames(Fresh)
  {
  }

  /** Every line the scan records has a name. */
  lemma ScanNameable(lines: seq<string>)
    ensures Nameable(lines, Scan(lines, Matches))
  {
    var picked := Scan(lines, Matches);
    forall k | 0 <= k < |picked|
      ensures picked[k] < |lines| && HasName(lines[picked[k]])
    {
      MatchedLineHasName(lines[picked[k]]);
    }
  }

  /** The scan records exactly the data lines of real adapter sections, in increasing order,
      and leaves the per-sensor lists lined up. */
  lemma ScanSensorsSelects(lines: seq<string>)
    ensures WellFormed(ScanSensors(lines))
    ensures var t := ScanSensors(lines);
      && (forall k :: 0 <= k < |t.base.sensors| ==> Selected(lines, Matches, t.base.sensors[k]))
      && (forall x :: Selected(lines, Matches, x) ==> x in t.base.sensors)
  {
    ScanSelects(lines, Matches);
  }

  /** `init(module, sensorLines)`: the provider is unavailable iff there are no sensor lines
      at all or the scan recorded none. */
  function Init(sensorLines: Option<seq<string>>): (t: ThermalProvider)
    ensures WellFormed(t)
    ensures t.base.unavailable <==> sensorLines.None? || |t.base.sensors| == 0
    ensures sensorLines.None? ==> t.base.sensors == []
    ensures sensorLines.Some? ==> t.base == ScanSensors(sensorLines.value).base.(unavailable := t.base.unavailable)
    ensures sensorLines.Some? ==> t.colorRefs == ScanSensors(sensorLines.value).colorRefs
    ensures t.base.store.tracker == Tracker(Unset, Unset, 0, 0)
    ensures forall i :: 0 <= i < |t.base.store.series| ==> t.base.store.series[i] == []
    ensures t.base.data == map[] && t.base.notifications == 0
    ensures Bounded(t.base.store)
  {
    match sensorLines
    case None => Fresh.(base := Fresh.base.(unavailable := true))
    case Some(lines) =>
      var t := ScanSensors(lines);
      ScanSensorsSelects(lines);
      if |t.base.sensors| == 0 then t.(base := t.base.(unavailable := true)) else t
  }

  /** From start-up, the shared warning counter cannot notify before a tick below the
      threshold (or the settings hook) resets it, whatever the sensor lines were. */
  lemma InitIsSilentUntilReset(sensorLines: Option<seq<string>>, values: seq<real>, n: nat, threshold: real, warningTime: int)
    requires n <= |values|
    requires forall k :: 0 <= k < n ==> values[k] >= threshold
    ensures forall k :: 0 <= k < n ==>
      !Warning.Run(Init(sensorLines).base.notifications, values, threshold, warningTime).fires[k]
  {
    Warning.SpentCountdownIsSilent(Init(sensorLines).base.notifications, values, n, threshold, warningTime);
  }

  /** How a tick ends: complete, with whether the warning notified, or stopped at the first
      sensor whose line is missing or does not match. */
  datatype TickResult = Completed(t: ThermalProvider, notified: bool) | Aborted(t: ThermalProvider, sensor: nat)

  /** `parseResult(result)`: the sensor provider's `getData(result)`, then, when the thermal
      warning is on, `checkWarning` on the aggregate with the shared counter. */
  function Tick(t: ThermalProvider, s: Settings, result: seq<string>): (r: TickResult)
    requires |t.base.sensors| > 0
    ensures r.t.colorRefs == t.colorRefs
    ensures r.t.base.sensors == t.base.sensors && r.t.base.sensorNames == t.base.sensorNames
    ensures |r.t.base.store.series| == |t.base.store.series|
    ensures WellFormed(t) ==> WellFormed(r.t)
    ensures r.Aborted? <==> !AllRead(result, t.base.sensors, Find)
    ensures r.t.base == GetData(t.base, s.mode, s.graphSteps, result, Find).p.(notifications := r.t.base.notifications)
    ensures r.Aborted? ==> r.sensor == GetData(t.base, s.mode, s.graphSteps, result, Find).sensor
    ensures r.Aborted? ==>
      && r.sensor < |t.base.sensors| && Reading(result, t.base.sensors[r.sensor], Find).None?
      && forall k :: 0 <= k < r.sensor ==> Reading(result, t.base.sensors[k], Find).Some?
    ensures r.Aborted? ==> r.t.base.notifications == t.base.notifications
    ensures r.Completed? ==>
      var agg := Aggregate(s.mode, Readings(result, t.base.sensors, Find));
      && 0 in r.t.base.data && r.t.base.data[0] == agg
      && (Truthy(s.warning) ==>
            var step := CheckWarning(t.base.notifications, agg, s.warningValue, s.warningTime);
            r.t.base.notifications == step.counter && r.notified == step.notify)
      && (!Truthy(s.warning) ==> r.t.base.notifications == t.base.notifications && !r.notified)
  {
    GetDataDone(t.base, s.mode, s.graphSteps, result, Find);
    match GetData(t.base, s.mode, s.graphSteps, result, Find)
    case Threw(p, k) => Aborted(t.(base := p), k)
    case Done(p) =>
      if Truthy(s.warning) then
        var step := CheckWarning(p.notifications, p.data[0], s.warningValue, s.warningTime);
        Completed(t.(base := p.(notifications := step.counter)), step.notify)
      else
        Completed(t.(base := p), false)
  }

  /** Fahrenheit back to Celsius, `(v - 32) * 5 / 9`. */
  function CelsiusOf(fahrenheit: real): (c: real)
    ensures Units.FahrenheitOf(c) == fahrenheit
  {
    (fahrenheit - 32.0) * 5.0 / 9.0
  }

  /** `onSettingsChanged()`: with the warning on, the countdown restarts at the warning time,
      and a threshold entered in Fahrenheit (unit setting falsy) is converted to Celsius, the
      unit the sensors report in. */
  function OnSettingsChanged(t: ThermalProvider, s: Settings): (r: (ThermalProvider, Settings))
    ensures !Truthy(s.warning) ==> r == (t, s)
    ensures Truthy(s.warning) ==> r.0 == t.(base := t.base.(notifications := s.warningTime))
    ensures Truthy(s.warning) && Truthy(s.unit) ==> r.1 == s
    ensures Truthy(s.warning) && !Truthy(s.unit) ==>
      r.1 == s.(warningValue := r.1.warningValue) && Units.FahrenheitOf(r.1.warningValue) == s.warningValue
  {
    if Truthy(s.warning) then
      var t' := t.(base := t.base.(notifications := s.warningTime));
      if Truthy(s.unit) then (t', s) else (t', s.(warningValue := CelsiusOf(s.warningValue)))
    else
      (t, s)
  }

  /** The converted threshold is shown as the number the user entered: `formatThermal` with
      the same falsy unit setting turns it back into that Fahrenheit value. */
  lemma ThresholdShownAsEntered(t: ThermalProvider, s: Settings, f: Units.Formatter)
    requires Truthy(s.warning) && !Truthy(s.unit)
    requires f.thermalUnit == s.unit
    ensures Units.FormatThermal(f, OnSettingsChanged(t, s).1.warningValue) == f.toFixed(s.warningValue, 1) + "\U{2109}"
  {
  }
}
