/** A worked example of the thermal provider: `sensors` output with a virtual adapter, whose
    reading must be ignored, followed by an ISA adapter with one core, taken through
    start-up, the settings hook and one tick. */
module Scenario {
  import opened Js
  import opened Sensors
  import opened Thermal
  import Warning

  const L0 := "Adapter: Virtual device"
  const L1 := "temp1: +40.0°C"
  const L2 := "Adapter: ISA adapter"
  const L3 := "Core 0: +45.0°C"
  const Lines := [L0, L1, L2, L3]

  /** The warning on, one tick of warning time, a 40 ℃ threshold, aggregate by maximum. */
  const Hot := Settings(10, "max", Bool(true), 1, 40.0, Str("celsius"))

  /** A capture of the form `+dd.d` reads as its three digits over ten. */
  lemma ShortCapture(t: string)
    requires |t| == 5 && t[0] == '+' && IsDigit(t[1]) && IsDigit(t[2]) && t[3] == '.' && IsDigit(t[4])
    ensures DecimalText(t)
    ensures DecimalValue(t) == (100 * DigitValue(t[1]) + 10 * DigitValue(t[2]) + DigitValue(t[4])) as real / 10.0
  {
    ShortCaptureShape(t);
    var w := t[1..3] + t[4..];
    assert w == [t[1], t[2], t[4]];
    ThreeDigits(t[1], t[2], t[4]);
    assert |t[4..]| == 1 && Pow10(1) == 10;
  }

  /** Such a capture has its sign at 0, whole digits at 1 and 2 and its point at 3. */
  lemma ShortCaptureShape(t: string)
    requires |t| == 5 && t[0] == '+' && IsDigit(t[1]) && IsDigit(t[2]) && t[3] == '.' && IsDigit(t[4])
    ensures DecimalShape(t, 1, 3) && DecimalText(t) && DigitsEnd(t, 1) == 3
  {
    assert t[1..3] == [t[1], t[2]] && t[4..] == [t[4]];
    assert DecimalShape(t, 1, 3);
    DigitsEndUnique(t, 1, 3);
  }

  /** Three digits read as a number in base ten. */
  lemma ThreeDigits(x: char, y: char, z: char)
    requires IsDigit(x) && IsDigit(y) && IsDigit(z)
    ensures AllDigits([x, y, z])
    ensures NatValue([x, y, z]) == 100 * DigitValue(x) + 10 * DigitValue(y) + DigitValue(z)
  {
    var a, b, w := [x], [x, y], [x, y, z];
    assert a[..0] == [] && b[..1] == a && w[..2] == b;
    assert NatValue(a) == DigitValue(x);
    assert NatValue(b) == 10 * DigitValue(x) + DigitValue(y);
  }

  /** "+45.0" is a capture, and it reads 45: the digits 450 over ten. */
  lemma PlusFortyFive(t: string)
    requires t == "+45.0"
    ensures DecimalText(t) && DecimalValue(t) == 45.0
  {
    ShortCapture(t);
  }

  /** "+40.0" is a capture, and it reads 40: the digits 400 over ten. */
  lemma PlusForty(t: string)
    requires t == "+40.0"
    ensures DecimalText(t) && DecimalValue(t) == 40.0
  {
    ShortCapture(t);
  }

  /** The core line reads 45: the first match starts at the sign, not at the digits after
      it, and nothing before the sign can start one. */
  lemma CoreReading()
    ensures FindFrom(L3, 0) == Some((8, 13))
    ensures Find(L3) == Some(45.0)
  {
    assert L3[..8] == "Core 0: " && L3[8..13] == "+45.0";
    PlusFortyFive(L3[8..13]);
    OneTokenLine(L3, 8);
  }

  /** The virtual adapter's line is sensor data too: it reads 40, from the match at its
      sign. */
  lemma VirtualReading()
    ensures FindFrom(L1, 0) == Some((7, 12))
    ensures Find(L1) == Some(40.0) && Matches(L1) && Matches(Lines[1])
  {
    assert Lines[1] == L1;
    assert L1[..7] == "temp1: " && L1[7..12] == "+40.0";
    PlusForty(L1[7..12]);
    OneTokenLine(L1, 7);
  }

  /** A line made of a label ending in a space, a five-character capture, and "°C", with no
      other degree sign: its only match is that capture, so the matcher reports it. */
  lemma OneTokenLine(s: string, o: nat)
    requires 1 <= o && o + 7 == |s| && s[o - 1] == ' '
    requires forall k :: 0 <= k < o + 5 ==> s[k] != '°'
    requires DecimalText(s[o..o + 5]) && s[o + 5] == '°' && s[o + 6] == 'C'
    ensures forall p: nat, e: nat :: CelsiusToken(s, p, e) ==> p >= o && e == o + 5
    ensures FindFrom(s, 0) == Some((o, o + 5))
    ensures Find(s) == Some(DecimalValue(s[o..o + 5]))
  {
    FirstTokenAt(s, o);
    forall p: nat, e: nat | CelsiusToken(s, p, e)
      ensures p >= o && e == o + 5
    {
      OnlyTokenAt(s, o, p, e);
    }
  }

  /** The search from the start of such a line stops at the capture after the label. */
  lemma FirstTokenAt(s: string, o: nat)
    requires 1 <= o && o + 7 == |s| && s[o - 1] == ' '
    requires forall k :: 0 <= k < o + 5 ==> s[k] != '°'
    requires DecimalText(s[o..o + 5]) && s[o + 5] == '°' && s[o + 6] == 'C'
    ensures FindFrom(s, 0) == Some((o, o + 5))
  {
    var r := FindFrom(s, 0);
    assert CelsiusToken(s, o, o + 5);
    assert r.Some?;
    var (p, e) := r.value;
    OnlyTokenAt(s, o, p, e);
    assert p == o;
  }

  /** In such a line a match starts after the label's space and ends at the degree sign. */
  lemma OnlyTokenAt(s: string, o: nat, p: nat, e: nat)
    requires 1 <= o && o + 7 == |s| && s[o - 1] == ' '
    requires forall k :: 0 <= k < o + 5 ==> s[k] != '°'
    requires CelsiusToken(s, p, e)
    ensures p >= o && e == o + 5
  {
    TokenAfterSpace(s, o - 1, p, e);
  }

  /** A match cannot span a space: one that ends after position `m`, where a space stands,
      starts after it. */
  lemma TokenAfterSpace(s: string, m: nat, p: nat, e: nat)
    requires CelsiusToken(s, p, e) && m < e && m < |s| && s[m] == ' '
    ensures p > m
  {
    if p <= m {
      var t := s[p..e];
      var q: nat, d: nat :| DecimalShape(t, q, d);
      assert t[m - p] == s[m];
      CaptureChars(t, q, d, m - p);
    }
  }

  /** The core line is named "Core 0" and takes colour 1. */
  lemma CoreName()
    ensures HasName(L3) && SensorName(L3) == "Core 0"
    ensures ColorRef("Core 0") == Some(1)
  {
    LineName(L3);
    assert L3[..6] == "Core 0";
    CoreZeroColor("Core 0");
  }

  /** A line starting "Core 0:" is named by its first six characters. */
  lemma LineName(s: string)
    requires |s| >= 7 && s[..7] == "Core 0:"
    ensures HasName(s) && SensorName(s) == s[..6]
  {
    assert s[0] == s[..7][0] && s[6] == s[..7][6];
    var r := SensorName(s);
    var i: nat :| NameAt(s, i, r);
    assert i == 0;
    assert |r| == 6 by {
      forall k | 0 <= k < 6
        ensures s[k] != ':'
      {
        assert s[k] == s[..7][k];
      }
    }
    assert r == s[..6];
  }

  /** "Core 0" has its only core match at the start, with the digit 0, so colour 1. */
  lemma CoreZeroColor(name: string)
    requires |name| == 6 && name[..4] == "Core" && name[4] == ' ' && name[5] == '0'
    ensures ColorRef(name) == Some(1)
  {
    forall k | 0 <= k < 4
      ensures LowerAscii(name[k]) == "core"[k]
    {
      assert name[k] == name[..4][k];
    }
    assert CoreToken(name, 0, 5);
    forall p: nat, j: nat | CoreToken(name, p, j)
      ensures p == 0 && j == 5
    {
      assert "core"[0] == 'c';
      assert LowerAscii(name[p]) == 'c';
      assert !IsDigit(name[4]);
    }
  }

  lemma Headers()
    ensures IsAdapterLine(L0) && IsAdapterLine(L2) && !IsAdapterLine(L1) && !IsAdapterLine(L3)
    ensures ContainsIgnoreCase(L0, "virtual") && !ContainsIgnoreCase(L2, "virtual")
  {
    AdapterHeaders();
    VirtualHeader();
    IsaHeader();
  }

  lemma AdapterHeaders()
    ensures IsAdapterLine(L0) && IsAdapterLine(L2) && !IsAdapterLine(L1) && !IsAdapterLine(L3)
  {
    assert L1[0] != 'A' && L3[0] != 'A';
    assert L0[..8] == "Adapter:" && L2[..8] == "Adapter:";
  }

  lemma VirtualHeader()
    ensures ContainsIgnoreCase(L0, "virtual")
  {
    assert OccursAtIgnoreCase(L0, "virtual", 9);
  }

  lemma IsaHeader()
    ensures !ContainsIgnoreCase(L2, "virtual")
  {
    assert forall k :: 0 <= k < |L2| ==> LowerAscii(L2[k]) != 'v';
    forall at | 0 <= at <= |L2|
      ensures !OccursAtIgnoreCase(L2, "virtual", at)
    {
      assert "virtual"[0] == 'v';
    }
  }

  lemma ScanLast()
    ensures ScanFrom(Lines, Matches, 3, true) == [3]
  {
    assert |Lines| == 4 && Lines[3] == L3;
    CoreReading();
    Headers();
  }

  lemma ScanIsa()
    ensures ScanFrom(Lines, Matches, 2, false) == [3]
  {
    assert |Lines| == 4 && Lines[2] == L2;
    Headers();
    NoDegreeNoData(L2);
    ScanLast();
  }

  /** Only the core line is recorded: the virtual adapter's line matches too, but it is
      outside a real adapter's section. */
  lemma Scanned()
    ensures Find(L1) == Some(40.0) && Matches(Lines[1])
    ensures Scan(Lines, Matches) == [3]
  {
    VirtualReading();
    CoreOnly();
  }

  lemma CoreOnly()
    ensures Scan(Lines, Matches) == [3]
  {
    Headers();
    assert |Lines| == 4 && Lines[0] == L0;
    SkipVirtualHeader(Lines);
    ScanVirtual();
  }

  /** A virtual adapter's header leaves the scan outside any real section. */
  lemma SkipVirtualHeader(lines: seq<string>)
    requires |lines| > 0 && IsAdapterLine(lines[0]) && ContainsIgnoreCase(lines[0], "virtual")
    ensures Scan(lines, Matches) == ScanFrom(lines, Matches, 1, false)
  {
  }

  lemma ScanVirtual()
    ensures ScanFrom(Lines, Matches, 1, false) == [3]
  {
    assert |Lines| == 4 && Lines[1] == L1;
    ScanIsa();
    Headers();
  }

  lemma VirtualAdapterIgnored()
    ensures var t := Init(Some(Lines));
      && t.base.sensors == [3] && t.base.sensorNames == ["Core 0"]
      && t.colorRefs == [Some(1)] && !t.base.unavailable
  {
    Scanned();
    CoreName();
    assert Lines[3] == L3;
  }

  lemma HotTick(t: ThermalProvider, lines: seq<string>)
    requires t.base.sensors == [3] && t.base.notifications == 1
    requires Reading(lines, 3, Find) == Some(45.0)
    ensures var r := Tick(t, Hot, lines);
      r.Completed? && 0 in r.t.base.data && r.t.base.data[0] == 45.0 && r.notified
  {
    assert AllRead(lines, [3], Find);
    assert Readings(lines, [3], Find) == [45.0];
    assert Aggregate("max", [45.0]) == 45.0;
    assert Truthy(Hot.warning);
  }

  /** The core line is the fourth line of the output, and it reads 45. */
  lemma CoreLineReads()
    ensures Reading(Lines, 3, Find) == Some(45.0)
  {
    CoreReading();
    assert Lines[3] == L3;
  }

  /** After the settings hook, the first tick completes with aggregate 45 and, the threshold
      being crossed with one tick of warning time, notifies. */
  lemma HotCoreNotifies()
    ensures var changed := OnSettingsChanged(Init(Some(Lines)), Hot);
      && |changed.0.base.sensors| == 1
      && var r := Tick(changed.0, changed.1, Lines);
      && r.Completed? && 0 in r.t.base.data && r.t.base.data[0] == 45.0 && r.notified
  {
    VirtualAdapterIgnored();
    CoreLineReads();
    HotAfterSettings(Init(Some(Lines)), Lines);
  }

  lemma HotAfterSettings(t: ThermalProvider, lines: seq<string>)
    requires t.base.sensors == [3]
    requires Reading(lines, 3, Find) == Some(45.0)
    ensures var changed := OnSettingsChanged(t, Hot);
      && |changed.0.base.sensors| == 1
      && var r := Tick(changed.0, changed.1, lines);
      && r.Completed? && 0 in r.t.base.data && r.t.base.data[0] == 45.0 && r.notified
  {
    var changed := OnSettingsChanged(t, Hot);
    assert changed.1 == Hot;
    HotTick(changed.0, lines);
  }
}
