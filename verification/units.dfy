/** Unit formatting: prefix scaling by powers of 1000 or 1024 and the display formatters for
    bytes, rates, percentages, temperatures and fan speeds (modules/__init__.js). */
module Units {
  import opened Js

  /** `PREFIX`: the prefix letters indexed by exponent. Slot 0 is a blank, and there is no
      letter for the fifth power (peta): slot 5 holds `E`. */
  const PrefixTable: string := " KMGTEZY"

  /** The scale factor: 1024 for binary prefixes, 1000 for decimal ones. */
  function Base(binary: bool): real
  {
    if binary then 1024.0 else 1000.0
  }

  function Pow(b: real, k: nat): (r: real)
    requires b >= 1.0
    ensures r >= 1.0
  {
    if k == 0 then 1.0 else b * Pow(b, k - 1)
  }

  /** `v / b^k` for any integer `k`. */
  function Scale(v: real, b: real, k: int): real
    requires b >= 1.0
  {
    if k >= 0 then v / Pow(b, k) else v * Pow(b, -k)
  }

  /** `x * b^k` for any integer `k`: the inverse of `Scale`. */
  function Unscale(x: real, b: real, k: int): real
    requires b >= 1.0
  {
    if k >= 0 then x * Pow(b, k) else x / Pow(b, -k)
  }

  lemma UnscaleScale(v: real, b: real, k: int)
    requires b >= 1.0
    ensures Unscale(Scale(v, b, k), b, k) == v
  {
    if k >= 0 {
      DivMul(v, Pow(b, k));
    } else {
      MulDiv(v, Pow(b, -k));
    }
  }

  lemma DivMul(v: real, p: real)
    requires p > 0.0
    ensures (v / p) * p == v
  {
  }

  lemma MulDiv(v: real, p: real)
    requires p > 0.0
    ensures (v * p) / p == v
  {
  }

  lemma DivDiv(v: real, b: real, p: real)
    requires b > 0.0 && p > 0.0
    ensures (v / b) / p == v / (b * p)
  {
  }

  lemma DivTimes(v: real, b: real, p: real)
    requires b > 0.0
    ensures (v / b) * (b * p) == v * p
  {
  }

  /** Scaling `v / b` by `b^j` is scaling `v` by `b^(j+1)`. */
  lemma ScaleDiv(v: real, b: real, j: int)
    requires b >= 1.0
    ensures Scale(v / b, b, j) == Scale(v, b, j + 1)
  {
    if j >= 0 {
      ScaleDivUp(v, b, j);
    } else if j == -1 {
      assert Pow(b, 1) == b;
      DivMul(v, b);
    } else {
      ScaleDivDown(v, b, j);
    }
  }

  lemma ScaleDivUp(v: real, b: real, j: nat)
    requires b >= 1.0
    ensures Scale(v / b, b, j) == Scale(v, b, j + 1)
  {
    assert Pow(b, j + 1) == b * Pow(b, j);
    DivDiv(v, b, Pow(b, j));
  }

  lemma ScaleDivDown(v: real, b: real, j: int)
    requires b >= 1.0 && j < -1
    ensures Scale(v / b, b, j) == Scale(v, b, j + 1)
  {
    assert Pow(b, -j) == b * Pow(b, -j - 1);
    DivTimes(v, b, Pow(b, -j - 1));
  }

  lemma ScaleTimes(v: real, b: real, j: int)
    requires b >= 1.0
    ensures Scale(v * b, b, j) == Scale(v, b, j - 1)
  {
    ScaleDiv(v * b, b, j - 1);
    MulDiv(v, b);
  }

  lemma DivScaledUp(v: real, b: real, p: real)
    requires b > 0.0 && p > 0.0
    ensures v / p == b * (v / (b * p))
  {
  }

  lemma PositiveScale(v: real, b: real, j: int)
    requires v > 0.0 && b >= 1.0
    ensures Scale(v, b, j) > 0.0
  {
  }

  /** One more power of `b` in the divisor shrinks the scaled value by a factor `b`. */
  lemma ScaleShift(v: real, b: real, j: int)
    requires v > 0.0 && b >= 1.0
    ensures Scale(v, b, j) == b * Scale(v, b, j + 1)
  {
    if j >= 0 {
      assert Pow(b, j + 1) == b * Pow(b, j);
      DivScaledUp(v, b, Pow(b, j));
    } else if j == -1 {
      assert Pow(b, 1) == b;
    } else {
      assert Pow(b, -j) == b * Pow(b, -j - 1);
    }
  }

  lemma {:induction false} ScaleDecreasing(v: real, b: real, i: int, j: int)
    requires v > 0.0 && b >= 1.0 && i < j
    ensures Scale(v, b, i) >= b * Scale(v, b, j)
    decreases j - i
  {
    ScaleShift(v, b, i);
    if i + 1 < j {
      ScaleDecreasing(v, b, i + 1, j);
      PositiveScale(v, b, j);
      GrowByFactor(b, Scale(v, b, j));
    }
  }

  lemma GrowByFactor(b: real, x: real)
    requires b >= 1.0 && x > 0.0
    ensures b * (b * x) >= b * x
  {
  }

  lemma DivFloorDecreases(v: real, b: real)
    requires v >= b && b >= 2.0
    ensures v / b >= 1.0
    ensures (v / b).Floor < v.Floor
  {
    assert v / b <= v / 2.0;
  }

  lemma CancelPositive(v: real, x: real, y: real)
    requires v > 0.0 && v * x < v * y
    ensures x < y
  {
  }

  lemma InverseFloorDecreases(v: real, b: real)
    requires v > 0.0 && b >= 2.0
    ensures v * b < 1.0 ==> (1.0 / (v * b)).Floor < (1.0 / v).Floor
  {
    if v * b < 1.0 {
      var w := 1.0 / v;
      var vb := v * b;
      var vw := v * w;
      assert vw == 1.0 && vb < vw;
      CancelPositive(v, b, w);
      assert 1.0 / (v * b) == w / b;
      assert w / b <= w / 2.0;
    }
  }

  /** The exponent `determinatePrefix` computes as `floor(log(v) / log(b))`: the integer `k`
      for which `v / b^k` falls in `[1, b)`. Values below 1 get a negative exponent. */
  function Exponent(v: real, b: real): (k: int)
    requires v > 0.0 && b >= 2.0
    ensures 1.0 <= Scale(v, b, k) < b
    ensures v >= 1.0 <==> k >= 0
    ensures v < b ==> k <= 0
    decreases if v < 1.0 then 1 else 0, if v < 1.0 then (1.0 / v).Floor else v.Floor
  {
    if v < 1.0 then
      InverseFloorDecreases(v, b);
      var k' := Exponent(v * b, b);
      ScaleTimes(v, b, k');
      k' - 1
    else if v < b then
      0
    else
      DivFloorDecreases(v, b);
      var k' := Exponent(v / b, b);
      ScaleDiv(v, b, k');
      k' + 1
  }

  lemma TimesAtLeastOne(b: real, x: real)
    requires b >= 0.0 && x >= 1.0
    ensures b * x >= b
  {
  }

  /** A divisor no larger than `v` leaves at least 1, a larger one less than 1. */
  lemma QuotientVersusOne(v: real, p: real)
    requires p > 0.0
    ensures p <= v <==> v / p >= 1.0
  {
    if p <= v {
      assert v / p >= p / p;
    } else {
      assert v / p < p / p;
    }
  }

  /** A smaller exponent than one that leaves at least 1 leaves at least `b`. */
  lemma ScaleAtLeastBase(v: real, b: real, i: int, j: int)
    requires v > 0.0 && b >= 1.0 && i < j
    requires Scale(v, b, j) >= 1.0
    ensures Scale(v, b, i) >= b
  {
    ScaleDecreasing(v, b, i, j);
    TimesAtLeastOne(b, Scale(v, b, j));
  }

  /** The exponent is the largest `n` with `b^n <= v`: `floor(log_b(v))`. */
  lemma ExponentIsLargest(v: real, b: real, n: nat)
    requires v > 0.0 && b >= 2.0
    ensures Pow(b, n) <= v <==> n <= Exponent(v, b)
  {
    var k := Exponent(v, b);
    assert Scale(v, b, n) == v / Pow(b, n);
    QuotientVersusOne(v, Pow(b, n));
    if Pow(b, n) <= v {
      if k < n {
        ScaleAtLeastBase(v, b, k, n);
      }
    } else {
      if n < k {
        ScaleAtLeastBase(v, b, n, k);
      }
    }
  }

  /** No other integer puts the scaled value in `[1, b)`. */
  lemma ExponentUnique(v: real, b: real, j: int)
    requires v > 0.0 && b >= 2.0
    requires 1.0 <= Scale(v, b, j) < b
    ensures j == Exponent(v, b)
  {
    var k := Exponent(v, b);
    if j < k {
      ScaleAtLeastBase(v, b, j, k);
    } else if k < j {
      ScaleAtLeastBase(v, b, k, j);
    }
  }

  /** `PREFIX[k]`: a one-letter string inside the table, `undefined` outside it. */
  function PrefixLetter(k: int): (r: Option<string>)
    ensures r.Some? <==> 0 <= k < 8
    ensures r.Some? ==> r.value == [PrefixTable[k]]
  {
    if 0 <= k < |PrefixTable| then Some([PrefixTable[k]]) else None
  }

  /** The prefix for exponent `k`: the letter, followed by "i" for binary prefixes
      (`undefined + "i"` is the string "undefinedi"). */
  function PrefixSymbol(k: int, binary: bool): (r: Option<string>)
    ensures r.Some? <==> binary || 0 <= k < 8
    ensures binary ==> EndsWith(r.value, "i")
    ensures 0 <= k < 8 ==> r == Some([PrefixTable[k]] + (if binary then "i" else ""))
    ensures !(0 <= k < 8) ==> r == (if binary then Some("undefinedi") else None)
  {
    if binary then
      var t := Text(PrefixLetter(k)) + "i";
      assert t[|t| - 1..] == "i";
      assert !(0 <= k < 8) ==> t == "undefinedi";
      assert 0 <= k < 8 ==> t == [PrefixTable[k]] + "i";
      Some(t)
    else
      assert 0 <= k < 8 ==> [PrefixTable[k]] + "" == [PrefixTable[k]];
      PrefixLetter(k)
  }

  /** The number `x` under the prefix text `u` shows the value `v`: a non-positive value
      as it is with no prefix; otherwise `x` is `v` brought into `[1, b)` by the floored
      exponent `k`, so that `x * b^k == v`, and `u` is the prefix of `k`, none for `k == 0`. */
  predicate Shows(v: real, binary: bool, x: real, u: string)
  {
    if v <= 0.0 then x == v && u == ""
    else
      var b := Base(binary);
      var k := Exponent(v, b);
      && 1.0 <= x < b && Unscale(x, b, k) == v
      && u == (if k == 0 then "" else Text(PrefixSymbol(k, binary)))
  }

  /** A value has only one way to be shown. */
  lemma ShowsUnique(v: real, binary: bool, x: real, u: string, x': real, u': string)
    requires Shows(v, binary, x, u) && Shows(v, binary, x', u')
    ensures x == x' && u == u'
  {
    if v > 0.0 {
      UnscaleUnique(x, x', Base(binary), Exponent(v, Base(binary)));
    }
  }

  /** `Unscale` is one-to-one in the scaled value. */
  lemma UnscaleUnique(x: real, y: real, b: real, k: int)
    requires b >= 1.0 && Unscale(x, b, k) == Unscale(y, b, k)
    ensures x == y
  {
    if k >= 0 {
      UnscaleInjective(x, y, Pow(b, k));
    } else {
      DivInjective(x, y, Pow(b, -k));
    }
  }

  lemma UnscaleInjective(x: real, y: real, p: real)
    requires p > 0.0 && x * p == y * p
    ensures x == y
  {
  }

  lemma DivInjective(x: real, y: real, p: real)
    requires p > 0.0 && x / p == y / p
    ensures x == y
  {
    DivMul(x, p);
    DivMul(y, p);
  }

  /** A scaled value and its prefix; a `None` prefix is JavaScript's `undefined`. */
  datatype Prefixed = Prefixed(value: real, prefix: Option<string>)

  /** `determinatePrefix(value, binary)`. The exponent is not clamped to the table, so
      values below 1 and values from `b^8` on get an `undefined` prefix. */
  function DeterminatePrefix(v: real, binary: bool): (r: Prefixed)
    ensures v <= 0.0 ==> r == Prefixed(v, Some(""))
    ensures 0.0 < v ==> 1.0 <= r.value < Base(binary)
    ensures 1.0 <= v < Base(binary) ==> r == Prefixed(v, Some(""))
    ensures 0.0 < v ==> Unscale(r.value, Base(binary), Exponent(v, Base(binary))) == v
    ensures 0.0 < v && Exponent(v, Base(binary)) != 0 ==>
      r.prefix == PrefixSymbol(Exponent(v, Base(binary)), binary)
  {
    if v <= 0.0 then
      Prefixed(v, Some(""))
    else
      var b := Base(binary);
      var k := Exponent(v, b);
      UnscaleScale(v, b, k);
      if k == 0 then
        assert Scale(v, b, 0) == v;
        Prefixed(v, Some(""))
      else
        Prefixed(Scale(v, b, k), PrefixSymbol(k, binary))
  }

  /** The scaled value and prefix `determinatePrefix` returns show the value it was given. */
  lemma DeterminatePrefixShows(v: real, binary: bool)
    ensures Shows(v, binary, DeterminatePrefix(v, binary).value, Text(DeterminatePrefix(v, binary).prefix))
  {
    if v > 0.0 && Exponent(v, Base(binary)) == 0 {
      assert Unscale(v, Base(binary), 0) == v;
    }
  }

  /** Inside the table (`1 <= v < b^8`) the prefix is empty below `b` and from `b` on the
      table's letter for the floored exponent, with "i" when binary;
      below 1 and from `b^8` on it is `undefined`, or "undefinedi" when binary. */
  lemma PrefixTableRange(v: real, binary: bool)
    requires 0.0 < v
    ensures 1.0 <= v < Base(binary) ==> DeterminatePrefix(v, binary).prefix == Some("")
    ensures Base(binary) <= v < Pow(Base(binary), 8) ==>
      && 1 <= Exponent(v, Base(binary)) < 8
      && DeterminatePrefix(v, binary).prefix
         == Some([PrefixTable[Exponent(v, Base(binary))]] + (if binary then "i" else ""))
    ensures v < 1.0 || Pow(Base(binary), 8) <= v ==>
      DeterminatePrefix(v, binary).prefix == (if binary then Some("undefinedi") else None)
  {
    var b := Base(binary);
    var k := Exponent(v, b);
    ExponentIsLargest(v, b, 8);
    ExponentIsLargest(v, b, 1);
    assert Pow(b, 1) == b;
    assert 1.0 <= v < Pow(b, 8) <==> 0 <= k < 8;
  }

  /** Exa is shown for peta: `2 * 1000^5` bytes scale to 2 with the letter `E`. */
  lemma PetaShownAsExa()
    ensures DeterminatePrefix(2.0 * Pow(1000.0, 5), false) == Prefixed(2.0, Some("E"))
  {
    var v := 2.0 * Pow(1000.0, 5);
    assert Scale(v, 1000.0, 5) == 2.0;
    ExponentUnique(v, 1000.0, 5);
  }

  /** The display settings the formatters read, and `Number.prototype.toFixed`, whose
      digit rendering is left uninterpreted. */
  datatype Formatter = Formatter(
    byteUnit: string,
    rateUnit: string,
    thermalUnit: JsValue,
    toFixed: (real, nat) -> string)

  /** `formatNumber`: two decimals. */
  function FormatNumber(f: Formatter, n: real): (r: string)
    ensures r == f.toFixed(n, 2)
  {
    f.toFixed(n, 2)
  }

  /** `formatBytes`: the value shown with one decimal, a space, the prefix and "B"; binary
      prefixes iff the byte unit setting is exactly "binary". */
  function FormatBytes(f: Formatter, bytes: real): (r: string)
    ensures exists x, u :: Shows(bytes, f.byteUnit == "binary", x, u) && r == f.toFixed(x, 1) + " " + u + "B"
    ensures EndsWith(r, "B")
    ensures bytes <= 0.0 ==> r == f.toFixed(bytes, 1) + " B"
    ensures f.byteUnit == "binary" && 1024.0 <= bytes < Pow(1024.0, 8) ==> EndsWith(r, "iB")
    ensures f.byteUnit != "binary" && 1.0 <= bytes < 1000.0 ==> r == f.toFixed(bytes, 1) + " B"
  {
    var p := DeterminatePrefix(bytes, f.byteUnit == "binary");
    var r := f.toFixed(p.value, 1) + " " + Text(p.prefix) + "B";
    DeterminatePrefixShows(bytes, f.byteUnit == "binary");
    UnitSuffix(f.toFixed(p.value, 1) + " ", Text(p.prefix));
    assert f.byteUnit == "binary" && 1024.0 <= bytes < Pow(1024.0, 8) ==> Text(p.prefix)[|Text(p.prefix)| - 1..] == "i";
    r
  }

  /** A label that ends in a prefix and "B" ends in "B", and in "iB" when the prefix is binary. */
  lemma UnitSuffix(front: string, pre: string)
    ensures EndsWith(front + pre + "B", "B")
    ensures 1 <= |pre| && pre[|pre| - 1..] == "i" ==> EndsWith(front + pre + "B", "iB")
  {
    var r := front + pre + "B";
    assert r[|r| - 1..] == "B";
    if 1 <= |pre| && pre[|pre| - 1..] == "i" {
      assert r[|r| - 2..] == pre[|pre| - 1..] + "B";
    }
  }

  /** The rate formatter's unit mode: bits are counted when the mode ends in "bit". */
  predicate CountsBits(f: Formatter)
  {
    EndsWith(f.rateUnit, "bit")
  }

  /** The unit after the prefix: "B" in byte modes, "bit" in any other. */
  function RateUnit(f: Formatter): string
  {
    if EndsWith(f.rateUnit, "byte") then "B" else "bit"
  }

  function RateArrow(dir: JsValue): string
  {
    if Truthy(dir) then "\U{25B2}" else "\U{25BC}"
  }

  /** `formatRate`: the magnitude scaled with binary prefixes iff the mode starts with
      "binary", the unit "B" for byte modes and "bit" otherwise, "/s", and an arrow up for a
      truthy direction and down for any other. */
  function FormatRate(f: Formatter, bytes: real, dir: JsValue): (r: string)
    ensures exists x, u ::
      && Shows(if CountsBits(f) then bytes * 8.0 else bytes, StartsWith(f.rateUnit, "binary"), x, u)
      && r == f.toFixed(x, 1) + " " + u + RateUnit(f) + "/s " + RateArrow(dir)
    ensures EndsWith(r, "/s " + RateArrow(dir))
    ensures EndsWith(r, if Truthy(dir) then " \U{25B2}" else " \U{25BC}")
  {
    var magnitude := if CountsBits(f) then bytes * 8.0 else bytes;
    var p := DeterminatePrefix(magnitude, StartsWith(f.rateUnit, "binary"));
    DeterminatePrefixShows(magnitude, StartsWith(f.rateUnit, "binary"));
    var front := f.toFixed(p.value, 1) + " " + Text(p.prefix) + RateUnit(f);
    assert front + "/s " + RateArrow(dir) == front + ("/s " + RateArrow(dir));
    front + "/s " + RateArrow(dir)
  }

  /** In a byte mode whose prefix system agrees with the byte unit setting, a rate reads as
      the byte count's label followed by "/s" and the arrow. */
  lemma ByteRateIsBytesPerSecond(f: Formatter, bytes: real, dir: JsValue)
    requires EndsWith(f.rateUnit, "byte")
    requires StartsWith(f.rateUnit, "binary") <==> f.byteUnit == "binary"
    ensures FormatRate(f, bytes, dir) == FormatBytes(f, bytes) + "/s " + RateArrow(dir)
  {
    var binary := f.byteUnit == "binary";
    var shown := FormatBytes(f, bytes);
    assert exists x, u :: Shows(bytes, binary, x, u) && shown == f.toFixed(x, 1) + " " + u + "B";
    var x, u :| Shows(bytes, binary, x, u) && shown == f.toFixed(x, 1) + " " + u + "B";
    assert !CountsBits(f) by {
      var m := f.rateUnit;
      assert m[|m| - 4..] == "byte";
      if |m| >= 3 {
        assert m[|m| - 3..] == m[|m| - 4..][1..];
      }
    }
    var y, w :| Shows(bytes, binary, y, w)
      && FormatRate(f, bytes, dir) == f.toFixed(y, 1) + " " + w + RateUnit(f) + "/s " + RateArrow(dir);
    ShowsUnique(bytes, binary, x, u, y, w);
  }

  /** `formatPercent(part, total)`: `100 * part / total` with one decimal and "%". */
  function FormatPercent(f: Formatter, part: real, total: real): (r: string)
    requires total != 0.0
    ensures EndsWith(r, "%")
    ensures exists q :: q * total == 100.0 * part && r == f.toFixed(q, 1) + "%"
  {
    var q := 100.0 * part / total;
    assert q * total == 100.0 * part;
    f.toFixed(q, 1) + "%"
  }

  /** Celsius to Fahrenheit as `formatThermal` converts. */
  function FahrenheitOf(celsius: real): real
  {
    celsius * 1.8 + 32.0
  }

  /** `formatThermal`: the number is converted to Fahrenheit iff the unit setting is falsy,
      while the ℃ sign is shown only for the exact string "celsius"; any other truthy
      setting shows the Celsius number with the ℉ sign. */
  function FormatThermal(f: Formatter, celsius: real): (r: string)
    ensures !Truthy(f.thermalUnit) ==> r == f.toFixed(FahrenheitOf(celsius), 1) + "\U{2109}"
    ensures f.thermalUnit == Str("celsius") ==> r == f.toFixed(celsius, 1) + "\U{2103}"
    ensures Truthy(f.thermalUnit) && f.thermalUnit != Str("celsius") ==>
      r == f.toFixed(celsius, 1) + "\U{2109}"
  {
    var number := if Truthy(f.thermalUnit) then celsius else celsius * 1.8 + 32.0;
    var unit := if f.thermalUnit == Str("celsius") then "\U{2103}" else "\U{2109}";
    f.toFixed(number, 1) + unit
  }

  /** `formatRPM`: no decimals, then " RPM". */
  function FormatRpm(f: Formatter, n: real): (r: string)
    ensures r == f.toFixed(n, 0) + " RPM"
    ensures EndsWith(r, " RPM")
  {
    var r := f.toFixed(n, 0) + " RPM";
    assert r[|r| - 4..] == " RPM";
    r
  }

  /** The format tags `format` dispatches on. */
  const Tags: set<string> := {"number", "bytes", "rate", "percent", "thermal", "rpm"}

  /** What `format` hands back: a formatted string, or the value itself for an unknown tag. */
  datatype Shown = Formatted(text: string) | Passthrough(value: real)

  /** A percent total `formatPercent` can divide by: absent (defaulting to 1) or a non-zero number. */
  predicate PercentTotalOk(ext: JsValue)
  {
    ext.Undefined? || (ext.Num? && ext.n != 0.0)
  }

  /** `format(tag, value, ext)`: dispatch on the tag, `ext` being the direction for rates and
      the total for percentages. */
  function Format(f: Formatter, tag: string, value: real, ext: JsValue): (r: Shown)
    requires tag == "percent" ==> PercentTotalOk(ext)
    ensures tag !in Tags <==> r == Passthrough(value)
    ensures tag in Tags ==> r.Formatted?
    ensures tag == "number" ==> r.text == FormatNumber(f, value)
    ensures tag == "bytes" ==> r.text == FormatBytes(f, value)
    ensures tag == "rate" ==> r.text == FormatRate(f, value, ext)
    ensures tag == "percent" ==> r.text == FormatPercent(f, value, if ext.Undefined? then 1.0 else ext.n)
    ensures tag == "thermal" ==> r.text == FormatThermal(f, value)
    ensures tag == "rpm" ==> r.text == FormatRpm(f, value)
  {
    if tag == "number" then Formatted(FormatNumber(f, value))
    else if tag == "bytes" then Formatted(FormatBytes(f, value))
    else if tag == "rate" then Formatted(FormatRate(f, value, ext))
    else if tag == "percent" then Formatted(FormatPercent(f, value, if ext.Undefined? then 1.0 else ext.n))
    else if tag == "thermal" then Formatted(FormatThermal(f, value))
    else if tag == "rpm" then Formatted(FormatRpm(f, value))
    else Passthrough(value)
  }
}
