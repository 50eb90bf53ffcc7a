/** The safe-area resolver: `absSize` and the resolution of a comma-separated
    safe-area specification into image pixels (dist/jquery.backgroundcover.js, `setSafearea`). */
module SafeArea {
  import opened Wrappers
  import opened JsMath

  /** A resolved safe area in image pixels: top-left corner (x1, y1), bottom-right corner (x2, y2). */
  datatype Rect = Rect(x1: real, y1: real, x2: real, y2: real)

  /** `this.safearea` as `setSafearea` stores it: each corner coordinate is the number `absSize`
      gives, `None` where that is NaN. */
  datatype Area = Area(x1: Number, y1: Number, x2: Number, y2: Number)

  /** The area all of whose coordinates are numbers. */
  function AreaOf(r: Rect): (a: Area)
    ensures a.x1 == Some(r.x1) && a.y1 == Some(r.y1) && a.x2 == Some(r.x2) && a.y2 == Some(r.y2)
  {
    Area(Some(r.x1), Some(r.y1), Some(r.x2), Some(r.y2))
  }

  /** A safe-area component as `absSize` receives it: a JavaScript number or a string. */
  datatype Dim = Num(n: real) | Text(s: string)

  /** The plugin's default safe area: the whole image. */
  const DefaultSpec: string := "0%,0%,100%,100%"

  /** The white-space characters `String.prototype.trim` removes that the model knows of. */
  predicate IsBlank(c: char) {
    c == ' ' || c == '\t' || c == '\n' || c == '\r' || c == '\U{000B}' || c == '\U{000C}'
    || c == '\U{00A0}' || c == '\U{FEFF}' || c == '\U{2028}' || c == '\U{2029}'
  }

  predicate AllBlank(s: string) {
    forall i :: 0 <= i < |s| ==> IsBlank(s[i])
  }

  predicate IsDigit(c: char) {
    '0' <= c <= '9'
  }

  predicate AllDigits(s: string) {
    forall i :: 0 <= i < |s| ==> IsDigit(s[i])
  }

  // ---------------------------------------------------------------- trimming

  /** Drops leading blanks. */
  function TrimStart(s: string): (r: string)
    ensures |r| <= |s| && r == s[|s| - |r|..]
    ensures r == [] || !IsBlank(r[0])
  {
    if |s| > 0 && IsBlank(s[0]) then TrimStart(s[1..]) else s
  }

  /** Drops trailing blanks. */
  function TrimEnd(s: string): (r: string)
    ensures |r| <= |s| && r == s[..|r|]
    ensures r == [] || !IsBlank(r[|r| - 1])
  {
    if |s| > 0 && IsBlank(s[|s| - 1]) then TrimEnd(s[..|s| - 1]) else s
  }

  /** `size.trim()`. */
  function Trim(s: string): (r: string)
    ensures r == [] || (!IsBlank(r[0]) && !IsBlank(r[|r| - 1]))
  {
    TrimEnd(TrimStart(s))
  }

  /** What `TrimStart` drops is blank: its result is the suffix of `s` from the first non-blank on. */
  lemma {:induction false} TrimStartDropsBlanks(s: string)
    ensures AllBlank(s[..|s| - |TrimStart(s)|])
  {
    if |s| > 0 && IsBlank(s[0]) {
      TrimStartDropsBlanks(s[1..]);
      assert s[..|s| - |TrimStart(s)|] == [s[0]] + s[1..][..|s[1..]| - |TrimStart(s[1..])|];
    }
  }

  /** What `TrimEnd` drops is blank: its result is the prefix of `s` up to the last non-blank. */
  lemma {:induction false} TrimEndDropsBlanks(s: string)
    ensures AllBlank(s[|TrimEnd(s)|..])
  {
    if |s| > 0 && IsBlank(s[|s| - 1]) {
      TrimEndDropsBlanks(s[..|s| - 1]);
      assert s[|TrimEnd(s)|..] == s[..|s| - 1][|TrimEnd(s[..|s| - 1])|..] + [s[|s| - 1]];
    }
  }

  /** Leading blanks are exactly what `TrimStart` removes. */
  lemma {:induction false} TrimStartPadded(before: string, rest: string)
    requires AllBlank(before)
    requires rest != [] && !IsBlank(rest[0])
    ensures TrimStart(before + rest) == rest
  {
    if before != [] {
      assert (before + rest)[1..] == before[1..] + rest;
      TrimStartPadded(before[1..], rest);
    }
  }

  /** Trailing blanks are exactly what `TrimEnd` removes. */
  lemma {:induction false} TrimEndPadded(rest: string, after: string)
    requires AllBlank(after)
    requires rest != [] && !IsBlank(rest[|rest| - 1])
    ensures TrimEnd(rest + after) == rest
  {
    if after != [] {
      assert (rest + after)[..|rest + after| - 1] == rest + after[..|after| - 1];
      TrimEndPadded(rest, after[..|after| - 1]);
    }
  }

  /** Surrounding blanks are exactly what trimming removes. */
  lemma TrimPadded(before: string, core: string, after: string)
    requires AllBlank(before) && AllBlank(after)
    requires core != [] && !IsBlank(core[0]) && !IsBlank(core[|core| - 1])
    ensures Trim(before + core + after) == core
  {
    assert before + core + after == before + (core + after);
    TrimStartPadded(before, core + after);
    TrimEndPadded(core, after);
  }

  /** Trimming a trimmed string changes nothing. */
  lemma TrimIdempotent(s: string)
    ensures Trim(Trim(s)) == Trim(s)
  {
    var t := Trim(s);
    if t != [] {
      TrimPadded([], t, []);
      assert [] + t + [] == t;
    }
  }

  // ---------------------------------------------------------------- parseFloat

  /** The length of the longest prefix of `s` made of decimal digits. */
  function DigitRun(s: string): (n: nat)
    ensures n <= |s|
    ensures AllDigits(s[..n])
    ensures n == |s| || !IsDigit(s[n])
  {
    if |s| > 0 && IsDigit(s[0]) then 1 + DigitRun(s[1..]) else 0
  }

  /** The value of a string of decimal digits, most significant first. */
  function DigitsValue(ds: string): (r: nat)
    requires AllDigits(ds)
  {
    if ds == [] then 0 else 10 * DigitsValue(ds[..|ds| - 1]) + (ds[|ds| - 1] as int - '0' as int)
  }

  /** The value of the digits after a decimal point: `FractionValue("25") == 0.25`. */
  function FractionValue(ds: string): (r: real)
    requires AllDigits(ds)
    ensures 0.0 <= r <= 1.0
  {
    if ds == [] then 0.0 else ((ds[0] as int - '0' as int) as real + FractionValue(ds[1..])) / 10.0
  }

  /** `parseFloat` over the modelled grammar: the value of the longest prefix of the form
      digits, optionally followed by `.` and further digits; `None` (NaN) when `s` does not
      start with a digit. */
  function ParseFloat(s: string): (r: Option<real>)
    ensures r.Some? <==> (|s| > 0 && IsDigit(s[0]))
    ensures r.Some? ==> r.value >= 0.0
  {
    var k := DigitRun(s);
    if k == 0 then None else Some(DigitsValue(s[..k]) as real + PointPart(s[k..]))
  }

  /** The value `parseFloat` reads after the whole digits: the digits after a leading point,
      if there is one. */
  function PointPart(t: string): (r: real)
    ensures 0.0 <= r <= 1.0
  {
    if |t| > 0 && t[0] == '.' then FractionValue(t[1..][..DigitRun(t[1..])]) else 0.0
  }

  /** A decimal numeral of the modelled grammar: digits, then optionally a point and digits. */
  datatype Numeral = Numeral(whole: string, fraction: Option<string>)

  predicate WellFormed(n: Numeral) {
    |n.whole| > 0 && AllDigits(n.whole) && (n.fraction.Some? ==> AllDigits(n.fraction.value))
  }

  function NumeralText(n: Numeral): (r: string) {
    n.whole + (if n.fraction.Some? then "." + n.fraction.value else "")
  }

  function NumeralValue(n: Numeral): (r: real)
    requires WellFormed(n)
  {
    DigitsValue(n.whole) as real
    + (if n.fraction.Some? then FractionValue(n.fraction.value) else 0.0)
  }

  /** The digit run of digits followed by a non-digit is exactly those digits. */
  lemma {:induction false} DigitRunOf(ds: string, rest: string)
    requires AllDigits(ds)
    requires rest == [] || !IsDigit(rest[0])
    ensures DigitRun(ds + rest) == |ds|
  {
    if ds != [] {
      assert (ds + rest)[1..] == ds[1..] + rest;
      DigitRunOf(ds[1..], rest);
    }
  }

  /** `parseFloat` in terms of the length of the leading digit run. */
  lemma ParseFloatRun(s: string, k: nat)
    requires DigitRun(s) == k > 0
    ensures ParseFloat(s) == Some(DigitsValue(s[..k]) as real + PointPart(s[k..]))
  {
  }

  /** Digits followed by a non-digit split into the digit run and the rest. */
  lemma SplitDigitRun(ds: string, rest: string, s: string)
    requires |ds| > 0 && AllDigits(ds)
    requires rest == [] || !IsDigit(rest[0])
    requires s == ds + rest
    ensures DigitRun(s) == |ds| && s[..|ds|] == ds && s[|ds|..] == rest
  {
    DigitRunOf(ds, rest);
    assert s[..|ds|] == ds;
    assert s[|ds|..] == rest;
  }

  /** `parseFloat` of digits followed by something that does not start with a digit. */
  lemma ParseDigits(ds: string, rest: string, s: string)
    requires |ds| > 0 && AllDigits(ds)
    requires rest == [] || !IsDigit(rest[0])
    requires s == ds + rest
    ensures ParseFloat(s) == Some(DigitsValue(ds) as real + PointPart(rest))
  {
    SplitDigitRun(ds, rest, s);
    ParseFloatRun(s, |ds|);
  }

  /** What follows the whole digits: a point and digits, then something that is not a digit. */
  lemma PointPartOf(f: string, tail: string, t: string)
    requires AllDigits(f)
    requires tail == [] || !IsDigit(tail[0])
    requires t == "." + f + tail
    ensures PointPart(t) == FractionValue(f)
  {
    assert t[1..] == f + tail;
    DigitRunOf(f, tail);
    assert t[1..][..|f|] == f;
  }

  /** Round trip: `parseFloat` reads back the value of a numeral it is given,
      whatever follows the numeral as long as that cannot extend it. */
  lemma ParseNumeral(n: Numeral, tail: string)
    requires WellFormed(n)
    requires tail == [] || (!IsDigit(tail[0]) && tail[0] != '.')
    ensures ParseFloat(NumeralText(n) + tail) == Some(NumeralValue(n))
  {
    if n.fraction.Some? {
      var rest := "." + n.fraction.value + tail;
      assert NumeralText(n) + tail == n.whole + rest;
      PointPartOf(n.fraction.value, tail, rest);
      ParseDigits(n.whole, rest, NumeralText(n) + tail);
    } else {
      assert NumeralText(n) + tail == n.whole + tail;
      ParseDigits(n.whole, tail, NumeralText(n) + tail);
    }
  }

  // ---------------------------------------------------------------- decimal rendering of naturals

  /** The decimal digits of `n`, without leading zeros. */
  function NatText(n: nat): (r: string)
    ensures |r| > 0 && AllDigits(r)
  {
    if n < 10 then [('0' as int + n) as char] else NatText(n / 10) + [('0' as int + n % 10) as char]
  }

  /** Round trip: reading back the digits of `n` gives `n`. */
  lemma {:induction false} NatTextValue(n: nat)
    ensures DigitsValue(NatText(n)) == n
  {
    var t := NatText(n);
    if n >= 10 {
      NatTextValue(n / 10);
      assert t[..|t| - 1] == NatText(n / 10);
    }
  }

  // ---------------------------------------------------------------- absSize

  /** What `absSize` makes of a string once it is trimmed: a string ending in `%` is that
      percentage of `base`, rounded; any other string is its value, rounded. `None` stands for
      NaN, the result of a string that `parseFloat` cannot read. */
  function TextSize(t: string, base: real): (r: Option<real>)
    ensures r.None? <==> (t == [] || !IsDigit(t[0]))
    ensures r.Some? ==> r.value == r.value.Floor as real
  {
    var parsed := ParseFloat(t);
    if parsed.None? then None
    else if t[|t| - 1] == '%' then Some(Round(parsed.value / 100.0 * base) as real)
    else Some(Round(parsed.value) as real)
  }

  /** `absSize(size, base)`: a number passes through unchanged; a string is trimmed first. */
  function AbsSize(size: Dim, base: real): (r: Option<real>)
    ensures size.Num? ==> r == Some(size.n)
    ensures size.Text? ==> (r.None? <==> (Trim(size.s) == [] || !IsDigit(Trim(size.s)[0])))
    ensures size.Text? && r.Some? ==> r.value == r.value.Floor as real
  {
    if size.Num? then Some(size.n) else TextSize(Trim(size.s), base)
  }

  /** Surrounding white space never matters to `absSize`. */
  lemma AbsSizeTrims(s: string, base: real)
    ensures AbsSize(Text(s), base) == AbsSize(Text(Trim(s)), base)
  {
    TrimIdempotent(s);
  }

  /** A numeral, with or without a trailing `%`, neither starts nor ends with a blank. */
  lemma NumeralEdges(n: Numeral, suffix: string)
    requires WellFormed(n) && (suffix == [] || suffix == "%")
    ensures var core := NumeralText(n) + suffix;
      core != [] && IsDigit(core[0]) && !IsBlank(core[|core| - 1])
      && (core[|core| - 1] == '%' <==> suffix == "%")
  {
    var core := NumeralText(n) + suffix;
    assert core[0] == n.whole[0];
    if suffix == "%" {
      assert core[|core| - 1] == '%';
    } else if n.fraction.Some? && n.fraction.value != [] {
      assert core[|core| - 1] == n.fraction.value[|n.fraction.value| - 1];
    } else if n.fraction.Some? {
      assert core[|core| - 1] == '.';
    } else {
      assert core[|core| - 1] == n.whole[|n.whole| - 1];
    }
  }

  /** `TextSize` in terms of what `parseFloat` reads. */
  lemma TextSizeParsed(t: string, base: real)
    requires ParseFloat(t).Some?
    ensures TextSize(t, base)
         == Some(if t[|t| - 1] == '%' then Round(ParseFloat(t).value / 100.0 * base) as real
                 else Round(ParseFloat(t).value) as real)
  {
  }

  /** `TextSizeParsed` with the value `parseFloat` reads named `v`. */
  lemma TextSizeOf(t: string, v: real, base: real)
    requires ParseFloat(t) == Some(v)
    ensures TextSize(t, base) == Some(if t[|t| - 1] == '%' then Round(v / 100.0 * base) as real else Round(v) as real)
  {
    TextSizeParsed(t, base);
    assert ParseFloat(t).value == v;
    var x := v / 100.0 * base;
    assert ParseFloat(t).value / 100.0 * base == x;
  }

  /** A padded numeral trims to the numeral and its suffix, which `parseFloat` reads back. */
  lemma PaddedNumeral(before: string, n: Numeral, suffix: string, after: string)
    requires AllBlank(before) && AllBlank(after) && WellFormed(n) && (suffix == [] || suffix == "%")
    ensures var core := NumeralText(n) + suffix;
      Trim(before + NumeralText(n) + suffix + after) == core && ParseFloat(core) == Some(NumeralValue(n))
      && (core[|core| - 1] == '%' <==> suffix == "%")
  {
    var core := NumeralText(n) + suffix;
    NumeralEdges(n, suffix);
    assert before + NumeralText(n) + suffix + after == before + core + after;
    TrimPadded(before, core, after);
    ParseNumeral(n, suffix);
  }

  /** `absSize` of a string whose trimmed form reads as `v`. */
  lemma AbsSizeOfTrimmed(s: string, v: real, base: real)
    requires ParseFloat(Trim(s)) == Some(v)
    ensures var t := Trim(s);
      AbsSize(Text(s), base) == Some(if t[|t| - 1] == '%' then Round(v / 100.0 * base) as real else Round(v) as real)
  {
    TextSizeOf(Trim(s), v, base);
  }

  /** The grammar of a percentage component: optional blanks, a numeral `p`, `%`, optional
      blanks. It resolves to `Math.round(p / 100 * base)`. */
  lemma AbsSizeOfPercent(before: string, n: Numeral, p: real, after: string, base: real, s: string, v: int)
    requires AllBlank(before) && AllBlank(after) && WellFormed(n) && p == NumeralValue(n)
    requires s == before + NumeralText(n) + "%" + after && v == Round(p / 100.0 * base)
    ensures AbsSize(Text(s), base) == Some(v as real)
  {
    PaddedNumeral(before, n, "%", after);
    AbsSizeOfTrimmed(s, p, base);
  }

  /** The grammar of a pixel component: optional blanks, a numeral `p`, optional blanks.
      It resolves to `Math.round(p)`, whatever the base. */
  lemma AbsSizeOfPixels(before: string, n: Numeral, p: real, after: string, base: real, s: string, v: int)
    requires AllBlank(before) && AllBlank(after) && WellFormed(n) && p == NumeralValue(n)
    requires s == before + NumeralText(n) + after && v == Round(p)
    ensures AbsSize(Text(s), base) == Some(v as real)
  {
    PaddedNumeral(before, n, [], after);
    assert before + NumeralText(n) + [] + after == s;
    AbsSizeOfTrimmed(s, p, base);
  }

  /** `absSize("50%", 200) == 100`. */
  lemma AbsSizePercentExample(s: string)
    requires s == "50%"
    ensures AbsSize(Text(s), 200.0) == Some(100.0)
  {
    var e: string := [];
    assert "50"[..1] == "5" && "5"[..0] == "";
    AbsSizeOfPercent(e, Numeral("50", None), 50.0, e, 200.0, s, 100);
  }

  /** `absSize("10", 200) == 10`, while the number 5 is returned as it is. */
  lemma AbsSizePixelExample(s: string)
    requires s == "10"
    ensures AbsSize(Text(s), 200.0) == Some(10.0)
    ensures AbsSize(Num(5.0), 200.0) == Some(5.0)
  {
    var e: string := [];
    assert "10"[..1] == "1" && "1"[..0] == "";
    RoundInt(10);
    AbsSizeOfPixels(e, Numeral("10", None), 10.0, e, 200.0, s, 10);
  }

  /** Blanks around a fractional percentage are trimmed away: `absSize(" 12.5% ", 200) == 25`. */
  lemma AbsSizeFractionExample(s: string)
    requires s == " 12.5% "
    ensures AbsSize(Text(s), 200.0) == Some(25.0)
  {
    var b: string := " ";
    assert "12"[..1] == "1" && "1"[..0] == "" && "5"[1..] == "";
    AbsSizeOfPercent(b, Numeral("12", Some("5")), 12.5, b, 200.0, s, 25);
  }

  /** A string that does not start with a digit once trimmed reads as NaN. */
  lemma AbsSizeNaNExample(s: string)
    requires s == " auto"
    ensures AbsSize(Text(s), 200.0) == None
  {
    var e: string := [];
    assert s == " " + "auto" + e;
    TrimPadded(" ", "auto", e);
  }

  // ---------------------------------------------------------------- split

  /** `s.split(",")`: the pieces between commas, in order. */
  function Split(s: string): (parts: seq<string>)
    ensures |parts| >= 1
    ensures forall i :: 0 <= i < |parts| ==> ',' !in parts[i]
  {
    if s == [] then [""]
    else
      var rest := Split(s[1..]);
      if s[0] == ',' then [""] + rest else [[s[0]] + rest[0]] + rest[1..]
  }

  /** The inverse of `Split`: the pieces glued back together with commas. */
  function Join(parts: seq<string>): (r: string)
    requires |parts| >= 1
  {
    if |parts| == 1 then parts[0] else parts[0] + "," + Join(parts[1..])
  }

  /** The number of commas in `s`. */
  function CountCommas(s: string): (r: nat)
  {
    if s == [] then 0 else (if s[0] == ',' then 1 else 0) + CountCommas(s[1..])
  }

  /** A specification with k commas splits into k + 1 pieces. */
  lemma {:induction false} SplitLength(s: string)
    ensures |Split(s)| == CountCommas(s) + 1
  {
    if s != [] {
      SplitLength(s[1..]);
    }
  }

  /** Gluing the pieces back together gives the original string. */
  lemma {:induction false} JoinSplit(s: string)
    ensures Join(Split(s)) == s
  {
    if s != [] {
      var rest := Split(s[1..]);
      JoinSplit(s[1..]);
      if s[0] == ',' {
        assert Split(s) == [""] + rest;
        assert Join(Split(s)) == "" + "," + Join(rest);
      } else if |rest| == 1 {
        assert Split(s) == [[s[0]] + rest[0]];
      } else {
        assert Join(rest) == rest[0] + "," + Join(rest[1..]);
        assert Split(s)[1..] == rest[1..];
      }
    }
  }

  /** A piece without commas followed by a comma splits off as the first piece. */
  lemma {:induction false} SplitCons(a: string, b: string)
    requires ',' !in a
    ensures Split(a + "," + b) == [a] + Split(b)
  {
    var s := a + "," + b;
    if a == [] {
      assert s == "," + b && s[1..] == b;
    } else {
      assert s[1..] == a[1..] + "," + b;
      SplitCons(a[1..], b);
      assert [a[0]] + a[1..] == a;
    }
  }

  /** A string without commas is its own single piece. */
  lemma {:induction false} SplitSingle(a: string)
    requires ',' !in a
    ensures Split(a) == [a]
  {
    if a != [] {
      SplitSingle(a[1..]);
      assert [a[0]] + a[1..] == a;
    }
  }

  /** Splitting what `Join` glued together gives back the pieces. */
  lemma {:induction false} SplitJoin(parts: seq<string>)
    requires |parts| >= 1
    requires forall i :: 0 <= i < |parts| ==> ',' !in parts[i]
    ensures Split(Join(parts)) == parts
  {
    if |parts| == 1 {
      SplitSingle(parts[0]);
    } else {
      SplitJoin(parts[1..]);
      SplitCons(parts[0], Join(parts[1..]));
    }
  }

  // ---------------------------------------------------------------- setSafearea's resolution

  /** Fewer than four pieces: `absSize(undefined, ...)` raises a TypeError. */
  datatype ResolveError = MissingComponent

  /** The area `setSafearea` computes from its specification once the image size is known:
      pieces 0 and 2 are taken against the image width, pieces 1 and 3 against the image height,
      and pieces after the fourth are ignored. A piece without a value leaves its coordinate NaN. */
  function Resolve(spec: string, imageWidth: real, imageHeight: real): (r: Result<Area, ResolveError>)
    ensures r == Failure(MissingComponent) <==> CountCommas(spec) < 3
  {
    SplitLength(spec);
    var safe := Split(spec);
    if |safe| < 4 then Failure(MissingComponent)
    else
      Success(Area(AbsSize(Text(safe[0]), imageWidth), AbsSize(Text(safe[1]), imageHeight),
                   AbsSize(Text(safe[2]), imageWidth), AbsSize(Text(safe[3]), imageHeight)))
  }

  /** Which base each piece is resolved against, and that pieces after the fourth do not matter. */
  lemma ResolveJoined(p0: string, p1: string, p2: string, p3: string, more: seq<string>, w: real, h: real)
    requires forall i :: 0 <= i < |[p0, p1, p2, p3] + more| ==> ',' !in ([p0, p1, p2, p3] + more)[i]
    ensures Resolve(Join([p0, p1, p2, p3] + more), w, h)
            == Success(Area(AbsSize(Text(p0), w), AbsSize(Text(p1), h), AbsSize(Text(p2), w), AbsSize(Text(p3), h)))
  {
    SplitJoin([p0, p1, p2, p3] + more);
  }

  lemma PercentHasNoComma(n: nat)
    ensures ',' !in NatText(n) + "%"
  {
    var t := NatText(n) + "%";
    assert forall i :: 0 <= i < |t| - 1 ==> IsDigit(t[i]);
  }


  /** A whole percentage, written without blanks, resolves to that share of its base. */
  lemma AbsSizeOfNatPercent(n: nat, base: real, s: string, v: int)
    requires s == NatText(n) + "%" && v == Round(n as real / 100.0 * base)
    ensures AbsSize(Text(s), base) == Some(v as real)
  {
    NatTextValue(n);
    var e: string := [];
    AbsSizeOfPercent(e, Numeral(NatText(n), None), n as real, e, base, s, v);
  }

  /** Four pieces glued together with commas. */
  lemma JoinFour(p0: string, p1: string, p2: string, p3: string)
    ensures Join([p0, p1, p2, p3]) == p0 + "," + (p1 + "," + (p2 + "," + p3))
  {
    assert [p0, p1, p2, p3][1..] == [p1, p2, p3];
    assert [p1, p2, p3][1..] == [p2, p3];
    assert [p2, p3][1..] == [p3];
    assert Join([p2, p3]) == p2 + "," + p3;
  }

  /** Four comma-free pieces glued with commas split back into those four pieces. */
  lemma SplitFour(p0: string, p1: string, p2: string, p3: string, spec: string)
    requires spec == Join([p0, p1, p2, p3])
    requires ',' !in p0 && ',' !in p1 && ',' !in p2 && ',' !in p3
    ensures Split(spec) == [p0, p1, p2, p3]
  {
    var parts := [p0, p1, p2, p3];
    assert forall i :: 0 <= i < |parts| ==> ',' !in parts[i];
    SplitJoin(parts);
  }

  /** A specification of four pieces resolves to the area of what `absSize` makes of each, NaN
      included. */
  lemma ResolveFour(p0: string, p1: string, p2: string, p3: string, w: real, h: real, spec: string,
                    x1: Number, y1: Number, x2: Number, y2: Number)
    requires Split(spec) == [p0, p1, p2, p3]
    requires AbsSize(Text(p0), w) == x1 && AbsSize(Text(p1), h) == y1
    requires AbsSize(Text(p2), w) == x2 && AbsSize(Text(p3), h) == y2
    ensures Resolve(spec, w, h) == Success(Area(x1, y1, x2, y2))
  {
  }

  /** `absSize("0%", base) == 0`. */
  lemma AbsSizeNone(s: string, base: real)
    requires s == NatText(0) + "%"
    ensures AbsSize(Text(s), base) == Some(0.0)
  {
    RoundInt(0);
    AbsSizeOfNatPercent(0, base, s, 0);
  }

  /** `absSize("100%", base) == base` for a whole base. */
  lemma AbsSizeWhole(s: string, base: int)
    requires s == NatText(100) + "%"
    ensures AbsSize(Text(s), base as real) == Some(base as real)
  {
    RoundInt(base);
    AbsSizeOfNatPercent(100, base as real, s, base);
  }

  /** The default specification is the whole image. */
  lemma ResolveDefault(spec: string, w: int, h: int)
    requires spec == DefaultSpec
    ensures Resolve(spec, w as real, h as real) == Success(AreaOf(Rect(0.0, 0.0, w as real, h as real)))
  {
    var zero, full := NatText(0) + "%", NatText(100) + "%";
    assert zero == "0%" && full == "100%";
    JoinFour(zero, zero, full, full);
    assert spec == zero + "," + (zero + "," + (full + "," + full));
    AbsSizeNone(zero, w as real);
    AbsSizeNone(zero, h as real);
    AbsSizeWhole(full, w);
    AbsSizeWhole(full, h);
    PercentHasNoComma(0);
    PercentHasNoComma(100);
    SplitFour(zero, zero, full, full, spec);
    ResolveFour(zero, zero, full, full, w as real, h as real, spec, Some(0.0), Some(0.0), Some(w as real), Some(h as real));
  }

  /** `"auto,0%,100%,100%".split(",")`. */
  lemma SplitNaNSpec(spec: string)
    requires spec == "auto" + "," + ("0%" + "," + ("100%" + "," + "100%"))
    ensures Split(spec) == ["auto", "0%", "100%", "100%"]
  {
    var nan, zero, full := "auto", "0%", "100%";
    JoinFour(nan, zero, full, full);
    assert forall i :: 0 <= i < |nan| ==> nan[i] != ',';
    assert forall i :: 0 <= i < |zero| ==> zero[i] != ',';
    assert forall i :: 0 <= i < |full| ==> full[i] != ',';
    SplitFour(nan, zero, full, full, spec);
  }

  /** A piece that does not start with a digit leaves only its own coordinate NaN: `auto` as
      the left edge of a 1000 by 500 image, in `"auto,0%,100%,100%"`. */
  lemma ResolveNaNExample(spec: string)
    requires spec == "auto" + "," + ("0%" + "," + ("100%" + "," + "100%"))
    ensures Resolve(spec, 1000.0, 500.0) == Success(Area(None, Some(0.0), Some(1000.0), Some(500.0)))
  {
    var nan, zero, full := "auto", NatText(0) + "%", NatText(100) + "%";
    assert Split(spec) == [nan, zero, full, full] by {
      assert zero == "0%" && full == "100%";
      SplitNaNSpec(spec);
    }
    assert AbsSize(Text(nan), 1000.0) == None by {
      var e: string := [];
      assert nan == e + nan + e;
      TrimPadded(e, nan, e);
    }
    assert AbsSize(Text(zero), 500.0) == Some(0.0) by {
      AbsSizeNone(zero, 500.0);
    }
    assert AbsSize(Text(full), 1000.0) == Some(1000.0) && AbsSize(Text(full), 500.0) == Some(500.0) by {
      AbsSizeWhole(full, 1000);
      AbsSizeWhole(full, 500);
    }
    ResolveFour(nan, zero, full, full, 1000.0, 500.0, spec, None, Some(0.0), Some(1000.0), Some(500.0));
  }
}
