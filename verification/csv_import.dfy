/** CSV import of index values (`IndiceService.importarCSV`,
    `parseCompetencia`, `parseValor`): each line holds a competence and a
    value separated by ',', ';' or a tab, and is upserted into the table's
    series. A bad line is reported with its number and the import goes on. */
module CsvImport {
  import opened Wrappers
  import opened Decimal
  import opened Calendar
  import opened Errors
  import opened IndexStore
  import opened Text

  /** A year and month as `YearMonth` accepts them, as a competence. */
  function YearMonthOf(year: int, month: int): (r: Option<Competence>)
    ensures r.Some? <==> year >= 1 && 1 <= month <= 12
    ensures r.Some? ==> r.value == MonthIndex(year, month)
  {
    if year >= 1 && 1 <= month <= 12 then Some(MonthIndex(year, month)) else None
  }

  /** Pattern "yyyy-MM": a four-digit year, '-', a two-digit month. */
  function YearFirst(t: string): Option<Competence> {
    if |t| == 7 && AllDigits(t[..4]) && t[4] == '-' && AllDigits(t[5..]) then
      YearMonthOf(DigitsValue(t[..4]), DigitsValue(t[5..]))
    else None
  }

  /** Pattern "MM/yyyy". */
  function MonthFirst(t: string): Option<Competence> {
    if |t| == 7 && AllDigits(t[..2]) && t[2] == '/' && AllDigits(t[3..]) then
      YearMonthOf(DigitsValue(t[3..]), DigitsValue(t[..2]))
    else None
  }

  /** Pattern "yyyy-MM-dd", read as a `YearMonth`: the day must be 01 to 31
      (a day past the month's end is clamped, not refused) and is dropped. */
  function FullDate(t: string): Option<Competence> {
    if |t| == 10 && AllDigits(t[..4]) && t[4] == '-' && AllDigits(t[5..7]) && t[7] == '-' && AllDigits(t[8..])
       && 1 <= DigitsValue(t[8..]) <= 31 then
      YearMonthOf(DigitsValue(t[..4]), DigitsValue(t[5..7]))
    else None
  }

  /** `parseCompetencia`: the three patterns in order; every accepted text
      lands on the first day of its month. */
  function ParseCompetence(t: string): (r: Option<Competence>)
    ensures r.Some? <==> YearFirst(t).Some? || MonthFirst(t).Some? || FullDate(t).Some?
  {
    if YearFirst(t).Some? then YearFirst(t)
    else if MonthFirst(t).Some? then MonthFirst(t)
    else FullDate(t)
  }

  /** Four digits, '-', two digits denoting a valid year and month are
      read as that month. */
  lemma ParseYearFirst(year: string, month: string)
    requires |year| == 4 && |month| == 2 && AllDigits(year) && AllDigits(month)
    requires DigitsValue(year) >= 1 && 1 <= DigitsValue(month) <= 12
    ensures ParseCompetence(year + "-" + month) == Some(MonthIndex(DigitsValue(year), DigitsValue(month)))
  {
    var t := year + "-" + month;
    assert t[..4] == year && t[5..] == month && t[4] == '-';
    assert YearFirst(t) == Some(MonthIndex(DigitsValue(year), DigitsValue(month)));
  }

  /** Two digits, '/', four digits denoting a valid month and year are
      read as that month. */
  lemma ParseMonthFirst(month: string, year: string)
    requires |month| == 2 && |year| == 4 && AllDigits(month) && AllDigits(year)
    requires DigitsValue(year) >= 1 && 1 <= DigitsValue(month) <= 12
    ensures ParseCompetence(month + "/" + year) == Some(MonthIndex(DigitsValue(year), DigitsValue(month)))
  {
    var t := month + "/" + year;
    assert t[..2] == month && t[3..] == year && t[2] == '/';
    assert t[4] == year[1] && IsDigit(year[1]);
    assert YearFirst(t).None?;
    assert MonthFirst(t) == Some(MonthIndex(DigitsValue(year), DigitsValue(month)));
  }

  /** A full date "yyyy-MM-dd" with a valid year and month and a day from
      01 to 31 is read as its month; the day is dropped. */
  lemma ParseFullDate(year: string, month: string, day: string)
    requires |year| == 4 && |month| == 2 && |day| == 2
    requires AllDigits(year) && AllDigits(month) && AllDigits(day)
    requires DigitsValue(year) >= 1 && 1 <= DigitsValue(month) <= 12 && 1 <= DigitsValue(day) <= 31
    ensures ParseCompetence(year + "-" + month + "-" + day) == Some(MonthIndex(DigitsValue(year), DigitsValue(month)))
  {
    var t := year + "-" + month + "-" + day;
    assert t[..4] == year && t[5..7] == month && t[8..] == day && t[4] == '-' && t[7] == '-';
    assert YearFirst(t).None? && MonthFirst(t).None?;
    assert FullDate(t) == Some(MonthIndex(DigitsValue(year), DigitsValue(month)));
  }

  /** Any month of a year from 1 to 9999 written as "yyyy-MM" is read back
      as that month. */
  lemma ParseFormattedCompetence(year: nat, month: nat)
    requires 1 <= year <= 9999 && 1 <= month <= 12
    ensures ParseCompetence(PadDigits(year, 4) + "-" + PadDigits(month, 2)) == Some(MonthIndex(year, month))
  {
    assert Pow10(2) == 100 && Pow10(4) == 10000;
    WrittenDigits(year, 4);
    WrittenDigits(month, 2);
    ParseYearFirst(PadDigits(year, 4), PadDigits(month, 2));
  }

  /** A number below 10^width is written in exactly width digits that read
      back as the number. */
  lemma WrittenDigits(n: nat, width: nat)
    requires width >= 1 && n < Pow10(width)
    ensures |PadDigits(n, width)| == width && DigitsValue(PadDigits(n, width)) == n
  {
    PadDigitsWidth(n, width);
    PadDigitsRoundTrip(n, width);
  }

  /** "01/2020", "2020-01" and "2020-01-15" all denote January 2020. */
  lemma CompetencePatternsAgree()
    ensures ParseCompetence("2020-01") == Some(MonthIndex(2020, 1))
    ensures ParseCompetence("01/2020") == Some(MonthIndex(2020, 1))
    ensures ParseCompetence("2020-01-15") == Some(MonthIndex(2020, 1))
    ensures ParseCompetence("2020-13") == None
  {
    YearFirstExample();
    MonthFirstExample();
    FullDateExample();
    MonthThirteenExample();
  }

  lemma ExampleDigits()
    ensures DigitsValue("2020") == 2020 && DigitsValue("01") == 1
    ensures DigitsValue("15") == 15 && DigitsValue("13") == 13
  {
    assert "2020"[..3] == "202" && "202"[..2] == "20" && "20"[..1] == "2" && "2"[..0] == "";
    assert "01"[..1] == "0";
    assert "15"[..1] == "1";
    assert "13"[..1] == "1";
  }

  lemma YearFirstExample()
    ensures ParseCompetence("2020-01") == Some(MonthIndex(2020, 1))
  {
    var a := "2020-01";
    assert a[..4] == "2020" && a[5..] == "01";
    ExampleDigits();
  }

  lemma MonthFirstExample()
    ensures ParseCompetence("01/2020") == Some(MonthIndex(2020, 1))
  {
    var b := "01/2020";
    assert b[..2] == "01" && b[3..] == "2020";
    ExampleDigits();
  }

  lemma FullDateExample()
    ensures ParseCompetence("2020-01-15") == Some(MonthIndex(2020, 1))
  {
    var c := "2020-01-15";
    assert c[..4] == "2020" && c[5..7] == "01" && c[8..] == "15";
    ExampleDigits();
  }

  lemma MonthThirteenExample()
    ensures ParseCompetence("2020-13") == None
  {
    var d := "2020-13";
    assert d[..4] == "2020" && d[5..] == "13";
    ExampleDigits();
  }

  /** The position of the first exponent marker, or |t| when there is none. */
  function ExponentAt(t: string): (k: nat)
    ensures k <= |t|
    ensures forall i | 0 <= i < k :: t[i] != 'e' && t[i] != 'E'
    ensures k < |t| ==> t[k] == 'e' || t[k] == 'E'
  {
    if |t| == 0 || t[0] == 'e' || t[0] == 'E' then 0 else 1 + ExponentAt(t[1..])
  }

  /** The position of the first '.', or |t| when there is none. */
  function PointAt(t: string): (k: nat)
    ensures k <= |t|
    ensures forall i | 0 <= i < k :: t[i] != '.'
    ensures k < |t| ==> t[k] == '.'
  {
    if |t| == 0 || t[0] == '.' then 0 else 1 + PointAt(t[1..])
  }

  /** A leading '-' makes the number negative. */
  predicate IsNegative(t: string) {
    |t| > 0 && t[0] == '-'
  }

  /** The text after an optional leading sign. */
  function Unsigned(t: string): (r: string)
    ensures |t| > 0 && IsDigit(t[0]) ==> r == t
  {
    if |t| > 0 && (t[0] == '+' || t[0] == '-') then t[1..] else t
  }

  /** An optionally signed integer (the exponent of a numeral). */
  function ParseExponent(t: string): (r: Option<int>)
    ensures r.Some? <==> |Unsigned(t)| > 0 && AllDigits(Unsigned(t))
    ensures r.Some? && !IsNegative(t) ==> r.value == DigitsValue(Unsigned(t))
    ensures r.Some? && IsNegative(t) ==> r.value == -(DigitsValue(Unsigned(t)) as int)
  {
    var digits := Unsigned(t);
    if |digits| > 0 && AllDigits(digits) then
      var n: int := DigitsValue(digits);
      Some(if IsNegative(t) then -n else n)
    else None
  }

  /** The digits before and after the decimal point of a mantissa. */
  datatype Mantissa = Mantissa(whole: string, fraction: string)

  function SplitMantissa(m: string): (r: Mantissa)
    ensures PointAt(m) == |m| ==> r == Mantissa(m, "")
  {
    var p := PointAt(m);
    Mantissa(m[..p], if p < |m| then m[p + 1..] else "")
  }

  /** A numeral without its sign: digits with at most one '.', at least one
      digit, then optionally 'e' or 'E' and a signed exponent. */
  function ParseUnsigned(body: string): (r: Option<real>)
    ensures r.Some? ==> r.value >= 0.0
  {
    var e := ExponentAt(body);
    FromParts(SplitMantissa(body[..e]), if e < |body| then ParseExponent(body[e + 1..]) else Some(0))
  }

  /** The value of a mantissa's digits at its exponent, shifted by the
      number of fraction digits; none unless both parts are well formed. */
  function FromParts(m: Mantissa, exponent: Option<int>): (r: Option<real>)
    ensures r.Some? ==> r.value >= 0.0
  {
    if exponent.Some? && AllDigits(m.whole) && AllDigits(m.fraction) && |m.whole| + |m.fraction| > 0 then
      AllDigitsJoin(m.whole, m.fraction);
      Some(Shifted(DigitsValue(m.whole + m.fraction), exponent.value - |m.fraction|))
    else None
  }

  /** n · 10^k, the value of an unscaled digit run n at scale -k. */
  function Shifted(n: nat, k: int): (r: real)
    ensures r >= 0.0
  {
    var s := Scale(k);
    assert (n as real) * s >= 0.0;
    Mul(n as real, s)
  }

  lemma AllDigitsJoin(a: string, b: string)
    requires AllDigits(a) && AllDigits(b)
    ensures AllDigits(a + b)
  {
    assert forall i | |a| <= i < |a + b| :: (a + b)[i] == b[i - |a|];
  }

  /** `new BigDecimal(String)`: an optional sign, then an unsigned numeral. */
  function ParseBigDecimal(t: string): (r: Option<real>)
    ensures r.Some? <==> ParseUnsigned(Unsigned(t)).Some?
    ensures r.Some? && !IsNegative(t) ==> r.value >= 0.0
    ensures r.Some? && IsNegative(t) ==> r.value <= 0.0
  {
    match ParseUnsigned(Unsigned(t))
    case None => None
    case Some(magnitude) => Some(if IsNegative(t) then -magnitude else magnitude)
  }

  /** Appending digits shifts the digits before them: the value of a + b is
      that of a times 10^|b| plus that of b. */
  lemma {:induction false} DigitsJoinValue(a: string, b: string)
    requires AllDigits(a) && AllDigits(b)
    ensures AllDigits(a + b)
    ensures DigitsValue(a + b) == DigitsValue(a) * Pow10(|b|) + DigitsValue(b)
    decreases |b|
  {
    AllDigitsJoin(a, b);
    if |b| == 0 {
      assert a + b == a;
    } else {
      var c := a + b;
      var b' := b[..|b| - 1];
      assert AllDigits(b');
      assert c[..|c| - 1] == a + b' && c[|c| - 1] == b[|b| - 1];
      DigitsJoinValue(a, b');
      var d := b[|b| - 1] as int - '0' as int;
      assert DigitsValue(c) == 10 * DigitsValue(a + b') + d;
      assert DigitsValue(b) == 10 * DigitsValue(b') + d;
      DigitStep(DigitsValue(a), Pow10(|b'|), DigitsValue(b'), d);
    }
  }

  lemma DigitStep(x: int, y: int, z: int, d: int)
    ensures 10 * (x * y + z) + d == x * (10 * y) + (10 * z + d)
  {
  }

  lemma {:induction false} Pow10IsScale(k: nat)
    ensures Pow10(k) as real == Scale(k)
  {
    if k > 0 {
      Pow10IsScale(k - 1);
      ScaleStep(k - 1);
    }
  }

  /** The value of whole digits w and fraction digits f read at exponent x:
      (w + f / 10^|f|) · 10^x. */
  function NumeralValue(w: string, f: string, x: int): real
    requires AllDigits(w) && AllDigits(f)
  {
    Mul(DecimalValue(w, f), Scale(x))
  }

  /** The value of whole digits w and fraction digits f: w + f / 10^|f|. */
  function DecimalValue(w: string, f: string): real
    requires AllDigits(w) && AllDigits(f)
  {
    DigitsValue(w) as real + (DigitsValue(f) as real) / Scale(|f|)
  }

  /** The unscaled digits of w and f at scale |f| - x have the value
      (w + f / 10^|f|) · 10^x. */
  lemma ShiftedIsNumeralValue(w: string, f: string, x: int)
    requires AllDigits(w) && AllDigits(f)
    ensures AllDigits(w + f)
    ensures Shifted(DigitsValue(w + f), x - |f|) == NumeralValue(w, f, x)
  {
    DigitsJoinReal(w, f);
    ShiftedSum(DigitsValue(w + f), DigitsValue(w) as real, DigitsValue(f) as real, |f|, x);
  }

  /** DigitsJoinValue read as reals, with 10^|b| as a power of ten. */
  lemma DigitsJoinReal(a: string, b: string)
    requires AllDigits(a) && AllDigits(b)
    ensures AllDigits(a + b)
    ensures DigitsValue(a + b) as real == Mul(DigitsValue(a) as real, Scale(|b|)) + DigitsValue(b) as real
  {
    DigitsJoinValue(a, b);
    Pow10IsScale(|b|);
    IntSumAsReal(DigitsValue(a + b), DigitsValue(a), Pow10(|b|), DigitsValue(b), Scale(|b|));
  }

  /** A digit run worth a · 10^k + b, read at scale k - x, is worth
      (a + b / 10^k) · 10^x. */
  lemma ShiftedSum(n: nat, a: real, b: real, k: nat, x: int)
    requires n as real == Mul(a, Scale(k)) + b
    ensures Shifted(n, x - k) == Mul(a + b / Scale(k), Scale(x))
  {
    ScaleSplit(x, k);
    ScaledSum(a, b, Scale(k), Scale(x - k), Scale(x));
  }

  lemma IntSumAsReal(n: int, a: int, p: int, b: int, s: real)
    requires n == a * p + b && p as real == s
    ensures n as real == Mul(a as real, s) + b as real
  {
  }

  lemma ScaledSum(w: real, f: real, s: real, t: real, e: real)
    requires s > 0.0 && Mul(t, s) == e
    ensures Mul(Mul(w, s) + f, t) == Mul(w + f / s, e)
  {
    assert (w + f / s) * s == w * s + f;
    assert (w * s + f) * t == (w + f / s) * (t * s);
  }

  /** An exponent marker after a mantissa m that has none sits at |m|, with
      m before it and the exponent x after it. */
  lemma MarkerAfter(m: string, mark: char, x: string)
    requires ExponentAt(m) == |m| && (mark == 'e' || mark == 'E')
    ensures var t := m + [mark] + x;
      ExponentAt(t) == |m| && t[..|m|] == m && t[|m| + 1..] == x
  {
    var rest := [mark] + x;
    assert m + [mark] + x == m + rest;
    ExponentAtAppend(m, rest);
    assert ExponentAt(rest) == 0;
  }

  /** The first exponent marker of m + rest, when m has none, is the first
      one of rest, shifted by |m|. */
  lemma {:induction false} ExponentAtAppend(m: string, rest: string)
    requires ExponentAt(m) == |m|
    ensures ExponentAt(m + rest) == |m| + ExponentAt(rest)
    decreases |m|
  {
    if |m| == 0 {
      assert m + rest == rest;
    } else {
      assert m[0] != 'e' && m[0] != 'E';
      assert (m + rest)[0] == m[0] && (m + rest)[1..] == m[1..] + rest;
      ExponentAtAppend(m[1..], rest);
    }
  }

  /** A mantissa m that splits into w and f, then 'e' or 'E' and the
      exponent x, is read as (w + f / 10^|f|) · 10^x. */
  lemma ParseWithExponent(m: string, w: string, f: string, mark: char, x: string)
    requires ExponentAt(m) == |m| && SplitMantissa(m) == Mantissa(w, f)
    requires AllDigits(w) && AllDigits(f) && |w| + |f| > 0
    requires mark == 'e' || mark == 'E'
    requires ParseExponent(x).Some?
    ensures ParseUnsigned(m + [mark] + x) == Some(NumeralValue(w, f, ParseExponent(x).value))
  {
    var t := m + [mark] + x;
    MarkerAfter(m, mark, x);
    var ex := ParseExponent(x).value;
    UnsignedOfParts(t, Mantissa(w, f), Some(ex));
    FromNumeralParts(w, f, ex);
  }

  /** A numeral with a point and an exponent, w "." f "e" x (or "E"), is
      read as (w + f / 10^|f|) · 10^x; NegatedNumeral gives its negation
      after a leading '-'. */
  lemma ParseNumeral(w: string, f: string, mark: char, x: string)
    requires AllDigits(w) && AllDigits(f) && |w| + |f| > 0
    requires mark == 'e' || mark == 'E'
    requires ParseExponent(x).Some?
    ensures ParseBigDecimal(w + "." + f + [mark] + x) == Some(NumeralValue(w, f, ParseExponent(x).value))
  {
    var m := w + "." + f;
    var t := m + [mark] + x;
    PointParts(w, f);
    ParseWithExponent(m, w, f, mark, x);
    MantissaStart(w, f);
    assert t[0] == m[0];
    NegatedNumeral(t, NumeralValue(w, f, ParseExponent(x).value));
  }

  /** A numeral without a point, w "e" x (or "E"), is read as w · 10^x:
      "4532E-2" is 45.32. */
  lemma ParseScientific(w: string, mark: char, x: string)
    requires |w| > 0 && AllDigits(w)
    requires mark == 'e' || mark == 'E'
    requires ParseExponent(x).Some?
    ensures ParseBigDecimal(w + [mark] + x) == Some(Mul(DigitsValue(w) as real, Scale(ParseExponent(x).value)))
  {
    var t := w + [mark] + x;
    WholeParts(w);
    ParseWithExponent(w, w, "", mark, x);
    WholeValue(w, ParseExponent(x).value);
    assert IsDigit(w[0]) && t[0] == w[0];
    NegatedNumeral(t, NumeralValue(w, "", ParseExponent(x).value));
  }

  /** The exponent form of the index table: "4532E-2" is 45.32. */
  lemma ParseScientificExample()
    ensures ParseBigDecimal("4532E-2") == Some(45.32)
  {
    ExampleParts();
    ParseScientific("4532", 'E', "-2");
    assert "4532" + ['E'] + "-2" == "4532E-2";
  }

  lemma ExampleParts()
    ensures AllDigits("4532") && DigitsValue("4532") == 4532
    ensures ParseExponent("-2") == Some(-2) && Scale(-2) == 0.01
    ensures Mul(4532.0, 0.01) == 45.32
  {
    assert "4532"[..3] == "453" && "453"[..2] == "45" && "45"[..1] == "4" && "4"[..0] == "";
    assert Unsigned("-2") == "2" && IsNegative("-2");
    assert "2"[..0] == "" && DigitsValue("2") == 2;
    ScaleStep(-2);
    ScaleStep(-1);
  }

  /** A run of digits has no exponent marker and no point. */
  lemma WholeParts(w: string)
    requires AllDigits(w)
    ensures ExponentAt(w) == |w| && SplitMantissa(w) == Mantissa(w, "")
  {
    assert forall i | 0 <= i < |w| :: IsDigit(w[i]);
    assert forall i | 0 <= i < |w| :: w[i] != '.';
  }

  /** Without a fractional part the numeral value is w · 10^x. */
  lemma WholeValue(w: string, x: int)
    requires AllDigits(w)
    ensures NumeralValue(w, "", x) == Mul(DigitsValue(w) as real, Scale(x))
  {
    assert DecimalValue(w, "") == DigitsValue(w) as real;
  }

  lemma MantissaStart(w: string, f: string)
    requires AllDigits(w)
    ensures var m := w + "." + f;
      |m| > 0 && m[0] != '+' && m[0] != '-'
  {
    if |w| > 0 {
      assert IsDigit(w[0]);
    }
  }

  lemma FromNumeralParts(w: string, f: string, x: int)
    requires AllDigits(w) && AllDigits(f) && |w| + |f| > 0
    ensures FromParts(Mantissa(w, f), Some(x)) == Some(NumeralValue(w, f, x))
  {
    FromWellFormedParts(w, f, x);
    ShiftedIsNumeralValue(w, f, x);
  }

  /** A text with an exponent marker is read from the mantissa before it
      and the exponent after it. */
  lemma UnsignedOfParts(t: string, m: Mantissa, exponent: Option<int>)
    requires ExponentAt(t) < |t|
    requires SplitMantissa(t[..ExponentAt(t)]) == m && ParseExponent(t[ExponentAt(t) + 1..]) == exponent
    ensures ParseUnsigned(t) == FromParts(m, exponent)
  {
  }

  lemma FromWellFormedParts(w: string, f: string, x: int)
    requires AllDigits(w) && AllDigits(f) && |w| + |f| > 0
    ensures AllDigits(w + f)
    ensures FromParts(Mantissa(w, f), Some(x)) == Some(Shifted(DigitsValue(w + f), x - |f|))
  {
    AllDigitsJoin(w, f);
  }

  /** A text with no sign of its own that reads as v reads as -v after a
      leading '-'. */
  lemma NegatedNumeral(t: string, v: real)
    requires |t| > 0 && t[0] != '+' && t[0] != '-'
    requires ParseUnsigned(t) == Some(v)
    ensures ParseBigDecimal(t) == Some(v) && ParseBigDecimal("-" + t) == Some(-v)
  {
    assert ("-" + t)[1..] == t;
    assert Unsigned("-" + t) == t && IsNegative("-" + t);
    assert Unsigned(t) == t && !IsNegative(t);
  }

  /** A numeral with a point and no exponent, w "." f, is read as
      w + f / 10^|f|: "4532.52" is 4532.52. */
  lemma ParseDecimalPoint(w: string, f: string)
    requires AllDigits(w) && AllDigits(f) && |w| + |f| > 0
    ensures ParseBigDecimal(w + "." + f) == Some(DecimalValue(w, f))
  {
    var m := w + "." + f;
    PointParts(w, f);
    UnsignedWithoutExponent(m, Mantissa(w, f));
    FromNumeralParts(w, f, 0);
    UnitExponent(w, f);
    MantissaStart(w, f);
    NegatedNumeral(m, NumeralValue(w, f, 0));
  }

  /** w "." f has no exponent marker and splits into w and f. */
  lemma PointParts(w: string, f: string)
    requires AllDigits(w) && AllDigits(f)
    ensures var m := w + "." + f;
      ExponentAt(m) == |m| && SplitMantissa(m) == Mantissa(w, f)
  {
    var m := w + "." + f;
    assert forall i | 0 <= i < |w| :: IsDigit(w[i]);
    assert forall i | 0 <= i < |f| :: IsDigit(f[i]);
    assert forall i | 0 <= i < |m| :: m[i] == '.' || IsDigit(m[i]);
    assert forall i | 0 <= i < |w| :: m[i] == w[i];
    assert m[|w|] == '.';
    assert PointAt(m) == |w| && m[..|w|] == w && m[|w| + 1..] == f;
  }

  /** A text without an exponent marker is read from its mantissa alone. */
  lemma UnsignedWithoutExponent(t: string, m: Mantissa)
    requires ExponentAt(t) == |t| && SplitMantissa(t) == m
    ensures ParseUnsigned(t) == FromParts(m, Some(0))
  {
    assert t[..|t|] == t;
  }

  /** At exponent 0 the numeral value is w + f / 10^|f|. */
  lemma UnitExponent(w: string, f: string)
    requires AllDigits(w) && AllDigits(f)
    ensures NumeralValue(w, f, 0) == DecimalValue(w, f)
  {
    assert Scale(0) == 1.0;
  }

  /** A plain run of digits is read as the number it denotes. */
  lemma ParseDigits(t: string)
    requires |t| > 0 && AllDigits(t)
    ensures ParseBigDecimal(t) == Some(DigitsValue(t) as real)
  {
    assert IsDigit(t[0]);
    assert forall i | 0 <= i < |t| :: t[i] != 'e' && t[i] != 'E' && t[i] != '.' by {
      forall i | 0 <= i < |t|
        ensures t[i] != 'e' && t[i] != 'E' && t[i] != '.'
      {
        assert IsDigit(t[i]);
      }
    }
    assert ExponentAt(t) == |t|;
    assert t[..|t|] == t;
    assert PointAt(t) == |t|;
    assert t + "" == t;
    assert ParseUnsigned(t) == Some(DigitsValue(t) as real);
  }

  /** The text `parseValor` hands to `BigDecimal`: every '.' removed
      (thousands separators), ',' made the decimal point, then trimmed. No
      ',' is left, the ends are not blank, and the points left are exactly
      where the commas were. */
  function CleanValue(t: string): (r: string)
    ensures |r| <= |t|
    ensures |r| > 0 ==> !IsTrimmed(r[0]) && !IsTrimmed(r[|r| - 1])
    ensures var u := Remove(t, '.');
      CommasBecomePoints(u, Leading(Replace(u, ',', '.')), r)
  {
    var u := Remove(t, '.');
    var v := Replace(u, ',', '.');
    var r := Trim(v);
    CleanFacts(u, v, r, Leading(v));
    r
  }

  /** r is the run of u from k on with every ',' made a '.', and u has no
      '.' of its own: no ',' is left and the points of r are exactly the
      commas of u. */
  predicate CommasBecomePoints(u: string, k: nat, r: string) {
    && k + |r| <= |u|
    && (forall i | 0 <= i < |r| :: r[i] != ',')
    && forall i | 0 <= i < |r| :: (r[i] == '.' <==> u[k + i] == ',')
  }

  lemma CleanFacts(u: string, v: string, r: string, k: nat)
    requires forall i | 0 <= i < |u| :: u[i] != '.'
    requires |v| == |u| && forall i | 0 <= i < |u| :: v[i] == if u[i] == ',' then '.' else u[i]
    requires k + |r| <= |v| && r == v[k..k + |r|]
    ensures CommasBecomePoints(u, k, r)
  {
    forall i | 0 <= i < |r|
      ensures r[i] != ',' && (r[i] == '.' <==> u[k + i] == ',')
    {
      assert r[i] == v[k + i];
    }
  }

  /** `parseValor`: the cleaned text read as a `BigDecimal`, so a sign is
      kept and nothing else but a numeral is read. */
  function ParseValue(t: string): (r: Option<real>)
    ensures r == ParseBigDecimal(CleanValue(t))
    ensures r.Some? <==> ParseUnsigned(Unsigned(CleanValue(t))).Some?
    ensures r.Some? && !IsNegative(CleanValue(t)) ==> r.value >= 0.0
    ensures r.Some? && IsNegative(CleanValue(t)) ==> r.value <= 0.0
  {
    ParseBigDecimal(CleanValue(t))
  }

  /** A value written as plain digits is read back as that number. */
  lemma ParseDigitValue(t: string)
    requires |t| > 0 && AllDigits(t)
    ensures ParseValue(t) == Some(DigitsValue(t) as real)
  {
    NoPointToRemove(t);
    NoCommaToReplace(t);
    TrimOfDigits(t);
    ParseDigits(t);
  }

  /** Any natural number written out is read back unchanged. */
  lemma ParseWrittenValue(n: nat)
    ensures ParseValue(PadDigits(n, 1)) == Some(n as real)
  {
    ParseDigitValue(PadDigits(n, 1));
    PadDigitsRoundTrip(n, 1);
  }

  lemma {:induction false} NoPointToRemove(t: string)
    requires AllDigits(t)
    ensures Remove(t, '.') == t
  {
    if |t| > 0 {
      assert IsDigit(t[0]);
      NoPointToRemove(t[1..]);
      assert t == [t[0]] + t[1..];
    }
  }

  lemma NoCommaToReplace(t: string)
    requires AllDigits(t)
    ensures Replace(t, ',', '.') == t
  {
    assert forall i | 0 <= i < |t| :: t[i] != ',' by {
      forall i | 0 <= i < |t|
        ensures t[i] != ','
      {
        assert IsDigit(t[i]);
      }
    }
  }

  lemma TrimOfDigits(t: string)
    requires |t| > 0 && AllDigits(t)
    ensures Trim(t) == t
  {
    assert IsDigit(t[0]) && IsDigit(t[|t| - 1]);
    TrimOfField(t);
  }

  /** A text with no code unit up to U+0020 trims to itself. */
  lemma TrimOfField(t: string)
    requires |t| > 0 && forall i | 0 <= i < |t| :: !IsTrimmed(t[i])
    ensures Trim(t) == t
  {
    assert TrimStart(t) == t;
    assert TrimEnd(t) == t;
  }

  /** "4532.52" loses its '.' as a thousands separator and is read as
      453252. */
  lemma ThousandsPointIsDropped()
    ensures ParseValue("4532.52") == Some(453252.0)
  {
    PointRemoved();
    SixDigits();
    NoPointToRemove("453252");
    SameDigitsSameValue("4532.52", "453252");
    ParseDigitValue("453252");
  }

  lemma PointRemoved()
    ensures Remove("4532.52", '.') == "453252"
  {
    var t := "4532.52";
    assert t[1..] == "532.52" && t[1..][1..] == "32.52" && t[1..][1..][1..] == "2.52";
    assert "2.52"[1..] == ".52" && ".52"[1..] == "52" && "52"[1..] == "2" && "2"[1..] == "";
  }

  /** Texts that agree once their points are removed are read alike. */
  lemma SameDigitsSameValue(t: string, u: string)
    requires Remove(t, '.') == Remove(u, '.')
    ensures ParseValue(t) == ParseValue(u)
  {
  }

  lemma SixDigits()
    ensures AllDigits("453252") && DigitsValue("453252") == 453252
  {
    FourDigits();
    assert "45325"[..4] == "4532";
    assert DigitsValue("45325") == 45325;
    assert "453252"[..5] == "45325";
  }

  /** Why a line was not stored. */
  datatype LineProblem =
    | Malformed                   // "formato inválido": fewer than two fields
    | BadCompetence(text: string) // "Formato de data inválido"
    | BadValue(text: string)      // "Valor numérico inválido"

  /** An error entry: the physical line number and the problem. */
  datatype LineError = LineError(line: nat, problem: LineProblem)

  datatype Parsed = Parsed(competence: Competence, value: real)

  /** The first line is a header when, lower-cased, it mentions "competencia"
      or "data". */
  predicate IsHeader(line: string) {
    Contains(ToLower(line), "competencia") || Contains(ToLower(line), "data")
  }

  /** Line n is skipped silently: a header on line 1, or a blank line. */
  predicate Skipped(n: nat, line: string) {
    (n == 1 && IsHeader(line)) || IsBlank(line)
  }

  /** A line's competence (first field) and value (second field), each trimmed. */
  function ParseLine(line: string): (r: Result<Parsed, LineProblem>)
    ensures |Split(line)| < 2 <==> r == Failure(Malformed)
  {
    var parts := Split(line);
    if |parts| < 2 then Failure(Malformed)
    else
      var c := Trim(parts[0]);
      var v := Trim(parts[1]);
      match ParseCompetence(c)
      case None => Failure(BadCompetence(c))
      case Some(competence) =>
        match ParseValue(v)
        case None => Failure(BadValue(v))
        case Some(value) => Success(Parsed(competence, value))
  }

  /** A line whose first two fields are a competence and a value, with
      nothing to trim, is read as that point. */
  lemma ParseLineOf(line: string, a: string, b: string)
    requires |Split(line)| >= 2 && Split(line)[0] == a && Split(line)[1] == b
    requires Trim(a) == a && Trim(b) == b
    requires ParseCompetence(a).Some? && ParseValue(b).Some?
    ensures ParseLine(line) == Success(Parsed(ParseCompetence(a).value, ParseValue(b).value))
  {
  }

  /** Two separator-free fields around one separator split into exactly
      those two fields. */
  lemma SplitTwoFields(a: string, c: char, b: string)
    requires NoSeparator(a) && NoSeparator(b) && IsSeparator(c) && |b| > 0
    ensures Split(a + [c] + b) == [a, b]
  {
    FieldsAfterField(a, c, b);
    FieldsWithoutSeparator(b);
  }

  /** Three separator-free fields around two separators split into those
      three fields. */
  lemma SplitThreeFields(a: string, c: char, b: string, d: char, e: string)
    requires NoSeparator(a) && NoSeparator(b) && NoSeparator(e) && IsSeparator(c) && IsSeparator(d) && |e| > 0
    ensures Split(a + [c] + (b + [d] + e)) == [a, b, e]
  {
    FieldsAfterField(a, c, b + [d] + e);
    FieldsAfterField(b, d, e);
    FieldsWithoutSeparator(e);
  }

  /** "2020-01,4532,52" splits at both commas, so the value is 4532 and the
      52 is ignored. */
  lemma CommaDecimalIsCut()
    ensures ParseLine("2020-01,4532,52") == Success(Parsed(MonthIndex(2020, 1), 4532.0))
  {
    var a, b := "2020-01", "4532";
    CommaDecimalFields();
    FourDigits();
    TrimOfDigits(b);
    ParseDigitValue(b);
    CompetencePatternsAgree();
    TrimmedMonth();
    ParseLineOf("2020-01,4532,52", a, b);
  }

  /** The three comma-separated fields of "2020-01,4532,52". */
  lemma CommaDecimalFields()
    ensures Split("2020-01,4532,52") == ["2020-01", "4532", "52"]
  {
    var a, b, e := "2020-01", "4532", "52";
    var line := a + [','] + (b + [','] + e);
    assert line == "2020-01,4532,52";
    assert NoSeparator(a) && NoSeparator(b) && NoSeparator(e);
    SplitThreeFields(a, ',', b, ',', e);
  }

  /** "2020-01" has nothing for `trim` to remove. */
  lemma TrimmedMonth()
    ensures Trim("2020-01") == "2020-01"
  {
    TrimOfField("2020-01");
  }

  lemma FourDigits()
    ensures AllDigits("4532") && DigitsValue("4532") == 4532
  {
    assert "4"[..0] == "";
    assert DigitsValue("4") == 4;
    assert "45"[..1] == "4";
    assert DigitsValue("45") == 45;
    assert "453"[..2] == "45";
    assert DigitsValue("453") == 453;
    assert "4532"[..3] == "453";
  }

  /** What the loop does with one line. */
  datatype LineOutcome =
    | Skip                  // header or blank line
    | Bad(problem: LineProblem)
    | Good(point: Parsed)

  /** The outcome of line number n. */
  function Classify(n: nat, line: string): (r: LineOutcome)
    ensures r.Skip? <==> Skipped(n, line)
    ensures r.Bad? <==> !Skipped(n, line) && ParseLine(line).Failure?
    ensures r.Bad? ==> r.problem == ParseLine(line).error
    ensures r.Good? ==> r.point == ParseLine(line).value
  {
    if Skipped(n, line) then Skip
    else
      match ParseLine(line)
      case Failure(problem) => Bad(problem)
      case Success(p) => Good(p)
  }

  /** The outcomes of all the lines, the first line being number 1. */
  function Classified(lines: seq<string>): (r: seq<LineOutcome>)
    ensures |r| == |lines| && forall i | 0 <= i < |lines| :: r[i] == Classify(i + 1, lines[i])
  {
    Numbered(lines, Classify)
  }

  /** f applied to each line and its number, the first line being number 1. */
  function Numbered<T>(lines: seq<string>, f: (nat, string) -> T): (r: seq<T>)
    ensures |r| == |lines| && forall i | 0 <= i < |lines| :: r[i] == f(i + 1, lines[i])
  {
    seq(|lines|, i requires 0 <= i < |lines| => f(i + 1, lines[i]))
  }

  /** The counts and errors of an import, and the store it leaves. */
  datatype Tally = Tally(imported: nat, updated: nat, errors: seq<LineError>, store: Store)

  /** The number of outcomes that are not skips. */
  function ReadCount(outcomes: seq<LineOutcome>): nat {
    if |outcomes| == 0 then 0
    else (if outcomes[0].Skip? then 0 else 1) + ReadCount(outcomes[1..])
  }

  /** The loop over the line outcomes, numbered from `first`: each good
      line is stored (counted as updated when its point existed, else as
      imported), each bad one is reported, and the loop goes on. */
  function ImportLines(store: Store, table: SeriesId, outcomes: seq<LineOutcome>, first: nat): (t: Tally)
    ensures t.imported + t.updated + |t.errors| == ReadCount(outcomes)
    ensures store.Keys <= t.store.Keys
    ensures |t.store.Keys| == |store.Keys| + t.imported
    decreases |outcomes|
  {
    if |outcomes| == 0 then Tally(0, 0, [], store)
    else
      match outcomes[0]
      case Skip => ImportLines(store, table, outcomes[1..], first + 1)
      case Bad(problem) =>
        var rest := ImportLines(store, table, outcomes[1..], first + 1);
        rest.(errors := [LineError(first, problem)] + rest.errors)
      case Good(p) =>
        var key := PointKey(table, p.competence);
        var up := Upsert(store, key, p.value, CsvImport);
        var rest := ImportLines(up.store, table, outcomes[1..], first + 1);
        if up.existed then
          assert up.store.Keys == store.Keys;
          rest.(updated := rest.updated + 1)
        else
          assert |up.store.Keys| == |store.Keys| + 1 by {
            assert up.store.Keys == store.Keys + {key} && key !in store.Keys;
          }
          rest.(imported := rest.imported + 1)
  }

  /** Points of other series are neither added nor changed, and every point
      that changed now carries the CSV_IMPORT source. */
  lemma {:induction false} ImportTouchesOnlyItsTable(store: Store, table: SeriesId, outcomes: seq<LineOutcome>, first: nat)
    ensures var t := ImportLines(store, table, outcomes, first);
      KeepsOtherSeries(store, t.store, table) && ChangesCarry(store, t.store, CsvImport)
    decreases |outcomes|
  {
    if |outcomes| > 0 {
      var mid := AfterLine(store, table, outcomes[0]);
      var next := ImportLines(store, table, outcomes, first).store;
      ImportStep(store, table, outcomes, first);
      ImportTouchesOnlyItsTable(mid, table, outcomes[1..], first + 1);
      if outcomes[0].Good? {
        UpsertTouchesOnlyItsKey(store, PointKey(table, outcomes[0].point.competence), outcomes[0].point.value, CsvImport);
      }
      ChangesCompose(store, mid, next, table, CsvImport);
    }
  }

  /** The store after one line: a good line's point upserted, else unchanged. */
  function AfterLine(store: Store, table: SeriesId, o: LineOutcome): Store {
    if o.Good? then Upsert(store, PointKey(table, o.point.competence), o.point.value, CsvImport).store else store
  }

  /** The import goes on from the store its first line leaves. */
  lemma ImportStep(store: Store, table: SeriesId, outcomes: seq<LineOutcome>, first: nat)
    requires |outcomes| > 0
    ensures ImportLines(store, table, outcomes, first).store
      == ImportLines(AfterLine(store, table, outcomes[0]), table, outcomes[1..], first + 1).store
  {
    if outcomes[0].Good? {
      ImportGoodStep(store, table, outcomes, first);
    } else {
      ImportOtherStep(store, table, outcomes, first);
    }
  }

  lemma ImportGoodStep(store: Store, table: SeriesId, outcomes: seq<LineOutcome>, first: nat)
    requires |outcomes| > 0 && outcomes[0].Good?
    ensures ImportLines(store, table, outcomes, first).store
      == ImportLines(AfterLine(store, table, outcomes[0]), table, outcomes[1..], first + 1).store
  {
    var p := outcomes[0].point;
    var up := Upsert(store, PointKey(table, p.competence), p.value, CsvImport);
    var t := ImportLines(up.store, table, outcomes[1..], first + 1);
    assert ImportLines(store, table, outcomes, first)
      == if up.existed then t.(updated := t.updated + 1) else t.(imported := t.imported + 1);
  }

  lemma ImportOtherStep(store: Store, table: SeriesId, outcomes: seq<LineOutcome>, first: nat)
    requires |outcomes| > 0 && !outcomes[0].Good?
    ensures ImportLines(store, table, outcomes, first).store
      == ImportLines(store, table, outcomes[1..], first + 1).store
  {
    var t := ImportLines(store, table, outcomes[1..], first + 1);
    assert ImportLines(store, table, outcomes, first).store == t.store;
  }

  /** The value of the last good line for competence c, if any. */
  function LastValue(outcomes: seq<LineOutcome>, c: Competence): Option<real>
    decreases |outcomes|
  {
    if |outcomes| == 0 then None
    else if LastValue(outcomes[1..], c).Some? then LastValue(outcomes[1..], c)
    else if outcomes[0].Good? && outcomes[0].point.competence == c then Some(outcomes[0].point.value)
    else None
  }

  /** The last line for a month wins: after the import the table's point
      for c holds the value of the last good line for c; a month no good
      line mentions keeps whatever the store had. */
  lemma {:induction false} LastLineWins(store: Store, table: SeriesId, outcomes: seq<LineOutcome>, first: nat, c: Competence)
    ensures var t := ImportLines(store, table, outcomes, first);
      var k := PointKey(table, c);
      && (LastValue(outcomes, c).Some? ==> k in t.store && t.store[k] == IndexPoint(LastValue(outcomes, c).value, CsvImport))
      && (LastValue(outcomes, c).None? ==> (k in t.store <==> k in store) && (k in store ==> t.store[k] == store[k]))
    decreases |outcomes|
  {
    if |outcomes| > 0 {
      match outcomes[0]
      case Skip =>
        LastLineWins(store, table, outcomes[1..], first + 1, c);
      case Bad(_) =>
        LastLineWins(store, table, outcomes[1..], first + 1, c);
      case Good(p) =>
        var up := Upsert(store, PointKey(table, p.competence), p.value, CsvImport);
        LastLineWins(up.store, table, outcomes[1..], first + 1, c);
    }
  }

  /** The errors the bad lines among the outcomes produce, numbered from
      `first`. */
  function ErrorsOf(outcomes: seq<LineOutcome>, first: nat): seq<LineError>
    decreases |outcomes|
  {
    if |outcomes| == 0 then []
    else if outcomes[0].Bad? then [LineError(first, outcomes[0].problem)] + ErrorsOf(outcomes[1..], first + 1)
    else ErrorsOf(outcomes[1..], first + 1)
  }

  /** The import reports exactly the bad lines, whatever the store holds. */
  lemma {:induction false} ImportReportsBadLines(store: Store, table: SeriesId, outcomes: seq<LineOutcome>, first: nat)
    ensures ImportLines(store, table, outcomes, first).errors == ErrorsOf(outcomes, first)
    decreases |outcomes|
  {
    if |outcomes| > 0 {
      match outcomes[0]
      case Skip =>
        ImportReportsBadLines(store, table, outcomes[1..], first + 1);
      case Bad(_) =>
        ImportReportsBadLines(store, table, outcomes[1..], first + 1);
      case Good(p) =>
        var up := Upsert(store, PointKey(table, p.competence), p.value, CsvImport);
        ImportReportsBadLines(up.store, table, outcomes[1..], first + 1);
    }
  }

  predicate LinesAscending(es: seq<LineError>) {
    forall i, j | 0 <= i < j < |es| :: es[i].line < es[j].line
  }

  /** Errors are listed in line order, each with the number of a line that
      was read and the problem found on it. */
  lemma {:induction false} ErrorsInLineOrder(outcomes: seq<LineOutcome>, first: nat)
    ensures forall i | 0 <= i < |ErrorsOf(outcomes, first)| ::
      var e := ErrorsOf(outcomes, first)[i];
      && first <= e.line < first + |outcomes|
      && outcomes[e.line - first] == Bad(e.problem)
    ensures LinesAscending(ErrorsOf(outcomes, first))
    decreases |outcomes|
  {
    if |outcomes| > 0 {
      ErrorsInLineOrder(outcomes[1..], first + 1);
      var es, rest := ErrorsOf(outcomes, first), ErrorsOf(outcomes[1..], first + 1);
      if outcomes[0].Bad? {
        assert forall i | 0 < i < |es| :: es[i] == rest[i - 1];
        assert forall i | 0 < i < |es| :: es[0].line < es[i].line by {
          forall i | 0 < i < |es|
            ensures es[0].line < es[i].line
          {
            assert es[i] == rest[i - 1];
          }
        }
      } else {
        assert es == rest;
      }
    }
  }

  /** `importarCSV`: the table must exist; the lines are numbered from 1. */
  function Import(store: Store, tables: seq<IndexTable>, table: SeriesId, lines: seq<string>): (r: Result<Tally, Error>)
    ensures r.Failure? <==> FindTableById(tables, table).None?
    ensures r.Failure? ==> r.error == TableNotFound(table)
    ensures r.Success? ==> r.value == ImportLines(store, table, Classified(lines), 1)
  {
    if FindTableById(tables, table).None? then Failure(TableNotFound(table))
    else Success(ImportLines(store, table, Classified(lines), 1))
  }

  /** A first line mentioning "competencia" is a header and is skipped. */
  lemma HeaderIsSkipped(header: string)
    requires header == "competencia;valor"
    ensures Classify(1, header) == Skip
  {
    assert ToLower(header)[0..11] == "competencia";
    assert OccursAt(ToLower(header), "competencia", 0);
  }

  /** A line past the first made of a competence field, one separator and a
      value field, neither with anything to trim, is stored as that point. */
  lemma GoodLine(n: nat, a: string, c: char, b: string)
    requires n > 1 && IsSeparator(c) && NoSeparator(a) && NoSeparator(b) && |a| > 0 && |b| > 0
    requires forall i | 0 <= i < |a| :: !IsTrimmed(a[i])
    requires forall i | 0 <= i < |b| :: !IsTrimmed(b[i])
    requires ParseCompetence(a).Some? && ParseValue(b).Some?
    ensures Classify(n, a + [c] + b) == Good(Parsed(ParseCompetence(a).value, ParseValue(b).value))
  {
    var line := a + [c] + b;
    assert line[0] == a[0];
    NotBlank(line);
    TrimOfField(a);
    TrimOfField(b);
    SplitTwoFields(a, c, b);
    ParseLineOf(line, a, b);
  }

  /** The fields of the example lines below have no separator and nothing
      to trim. */
  lemma ExampleFields(a: string, b2: string, b3: string)
    requires a == "2020-01" && b2 == "4532" && b3 == "4532.52"
    ensures NoSeparator(a) && NoSeparator(b2) && NoSeparator(b3)
    ensures |a| > 0 && forall i | 0 <= i < |a| :: !IsTrimmed(a[i])
    ensures |b2| > 0 && forall i | 0 <= i < |b2| :: !IsTrimmed(b2[i])
    ensures |b3| > 0 && forall i | 0 <= i < |b3| :: !IsTrimmed(b3[i])
  {
  }

  lemma ExampleValues(a: string, b2: string, b3: string)
    requires a == "2020-01" && b2 == "4532" && b3 == "4532.52"
    ensures ParseCompetence(a) == Some(MonthIndex(2020, 1))
    ensures ParseValue(b2) == Some(4532.0)
    ensures ParseValue(b3) == Some(453252.0)
  {
    CompetencePatternsAgree();
    FourDigits();
    ParseDigitValue(b2);
    ThousandsPointIsDropped();
  }

  /** A header line, then January 2020 = "4532", then January 2020 again
      with its value written "4532.52" (read as 453252). */
  lemma ExampleLines(header: string, a: string, b2: string, b3: string)
    requires header == "competencia;valor" && a == "2020-01" && b2 == "4532" && b3 == "4532.52"
    ensures Classify(1, header) == Skip
    ensures Classify(2, a + [';'] + b2) == Good(Parsed(MonthIndex(2020, 1), 4532.0))
    ensures Classify(3, a + [';'] + b3) == Good(Parsed(MonthIndex(2020, 1), 453252.0))
  {
    HeaderIsSkipped(header);
    ExampleFields(a, b2, b3);
    ExampleValues(a, b2, b3);
    GoodLine(2, a, ';', b2);
    GoodLine(3, a, ';', b3);
  }

  lemma ClassifiedThree(l1: string, l2: string, l3: string)
    ensures Classified([l1, l2, l3]) == [Classify(1, l1), Classify(2, l2), Classify(3, l3)]
  {
    var lines := [l1, l2, l3];
    var r := Classified(lines);
    assert r[0] == Classify(1, lines[0]);
    assert r[1] == Classify(2, lines[1]);
    assert r[2] == Classify(3, lines[2]);
    ThreeItems(r, Classify(1, l1), Classify(2, l2), Classify(3, l3));
  }

  lemma ThreeItems<T>(r: seq<T>, a: T, b: T, c: T)
    requires |r| == 3 && r[0] == a && r[1] == b && r[2] == c
    ensures r == [a, b, c]
  {
  }

  /** The same three lines as a file. */
  lemma ExampleOutcomes(header: string, a: string, b2: string, b3: string)
    requires header == "competencia;valor" && a == "2020-01" && b2 == "4532" && b3 == "4532.52"
    ensures Classified([header, a + [';'] + b2, a + [';'] + b3])
         == [Skip, Good(Parsed(MonthIndex(2020, 1), 4532.0)), Good(Parsed(MonthIndex(2020, 1), 453252.0))]
  {
    ExampleLines(header, a, b2, b3);
    ClassifiedThree(header, a + [';'] + b2, a + [';'] + b3);
  }

  /** Importing those lines into an empty store: one point imported, one
      updated, and the later value kept with the CSV_IMPORT source. */
  lemma ImportExample()
    ensures var t := ImportLines(map[], 7, [Skip, Good(Parsed(MonthIndex(2020, 1), 4532.0)), Good(Parsed(MonthIndex(2020, 1), 453252.0))], 1);
            && t.imported == 1 && t.updated == 1 && t.errors == []
            && t.store == map[PointKey(7, MonthIndex(2020, 1)) := IndexPoint(453252.0, CsvImport)]
  {
    var key := PointKey(7, MonthIndex(2020, 1));
    var g2, g3 := Good(Parsed(MonthIndex(2020, 1), 4532.0)), Good(Parsed(MonthIndex(2020, 1), 453252.0));
    var s2 := map[key := IndexPoint(4532.0, CsvImport)];
    var s3 := map[key := IndexPoint(453252.0, CsvImport)];
    assert s2[key := IndexPoint(453252.0, CsvImport)] == s3;
    assert ImportLines(s2, 7, [g3], 3) == Tally(0, 1, [], s3) by {
      assert [g3][1..] == [];
    }
    assert ImportLines(map[], 7, [g2, g3], 2) == Tally(1, 1, [], s3) by {
      assert [g2, g3][1..] == [g3];
    }
    assert [Skip, g2, g3][1..] == [g2, g3];
  }

  lemma NotBlank(line: string)
    requires |line| > 0 && !IsTrimmed(line[0])
    ensures !IsBlank(line)
  {
    BlankIffAllTrimmed(line);
  }
}
