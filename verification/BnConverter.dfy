/**
Fixed-point conversion between decimal strings and scaled integers. The strings
are plain decimals: digits with at most one point and at least one digit. A
`Decimal` holds all the digits of its string and the number of them that follow
the point, so it is exact.
*/
module BnConverter {
  import opened Wrappers
  import opened Text
  import opened Digits

  datatype ConversionError = TooManyDecimalPlaces(precision: nat)

  /** The number `coefficient` divided by ten to the power `places`. */
  datatype Decimal = Decimal(coefficient: nat, places: nat)

  /** Two decimals denote one number, whatever their trailing zeros. */
  ghost predicate SameNumber(a: Decimal, b: Decimal) {
    a.coefficient * Pow10(b.places) == b.coefficient * Pow10(a.places)
  }

  /** The number itself. */
  ghost function Number(a: Decimal): real {
    a.coefficient as real / Pow10(a.places) as real
  }

  lemma SameNumberMeaning(a: Decimal, b: Decimal)
    ensures SameNumber(a, b) <==> Number(a) == Number(b)
  {
    CrossMultiply(a.coefficient, Pow10(a.places), b.coefficient, Pow10(b.places));
  }

  lemma CrossMultiply(a: nat, p: nat, b: nat, q: nat)
    requires 1 <= p && 1 <= q
    ensures a * q == b * p <==> a as real / p as real == b as real / q as real
  {
    var x, y := a as real / p as real, b as real / q as real;
    assert x * p as real == a as real && y * q as real == b as real;
    assert (a * q) as real == x * (p as real * q as real);
    assert (b * p) as real == y * (p as real * q as real);
    assert 0.0 < p as real * q as real;
  }

  // ---------- Plain decimals ----------

  predicate IsPlain(s: string) {
    var parts := Split(s, '.');
    && |parts| <= 2
    && (forall i | 0 <= i < |parts| :: AllDigits(parts[i]))
    && exists i | 0 <= i < |parts| :: parts[i] != ""
  }

  function IntPart(s: string): (part: string)
    requires IsPlain(s)
    ensures AllDigits(part)
  {
    Split(s, '.')[0]
  }

  function FractionPart(s: string): (part: string)
    requires IsPlain(s)
    ensures AllDigits(part)
  {
    SplitFound(s, '.');
    if '.' in s then Split(s, '.')[1] else ""
  }

  /** The decimal that a plain string denotes. */
  function ParseDecimal(s: string): Decimal
    requires IsPlain(s)
  {
    ValueOfConcat(IntPart(s), FractionPart(s));
    Decimal(Value(IntPart(s) + FractionPart(s)), |FractionPart(s)|)
  }

  // ---------- The conversions ----------

  function MakeBN(num: string, precision: nat): Result<nat, ConversionError>
    requires IsPlain(num)
  {
    var intPart, fractionPart := IntPart(num), FractionPart(num);
    if |fractionPart| > precision then Failure(TooManyDecimalPlaces(precision))
    else
      var trailingZeros := Zeros(precision - |fractionPart|);
      Success(Value(intPart + fractionPart + trailingZeros))
  }

  function MakeBN18(num: string): Result<nat, ConversionError>
    requires IsPlain(num)
  {
    MakeBN(num, 18)
  }

  /** `s.slice(-count)`: the last `count` characters, but all of them when `count` is zero. */
  function SliceLast(s: string, count: nat): string {
    if count == 0 || count >= |s| then s else s[|s| - count..]
  }

  /** What stands before the point: "0" when the number has no more than `digits` digits. */
  function IntegerDigits(num: nat, digits: nat): (s: string)
    ensures s != "" && AllDigits(s)
  {
    var strBN := Show(num);
    if |strBN| <= digits then "0" else strBN[..|strBN| - digits]
  }

  /** What stands behind it: the number padded with zeros, or its last digits. */
  function FractionDigits(num: nat, digits: nat): (s: string)
    ensures AllDigits(s)
  {
    var strBN := Show(num);
    if |strBN| <= digits then Zeros(digits - |strBN|) + strBN else SliceLast(strBN, digits)
  }

  /** The string handed to `Decimal`. */
  function DecimalText(num: nat, digits: nat): (s: string)
    ensures IsPlain(s)
  {
    PointText(IntegerDigits(num, digits), FractionDigits(num, digits));
    IntegerDigits(num, digits) + "." + FractionDigits(num, digits)
  }

  function MakeDecimal(num: nat, digits: nat): Decimal {
    ParseDecimal(DecimalText(num, digits))
  }

  function MakeDecimal18(num: nat): Decimal {
    MakeDecimal(num, 18)
  }

  // ---------- Texts with a point ----------

  lemma NoPointInDigits(s: string)
    requires AllDigits(s)
    ensures '.' !in s
  {
  }

  /** Two digit strings around a point are read back as they are, one of them empty or not. */
  lemma PointText(intPart: string, fractPart: string)
    requires AllDigits(intPart) && AllDigits(fractPart) && (intPart != "" || fractPart != "")
    ensures var s := intPart + "." + fractPart;
      IsPlain(s) && IntPart(s) == intPart && FractionPart(s) == fractPart
  {
    var s := intPart + "." + fractPart;
    NoPointInDigits(intPart);
    NoPointInDigits(fractPart);
    assert s == intPart + ['.'] + fractPart;
    SplitFirst(intPart, '.', fractPart);
    SplitPlain(fractPart, '.');
    assert Split(s, '.') == [intPart, fractPart];
    SplitFound(s, '.');
    assert Split(s, '.')[0] != "" || Split(s, '.')[1] != "";
  }

  /** A text of digits alone has no fraction. */
  lemma PointlessText(s: string)
    requires AllDigits(s) && s != ""
    ensures IsPlain(s) && IntPart(s) == s && FractionPart(s) == ""
  {
    NoPointInDigits(s);
    SplitPlain(s, '.');
    assert Split(s, '.')[0] != "";
  }

  /** `s` is digits around a point, not both sides of it empty. */
  ghost predicate HasPoint(s: string) {
    exists i: string, f: string :: s == i + "." + f && AllDigits(i) && AllDigits(f) && (i != "" || f != "")
  }

  /** The plain decimals are the texts of digits and those of digits around a point. */
  lemma PlainForms(s: string)
    ensures IsPlain(s) <==> (s != "" && AllDigits(s)) || HasPoint(s)
  {
    if IsPlain(s) {
      JoinSplit(s, '.');
      var parts := Split(s, '.');
      if |parts| == 2 {
        assert parts[1..] == [parts[1]];
        assert s == parts[0] + "." + parts[1];
      }
    }
    if HasPoint(s) {
      var i, f :| s == i + "." + f && AllDigits(i) && AllDigits(f) && (i != "" || f != "");
      PointText(i, f);
    }
    if s != "" && AllDigits(s) {
      PointlessText(s);
    }
  }

  /** The plain decimal with the digits `i` before the point and `f` after it. */
  function Pointed(i: string, f: string): (s: string)
    requires AllDigits(i) && AllDigits(f) && (i != "" || f != "")
    ensures IsPlain(s) && s == i + "." + f
  {
    PointText(i, f);
    i + "." + f
  }

  /** What a plain decimal denotes, from its digits before and after the point. */
  lemma ParsedParts(i: string, f: string)
    requires AllDigits(i) && AllDigits(f) && (i != "" || f != "")
    ensures ParseDecimal(Pointed(i, f)) == Decimal(Value(i) * Pow10(|f|) + Value(f), |f|)
  {
    PointText(i, f);
    ValueOfConcat(i, f);
  }

  /** And what it converts to. */
  lemma MakeBNOfParts(i: string, f: string, precision: nat)
    requires AllDigits(i) && AllDigits(f) && (i != "" || f != "")
    ensures MakeBN(Pointed(i, f), precision) ==
            if precision < |f| then Failure(TooManyDecimalPlaces(precision))
            else Success((Value(i) * Pow10(|f|) + Value(f)) * Pow10(precision - |f|))
  {
    ParsedParts(i, f);
    MakeBNScales(Pointed(i, f), precision);
  }

  /** Without a point. */
  lemma MakeBNOfDigits(s: string, precision: nat)
    requires s != "" && AllDigits(s)
    ensures IsPlain(s) && ParseDecimal(s) == Decimal(Value(s), 0)
    ensures MakeBN(s, precision) == Success(Value(s) * Pow10(precision))
  {
    PointlessText(s);
    assert s + "" == s;
    MakeBNScales(s, precision);
  }

  /** A one in the last of `precision` places is kept: one times ten to the precision, and one. */
  lemma LastPlaceKept(precision: nat)
    requires 1 <= precision
    ensures MakeBN(Pointed("1", Zeros(precision - 1) + "1"), precision) == Success(Pow10(precision) + 1)
  {
    var f := Zeros(precision - 1) + "1";
    OneIsOne();
    ValueOfPadded(precision - 1, "1");
    MakeBNOfParts("1", f, precision);
  }

  /** The example that the source documents. */
  lemma DocumentedExample()
    ensures IsPlain("1.000000000000000001")
      && MakeBN18("1.000000000000000001") == Success(1_000_000_000_000_000_001)
  {
    LastPlaceKept(18);
    PowersOfTen();
    ExampleText();
  }

  lemma ExampleText()
    ensures Pointed("1", Zeros(17) + "1") == "1.000000000000000001"
  {
  }

  lemma OneIsOne()
    ensures Value("1") == 1
  {
    assert "1"[..0] == "";
  }

  lemma PowersOfTen()
    ensures Pow10(18) == 1_000_000_000_000_000_000
  {
    assert Pow10(6) == 1_000_000;
    Pow10Adds(6, 6);
    Pow10Adds(12, 6);
  }

  lemma DecimalTextParts(num: nat, digits: nat)
    ensures IntPart(DecimalText(num, digits)) == IntegerDigits(num, digits)
    ensures FractionPart(DecimalText(num, digits)) == FractionDigits(num, digits)
  {
    PointText(IntegerDigits(num, digits), FractionDigits(num, digits));
  }

  // ---------- What the conversions compute ----------

  /** The integer is the decimal scaled up to `precision` places, and is refused only for having more. */
  lemma MakeBNScales(num: string, precision: nat)
    requires IsPlain(num)
    ensures var d, r := ParseDecimal(num), MakeBN(num, precision);
      && (r.Failure? <==> d.places > precision)
      && (r.Failure? ==> r.error == TooManyDecimalPlaces(precision))
      && (r.Success? ==> r.value == d.coefficient * Pow10(precision - d.places))
  {
    var i, f := IntPart(num), FractionPart(num);
    if |f| <= precision {
      ValueOfConcat(i, f);
      ValueOfConcat(i + f, Zeros(precision - |f|));
      ValueOfZeros(precision - |f|);
    }
  }

  /** So the integer over the power of ten is the number that was converted. */
  lemma MakeBNMeaning(num: string, precision: nat)
    requires IsPlain(num) && MakeBN(num, precision).Success?
    ensures SameNumber(Decimal(MakeBN(num, precision).value, precision), ParseDecimal(num))
  {
    MakeBNScales(num, precision);
    var d := ParseDecimal(num);
    Pow10Adds(precision - d.places, d.places);
    Associate(d.coefficient, Pow10(precision - d.places), Pow10(d.places));
  }

  lemma Associate(a: nat, b: nat, c: nat)
    ensures a * b * c == a * (b * c)
  {
  }

  lemma PaddedValue(n: string, zeros: nat)
    requires AllDigits(n)
    ensures AllDigits("0" + (Zeros(zeros) + n)) && Value("0" + (Zeros(zeros) + n)) == Value(n)
  {
    ValueOfPadded(zeros, n);
    ValueOfPadded(1, Zeros(zeros) + n);
    assert "0" == Zeros(1);
  }

  lemma CutText(n: string, digits: nat)
    requires 1 <= digits < |n|
    ensures n[..|n| - digits] + SliceLast(n, digits) == n && |SliceLast(n, digits)| == digits
  {
  }

  /** In both length branches, with at least one digit, the decimal is the integer over the power of ten. */
  lemma MakeDecimalMeaning(num: nat, digits: nat)
    requires 1 <= digits
    ensures MakeDecimal(num, digits) == Decimal(num, digits)
  {
    DecimalTextParts(num, digits);
    ValueOfShow(num);
    if |Show(num)| <= digits {
      PaddedValue(Show(num), digits - |Show(num)|);
    } else {
      CutText(Show(num), digits);
    }
  }

  /** With no digits the slice takes the whole number, which then stands on both sides of the point. */
  lemma MakeDecimalNoDigits(num: nat)
    ensures MakeDecimal(num, 0) == Decimal(num * Pow10(|Show(num)|) + num, |Show(num)|)
  {
    var n := Show(num);
    var text := DecimalText(num, 0);
    DecimalTextParts(num, 0);
    assert n[..|n|] == n;
    assert IntPart(text) == n && FractionPart(text) == n;
    ValueOfShow(num);
    ValueOfConcat(n, n);
    assert Value(n + n) == num * Pow10(|n|) + num;
  }

  /** So the decimal is the intended number exactly when a digit is asked for, or the number is zero. */
  lemma MakeDecimalExactly(num: nat, digits: nat)
    ensures SameNumber(MakeDecimal(num, digits), Decimal(num, digits)) <==> 1 <= digits || num == 0
  {
    if 1 <= digits {
      MakeDecimalMeaning(num, digits);
    } else {
      MakeDecimalNoDigits(num);
      RepeatedIsLarger(num, Pow10(|Show(num)|));
    }
  }

  lemma RepeatedIsLarger(n: nat, p: nat)
    ensures (n * p + n) * Pow10(0) == n * p <==> n == 0
  {
    assert Pow10(0) == 1;
  }

  /** A concrete failure: 7 with no digits becomes 7.7. */
  lemma NoDigitsWitness()
    ensures MakeDecimal(7, 0) == Decimal(77, 1)
  {
    MakeDecimalNoDigits(7);
    assert Show(7) == [DigitChar(7)];
    assert Pow10(1) == 10;
  }

  // ---------- Round trips ----------

  /**
  Converting to an integer and back keeps the number of a plain decimal that fits
  exactly when at least one place is kept, or the number is zero.
  */
  lemma StringRoundTrip(num: string, precision: nat)
    requires IsPlain(num) && |FractionPart(num)| <= precision
    ensures MakeBN(num, precision).Success?
    ensures SameNumber(MakeDecimal(MakeBN(num, precision).value, precision), ParseDecimal(num)) <==>
            1 <= precision || ParseDecimal(num).coefficient == 0
  {
    MakeBNScales(num, precision);
    MakeBNMeaning(num, precision);
    var n, d := MakeBN(num, precision).value, ParseDecimal(num);
    if 1 <= precision {
      MakeDecimalMeaning(n, precision);
    } else {
      assert d.places == 0 && n == d.coefficient;
      MakeDecimalExactly(n, 0);
    }
  }

  lemma CancelRight(a: nat, b: nat, p: nat)
    requires 1 <= p && a * p == b * p
    ensures a == b
  {
  }

  /**
  Every integer comes back from every plain spelling of its decimal that has at
  most `digits` places, whatever its leading and trailing zeros.
  */
  lemma IntegerRoundTrip(num: nat, digits: nat, spelling: string)
    requires 1 <= digits && IsPlain(spelling) && |FractionPart(spelling)| <= digits
    requires SameNumber(ParseDecimal(spelling), MakeDecimal(num, digits))
    ensures MakeBN(spelling, digits) == Success(num)
  {
    MakeBNScales(spelling, digits);
    MakeBNMeaning(spelling, digits);
    MakeDecimalMeaning(num, digits);
    CancelRight(MakeBN(spelling, digits).value, num, Pow10(ParseDecimal(spelling).places));
  }

  /** In particular from its own expansion to `digits` places. */
  lemma ExpansionRoundTrip(num: nat, digits: nat)
    requires 1 <= digits
    ensures |FractionPart(DecimalText(num, digits))| == digits
    ensures MakeBN(DecimalText(num, digits), digits) == Success(num)
  {
    MakeDecimalMeaning(num, digits);
    IntegerRoundTrip(num, digits, DecimalText(num, digits));
  }

  /** The 18-digit wrappers undo each other. */
  lemma RoundTrip18(num: nat, text: string)
    requires IsPlain(text) && |FractionPart(text)| <= 18
    ensures MakeBN18(DecimalText(num, 18)) == Success(num)
    ensures MakeBN18(text).Success? && SameNumber(MakeDecimal18(MakeBN18(text).value), ParseDecimal(text))
  {
    ExpansionRoundTrip(num, 18);
    StringRoundTrip(text, 18);
  }

  /** Spellings of one number that are both accepted give one integer. */
  lemma SpellingIrrelevant(a: string, b: string, precision: nat)
    requires IsPlain(a) && IsPlain(b) && SameNumber(ParseDecimal(a), ParseDecimal(b))
    requires MakeBN(a, precision).Success? && MakeBN(b, precision).Success?
    ensures MakeBN(a, precision) == MakeBN(b, precision)
  {
    var x, y := Decimal(MakeBN(a, precision).value, precision), Decimal(MakeBN(b, precision).value, precision);
    MakeBNMeaning(a, precision);
    MakeBNMeaning(b, precision);
    Chain(x, ParseDecimal(a), ParseDecimal(b));
    Chain(x, ParseDecimal(b), y);
    CancelRight(x.coefficient, y.coefficient, Pow10(precision));
  }

  lemma Chain(a: Decimal, b: Decimal, c: Decimal)
    requires SameNumber(a, b) && SameNumber(b, c)
    ensures SameNumber(a, c)
  {
    SameNumberMeaning(a, b);
    SameNumberMeaning(b, c);
    SameNumberMeaning(a, c);
  }
}
