/** Integers up to 2^53 are printed and read back exactly, given how libc treats plain decimal digits. */
module Numbers {
  import opened Bytes
  import opened Json
  import opened Decimals
  import opened Grammar
  import opened Parser
  import opened Serializer
  import opened RoundTrip
  import opened Language

  /** The largest magnitude up to which every integer is a double. */
  const EXACT: nat := 0x20_0000_0000_0000

  function DigitText(k: nat): (t: Text)
    ensures t != [] && forall i :: 0 <= i < |t| ==> IsDigit(t[i])
  {
    if k < 10 then [('0' as int + k) as char] else DigitText(k / 10) + [('0' as int + k % 10) as char]
  }

  function DigitsValue(t: Text): nat
    requires forall i :: 0 <= i < |t| ==> IsDigit(t[i])
  {
    if t == [] then 0
    else
      assert IsDigit(t[|t| - 1]);
      DigitsValue(t[..|t| - 1]) * 10 + (t[|t| - 1] as int - '0' as int)
  }

  function Sign(negative: bool): Text {
    if negative then "-" else []
  }

  /** "%1.17g" prints an integer below 10^17 as its plain digits. */
  ghost predicate PrintsDecimals(lib: Libc) {
    forall negative: bool, k: nat :: k <= EXACT ==>
      lib.sprintf(Number(negative, k as real)) == Sign(negative) + DigitText(k)
  }

  /** `strtod` reads a run of plain digits up to 2^53 exactly, when the next byte cannot belong to a number. */
  ghost predicate ReadsDecimals(lib: Libc) {
    forall negative: bool, t: Text, rest: Text ::
      Digits(t) && DigitsValue(t) <= EXACT && EndsNumber(Head(rest)) ==>
        lib.strtod((Sign(negative) + t) + rest)
        == Reading(|Sign(negative) + t|, true, Some(Number(negative, DigitsValue(t) as real)))
  }

  lemma {:induction false} DigitsRoundTrip(k: nat)
    ensures DigitsValue(DigitText(k)) == k
  {
    var t := DigitText(k);
    if k >= 10 {
      DigitsRoundTrip(k / 10);
      assert t[..|t| - 1] == DigitText(k / 10);
    } else {
      assert t[..0] == [] && DigitsValue(t[..0]) == 0;
    }
  }

  /** A printed integer starts with a zero only when it is zero. */
  lemma {:induction false} NoLeadingZero(k: nat)
    ensures DigitText(k)[0] == '0' ==> k == 0
    ensures k < 10 ==> |DigitText(k)| == 1
  {
    if k >= 10 {
      NoLeadingZero(k / 10);
    }
  }

  lemma IntegerPrintsBack(lib: Libc, negative: bool, k: nat)
    requires PrintsDecimals(lib) && ReadsDecimals(lib) && k <= EXACT
    ensures PrintsBack(lib, Number(negative, k as real))
  {
    hide DigitText, DigitsValue;
    var n := Number(negative, k as real);
    var d := DigitText(k);
    var t := Sign(negative) + d;
    assert lib.sprintf(n) == t;
    NoLeadingZero(k);
    assert forall i :: 0 <= i < |t| ==> IsDigit(t[i]) || t[i] == '-';
    assert t[|Sign(negative)|] == d[0] && IsDigit(d[0]);
    DigitsRoundTrip(k);
    assert Digits(d);
    forall rest: Text | EndsNumber(Head(rest))
      ensures lib.strtod(t + rest) == Reading(|t|, true, Some(n))
    {
      assert t + rest == (Sign(negative) + d) + rest;
    }
  }

  predicate HasMagnitude(n: Number, k: nat) {
    n.magnitude == k as real
  }

  /** All numbers of the tree are integers of magnitude at most 2^53; the sign of zero may be either. */
  ghost predicate IntegersOnly(v: Json) {
    match v
    case Num(n) => exists k: nat :: k <= EXACT && HasMagnitude(n, k)
    case Arr(items) => forall i :: 0 <= i < |items| ==> IntegersOnly(items[i])
    case Obj(ms) => forall i :: 0 <= i < |ms| ==> IntegersOnly(ms[i].value)
    case _ => true
  }

  lemma {:induction false} IntegersPrintBack(lib: Libc, v: Json)
    requires PrintsDecimals(lib) && ReadsDecimals(lib) && IntegersOnly(v)
    ensures NumbersPrintBack(lib, v)
  {
    hide PrintsBack, PrintsDecimals, ReadsDecimals;
    match v
    case Num(n) =>
      var k: nat :| k <= EXACT && HasMagnitude(n, k);
      IntegerPrintsBack(lib, n.negative, k);
    case Arr(items) =>
      forall i | 0 <= i < |items| ensures NumbersPrintBack(lib, items[i]) {
        IntegersPrintBack(lib, items[i]);
      }
    case Obj(ms) =>
      forall i | 0 <= i < |ms| ensures NumbersPrintBack(lib, ms[i].value) {
        IntegersPrintBack(lib, ms[i].value);
      }
    case _ =>
  }

  /** The round trip with nothing left to assume about single numbers. */
  lemma ParseSerializedIntegers(lib: Libc, v: Json, pretty: bool)
    requires PrintsDecimals(lib) && ReadsDecimals(lib)
    requires WellFormed(v) && Fits(v, 0) && IntegersOnly(v)
    ensures ParseText(lib, Serialize(lib, v, 0, pretty)) == Success(v, [])
  {
    hide PrintsDecimals, ReadsDecimals, ParseText, Serialize;
    IntegersPrintBack(lib, v);
    ParseSerialized(lib, v, pretty);
  }

  /** A text whose numbers are all integers up to 2^53 is parsed, serialised and parsed back without change. */
  lemma ReparseIntegers(lib: Libc, t: Text, pretty: bool)
    requires PrintsDecimals(lib) && ReadsDecimals(lib)
    requires ParseText(lib, t).Success? && IntegersOnly(ParseText(lib, t).value)
    ensures var v := ParseText(lib, t).value; ParseText(lib, Serialize(lib, v, 0, pretty)) == Success(v, [])
  {
    hide PrintsDecimals, ReadsDecimals, ParseText, Serialize;
    IntegersPrintBack(lib, ParseText(lib, t).value);
    ReparseParsed(lib, t, pretty);
  }

  // ----- Such a libc exists

  /** The digits at the start of the text. */
  function DigitRun(t: Text): (d: Text)
    ensures |d| <= |t| && d == t[..|d|] && forall i :: 0 <= i < |d| ==> IsDigit(d[i])
  {
    if t == [] || !IsDigit(t[0]) then [] else [t[0]] + DigitRun(t[1..])
  }

  lemma {:induction false} DigitRunWhole(d: Text, rest: Text)
    requires forall i :: 0 <= i < |d| ==> IsDigit(d[i])
    requires !IsDigit(Head(rest))
    ensures DigitRun(d + rest) == d
  {
    if d == [] {
      assert d + rest == rest;
    } else {
      assert (d + rest)[1..] == d[1..] + rest;
      DigitRunWhole(d[1..], rest);
    }
  }

  /** The bytes of a number at the start of the text. */
  function NumberRun(t: Text): (r: Text)
    ensures |r| <= |t| && r == t[..|r|] && NumberBytes(r)
    ensures NumberByte(Head(t)) ==> r != []
  {
    if t == [] || !NumberByte(t[0]) then [] else [t[0]] + NumberRun(t[1..])
  }

  lemma EndIsNoByte(c: byte)
    requires EndsNumber(c)
    ensures !NumberByte(c)
  {
  }

  lemma {:induction false} NumberRunWhole(r: Text, rest: Text)
    requires NumberBytes(r) && EndsNumber(Head(rest))
    ensures NumberRun(r + rest) == r
  {
    if r == [] {
      assert r + rest == rest;
      EndIsNoByte(Head(rest));
    } else {
      assert (r + rest)[1..] == r[1..] + rest;
      NumberRunWhole(r[1..], rest);
    }
  }

  /** Integers are read as their value; of other numbers only the extent is right. */
  function ReadRun(run: Text): (r: Reading)
    ensures r.consumed == |run|
  {
    var sign := if Head(run) == '-' then 1 else 0;
    var d := DigitRun(run[sign..]);
    if sign + |d| == |run| then Reading(|run|, true, Some(Number(sign == 1, DigitsValue(d) as real)))
    else Reading(|run|, false, None)
  }

  function ReadInteger(t: Text): (r: Reading)
    ensures r.consumed <= |t|
  {
    ReadRun(NumberRun(t))
  }

  lemma {:induction false} DigitTextShort(k: nat, size: nat)
    requires k < Power10(size)
    ensures |DigitText(k)| <= Max(size, 1)
  {
    if k >= 10 {
      DigitTextShort(k / 10, size - 1);
    }
  }

  function Power10(n: nat): nat {
    if n == 0 then 1 else 10 * Power10(n - 1)
  }

  lemma ExactIsShort()
    ensures EXACT < Power10(16)
  {
    assert Power10(4) == 10 * (10 * (10 * (10 * Power10(0)))) == 10_000;
    assert Power10(8) == 10 * (10 * (10 * (10 * Power10(4))));
    assert Power10(12) == 10 * (10 * (10 * (10 * Power10(8))));
    assert Power10(16) == 10 * (10 * (10 * (10 * Power10(12))));
  }

  function PrintInteger(n: Number): (t: CStr)
    ensures |t| < NUM_BUF_SIZE
  {
    if 0.0 <= n.magnitude <= EXACT as real then
      var k: nat := n.magnitude.Floor;
      assert '\0' !in DigitText(k) && |DigitText(k)| <= 16 by {
        ExactIsShort();
        DigitTextShort(k, 16);
        hide DigitText;
        assert !IsDigit('\0');
      }
      Sign(n.negative) + DigitText(k)
    else []
  }

  lemma ReadIntegerExact(negative: bool, t: Text, rest: Text)
    requires Digits(t) && EndsNumber(Head(rest))
    ensures ReadInteger((Sign(negative) + t) + rest)
         == Reading(|Sign(negative) + t|, true, Some(Number(negative, DigitsValue(t) as real)))
  {
    var run := Sign(negative) + t;
    assert NumberBytes(run);
    NumberRunWhole(run, rest);
    hide DigitRun, DigitsValue, NumberRun;
    assert IsDigit(t[0]);
    assert run[|Sign(negative)|..] == t + [];
    DigitRunWhole(t, []);
    assert Head(run) == if negative then '-' else t[0];
  }

  /** Every number of RFC 8259 is read whole. */
  lemma ReadIntegerWhole(t: Text, rest: Text)
    requires IsNumeral(t) && EndsNumber(Head(rest))
    ensures ReadInteger(t + rest) == ReadInteger(t) && ReadInteger(t).consumed == |t|
  {
    hide IsNumeral, ReadRun, NumberRun, PlainNumeral, IsZeroWithExponent;
    NumeralIsPlain(t);
    NumberRunWhole(t, rest);
    NumberRunWhole(t, []);
    assert t + [] == t;
  }

  lemma ReadIntegerStable(lib: Libc, t: Text)
    requires lib == LibcFns.Libc(ReadInteger, PrintInteger) && ReadInteger(t).consumed > 0
    ensures var p := t[..ReadInteger(t).consumed]; ReadWhole(lib, p) && lib.strtod(p) == lib.strtod(t)
  {
    hide ReadRun, NumberRun, PrintInteger, NumberBytes;
    var p := NumberRun(t);
    assert p == t[..ReadInteger(t).consumed];
    NumberRunWhole(p, []);
    assert p + [] == p && Head(p) == Head(t);
    forall rest: Text | EndsNumber(Head(rest)) ensures lib.strtod(p + rest) == lib.strtod(p) {
      NumberRunWhole(p, rest);
    }
  }

  lemma PrintIntegerExact(negative: bool, k: nat)
    requires k <= EXACT
    ensures PrintInteger(Number(negative, k as real)) == Sign(negative) + DigitText(k)
  {
    hide DigitText;
  }

  /** What is assumed of libc for integers, and for the extent of other numbers, can be met. */
  lemma IntegerLibc() returns (lib: Libc)
    ensures PrintsDecimals(lib) && ReadsDecimals(lib) && ReadsNumerals(lib) && Stable(lib)
  {
    hide ReadInteger, PrintInteger, DigitText, DigitsValue;
    lib := LibcFns.Libc(ReadInteger, PrintInteger);
    forall negative: bool, t: Text, rest: Text
      | Digits(t) && DigitsValue(t) <= EXACT && EndsNumber(Head(rest))
      ensures lib.strtod((Sign(negative) + t) + rest)
           == Reading(|Sign(negative) + t|, true, Some(Number(negative, DigitsValue(t) as real)))
    {
      ReadIntegerExact(negative, t, rest);
    }
    forall t: Text | IsNumeral(t) ensures ReadWhole(lib, t) {
      forall rest: Text | EndsNumber(Head(rest)) ensures lib.strtod(t + rest) == lib.strtod(t) {
        ReadIntegerWhole(t, rest);
      }
      ReadIntegerWhole(t, []);
    }
    forall t: Text | lib.strtod(t).consumed > 0
      ensures var p := t[..lib.strtod(t).consumed]; ReadWhole(lib, p) && lib.strtod(p) == lib.strtod(t)
    {
      ReadIntegerStable(lib, t);
    }
    forall negative: bool, k: nat | k <= EXACT
      ensures lib.sprintf(Number(negative, k as real)) == Sign(negative) + DigitText(k)
    {
      PrintIntegerExact(negative, k);
    }
  }
}
