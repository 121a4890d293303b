/** Numbers as section 6 of RFC 8259 writes them, and which of them is_decimal (parson.c:253-266) lets through. */
module Decimals {
  import opened Bytes
  import opened Json

  predicate IsDigit(c: byte) {
    '0' <= c <= '9'
  }

  predicate Digits(t: Text) {
    t != [] && forall i :: 0 <= i < |t| ==> IsDigit(t[i])
  }

  /** `exp`: a mark, a sign that may be missing, and digits. */
  datatype Exponent = Exponent(mark: byte, sign: Text, digits: Text) {
    predicate Legal() {
      mark in {'e', 'E'} && sign in {"", "+", "-"} && Digits(digits)
    }

    function Written(): (t: Text)
      ensures |t| > 0 && t[0] == mark
    {
      [mark] + (sign + digits)
    }
  }

  /** `[ minus ] int [ frac ] [ exp ]`; `fraction` is what follows its point. */
  datatype Decimal = Decimal(minus: bool, whole: Text, fraction: Option<Text>, exponent: Option<Exponent>) {
    predicate Legal() {
      && Digits(whole) && (whole[0] == '0' ==> |whole| == 1)
      && (fraction.Some? ==> Digits(fraction.value))
      && (exponent.Some? ==> exponent.value.Legal())
    }

    /** What follows `int`. */
    function Behind(): Text {
      (if fraction.Some? then "." + fraction.value else []) + (if exponent.Some? then exponent.value.Written() else [])
    }

    function Written(): Text {
      (if minus then "-" else []) + (whole + Behind())
    }

    /** `int` is a lone zero, directly followed by `exp`. */
    predicate ZeroThenExponent() {
      whole == "0" && fraction.None? && exponent.Some?
    }
  }

  ghost predicate IsNumeral(t: Text) {
    exists d: Decimal :: d.Legal() && d.Written() == t
  }

  ghost predicate IsZeroWithExponent(t: Text) {
    exists d: Decimal :: d.Legal() && d.Written() == t && d.ZeroThenExponent()
  }

  /** The bytes of a number. */
  predicate NumberByte(c: byte) {
    IsDigit(c) || c in {'-', '+', '.', 'e', 'E'}
  }

  ghost predicate NumberBytes(t: Text) {
    forall i :: 0 <= i < |t| ==> NumberByte(t[i])
  }

  lemma BytesConcat(a: Text, b: Text)
    requires NumberBytes(a) && NumberBytes(b)
    ensures NumberBytes(a + b)
  {
  }

  lemma DigitsAreBytes(t: Text)
    requires Digits(t)
    ensures NumberBytes(t)
  {
  }

  lemma ExponentBytes(e: Exponent)
    requires e.Legal()
    ensures NumberBytes(e.Written())
  {
    DigitsAreBytes(e.digits);
    BytesConcat(e.sign, e.digits);
    BytesConcat([e.mark], e.sign + e.digits);
  }

  lemma BehindBytes(d: Decimal)
    requires d.Legal()
    ensures NumberBytes(d.Behind())
    ensures d.Behind() != [] ==> d.Behind()[0] == if d.fraction.Some? then '.' else d.exponent.value.mark
    ensures d.Behind() == [] <==> d.fraction.None? && d.exponent.None?
  {
    var f := if d.fraction.Some? then "." + d.fraction.value else [];
    var e := if d.exponent.Some? then d.exponent.value.Written() else [];
    if d.fraction.Some? {
      DigitsAreBytes(d.fraction.value);
      BytesConcat(".", d.fraction.value);
    }
    if d.exponent.Some? {
      ExponentBytes(d.exponent.value);
    }
    BytesConcat(f, e);
    assert f + e == d.Behind();
  }

  lemma WrittenBytes(d: Decimal)
    requires d.Legal()
    ensures NumberBytes(d.Written()) && StartsNumber(Head(d.Written()))
  {
    hide Decimal.Behind, NumberBytes;
    BehindBytes(d);
    DigitsAreBytes(d.whole);
    BytesConcat(d.whole, d.Behind());
    if d.minus {
      assert NumberBytes("-") by { MinusByte(); }
      BytesConcat("-", d.whole + d.Behind());
    } else {
      assert [] + (d.whole + d.Behind()) == d.whole + d.Behind();
    }
  }

  lemma MinusByte()
    ensures NumberBytes("-")
  {
  }

  /** is_decimal lets a number through exactly when it is not a lone zero directly followed by an exponent. */
  lemma IsDecimalIff(d: Decimal)
    requires d.Legal()
    ensures IsDecimal(d.Written(), |d.Written()|) <==> !d.ZeroThenExponent()
  {
    WrittenBytes(d);
    BehindBytes(d);
    hide Decimal.Behind;
    var t, b, m := d.Written(), d.Behind(), if d.minus then 1 else 0;
    assert forall i :: 0 <= i < |t| ==> NumberByte(t[i]);
    assert t[m] == d.whole[0] && |t| == m + |d.whole| + |b|;
    assert |d.whole| > 1 ==> t[m + 1] == d.whole[1];
    assert |d.whole| == 1 && b != [] ==> t[m + 1] == b[0];
    assert d.minus ==> t[0] == '-';
  }

  /** The same for texts. */
  lemma NumeralIsPlain(t: Text)
    requires IsNumeral(t)
    ensures PlainNumeral(t) <==> !IsZeroWithExponent(t)
    ensures NumberBytes(t) && MinusOrDigit(Head(t))
  {
    PlainIff(t, |t|);
    var d: Decimal :| d.Legal() && d.Written() == t;
    WrittenBytes(d);
    IsDecimalIff(d);
    if IsZeroWithExponent(t) {
      var z: Decimal :| z.Legal() && z.Written() == t && z.ZeroThenExponent();
      IsDecimalIff(z);
    }
  }

  lemma LoneZero()
    ensures IsNumeral("0e1") && IsZeroWithExponent("0e1")
  {
    var d := Decimal(false, "0", None, Some(Exponent('e', "", "1")));
    assert d.Legal() && d.Written() == "0e1" && d.ZeroThenExponent();
  }
}
