/** What the string codec is for: UTF-16 escapes mean what RFC 2781 says, decoding keeps UTF-8 valid,
    and json_serialize_string is undone by get_quoted_string. */
module StringLaws {
  import opened Bytes
  import opened Utf8
  import opened StringCodec

  // ----- UTF-16 escapes

  /** The UTF-16 code units of a scalar value (RFC 2781 section 2.1). */
  function Utf16Units(cp: nat): (units: seq<nat>)
    requires IsScalar(cp)
    ensures 1 <= |units| <= 2
  {
    if cp < 0x10000 then [cp] else [0xD800 + (cp - 0x10000) / 0x400, 0xDC00 + (cp - 0x10000) % 0x400]
  }

  const HEX_LOWER: Text := "0123456789abcdef"
  const HEX_UPPER: Text := "0123456789ABCDEF"

  /** The hexadecimal digit of value `v`, in either case. */
  predicate IsHexDigit(c: byte, v: nat) {
    v < 16 && (c == HEX_LOWER[v] || c == HEX_UPPER[v])
  }

  /** Four hexadecimal digits from `t[i]` on. */
  predicate SpellsUnit(t: Text, i: nat, unit: nat) {
    && i + 4 <= |t| && unit < 0x10000
    && IsHexDigit(t[i], unit / 0x1000) && IsHexDigit(t[i + 1], unit / 0x100 % 16)
    && IsHexDigit(t[i + 2], unit / 0x10 % 16) && IsHexDigit(t[i + 3], unit % 16)
  }

  lemma HexDigitIs(c: byte, v: nat)
    ensures IsHexDigit(c, v) <==> HexCharToInt(c) == v
  {
  }

  lemma HexParts(x1: nat, x2: nat, x3: nat, x4: nat)
    requires x2 < 16 && x3 < 16 && x4 < 16
    ensures var u := x1 * 0x1000 + x2 * 0x100 + x3 * 0x10 + x4;
            u / 0x1000 == x1 && u / 0x100 % 16 == x2 && u / 0x10 % 16 == x3 && u % 16 == x4
  {
    var u := x1 * 0x1000 + x2 * 0x100 + x3 * 0x10 + x4;
    assert u / 0x10 == x1 * 0x100 + x2 * 0x10 + x3 && u / 0x100 == x1 * 0x10 + x2;
  }

  lemma HexSum(u: nat)
    ensures u == u / 0x1000 * 0x1000 + u / 0x100 % 16 * 0x100 + u / 0x10 % 16 * 0x10 + u % 16
  {
    assert u / 0x100 == u / 0x10 / 16 && u / 0x1000 == u / 0x100 / 16;
  }

  lemma HexRead(t: Text, i: nat)
    ensures ParseUtf16Hex(t, i)
         == if i + 4 <= |t| && HexCharToInt(t[i]) != -1 && HexCharToInt(t[i + 1]) != -1
               && HexCharToInt(t[i + 2]) != -1 && HexCharToInt(t[i + 3]) != -1
            then Some(HexCharToInt(t[i]) * 0x1000 + HexCharToInt(t[i + 1]) * 0x100
                      + HexCharToInt(t[i + 2]) * 0x10 + HexCharToInt(t[i + 3]))
            else None
  {
    hide HexCharToInt;
    if i + 4 <= |t| {
      HexNotNul(t[i]);
      HexNotNul(t[i + 1]);
      HexNotNul(t[i + 2]);
      HexNotNul(t[i + 3]);
    }
  }

  /** parse_utf16_hex reads exactly four hexadecimal digits, as their value. */
  lemma UnitIs(t: Text, i: nat, unit: nat)
    ensures SpellsUnit(t, i, unit) <==> ParseUtf16Hex(t, i) == Some(unit)
  {
    HexRead(t, i);
    hide ParseUtf16Hex, IsHexDigit, HexCharToInt;
    if i + 4 <= |t| {
      DigitsIs(t[i], t[i + 1], t[i + 2], t[i + 3], unit);
    }
  }

  lemma DigitsIs(c1: byte, c2: byte, c3: byte, c4: byte, unit: nat)
    ensures (unit < 0x10000 && IsHexDigit(c1, unit / 0x1000) && IsHexDigit(c2, unit / 0x100 % 16)
             && IsHexDigit(c3, unit / 0x10 % 16) && IsHexDigit(c4, unit % 16))
       <==> (HexCharToInt(c1) != -1 && HexCharToInt(c2) != -1 && HexCharToInt(c3) != -1 && HexCharToInt(c4) != -1
             && unit == HexCharToInt(c1) * 0x1000 + HexCharToInt(c2) * 0x100
                        + HexCharToInt(c3) * 0x10 + HexCharToInt(c4))
  {
    hide IsHexDigit, HexCharToInt;
    var x1, x2, x3, x4 := HexCharToInt(c1), HexCharToInt(c2), HexCharToInt(c3), HexCharToInt(c4);
    HexBound(c1);
    HexBound(c2);
    HexBound(c3);
    HexBound(c4);
    if x1 != -1 && x2 != -1 && x3 != -1 && x4 != -1 && unit == x1 * 0x1000 + x2 * 0x100 + x3 * 0x10 + x4 {
      HexParts(x1, x2, x3, x4);
    }
    HexSum(unit);
    HexDigitIs(c1, unit / 0x1000);
    HexDigitIs(c2, unit / 0x100 % 16);
    HexDigitIs(c3, unit / 0x10 % 16);
    HexDigitIs(c4, unit % 16);
  }

  lemma HexNotNul(c: byte)
    ensures HexCharToInt(c) != -1 ==> c != '\0'
  {
  }

  lemma HexBound(c: byte)
    ensures -1 <= HexCharToInt(c) < 16
  {
  }

  /** `t` starts with a `u` escape for each of the units; the backslash of the first is already read. */
  predicate Spells(t: Text, units: seq<nat>)
    requires 1 <= |units| <= 2
  {
    && SpellsUnit(t, 1, units[0])
    && (|units| == 2 ==> At(t, 5) == '\\' && At(t, 6) == 'u' && SpellsUnit(t, 7, units[1]))
  }

  /** The same in terms of parse_utf16_hex. */
  lemma SpellsIs(t: Text, units: seq<nat>)
    requires 1 <= |units| <= 2
    ensures Spells(t, units) <==>
            && ParseUtf16Hex(t, 1) == Some(units[0])
            && (|units| == 2 ==> At(t, 5) == '\\' && At(t, 6) == 'u' && ParseUtf16Hex(t, 7) == Some(units[1]))
  {
    hide SpellsUnit, ParseUtf16Hex;
    UnitIs(t, 1, units[0]);
    if |units| == 2 {
      UnitIs(t, 7, units[1]);
    }
  }

  lemma StoredIsEncoded(cp: nat)
    requires IsScalar(cp)
    ensures StoredBytes(cp) == Encode(cp)
  {
    if cp >= 0x10000 {
      assert cp / 0x40000 < 5;
    } else if cp >= 0x800 {
      assert cp / 0x1000 < 16;
    } else if cp >= 0x80 {
      assert cp / 0x40 < 32;
    }
  }

  lemma ParseUtf16Sound(t: Text) returns (cp: nat)
    requires ParseUtf16(t).Some?
    ensures IsScalar(cp) && Spells(t, Utf16Units(cp))
    ensures ParseUtf16(t).value == (Encode(cp), 6 * |Utf16Units(cp)| - 1)
  {
    hide ParseUtf16Hex, StoredBytes, Encode, Spells;
    cp := EscapedCodePoint(t).value.0;
    if cp >= 0x10000 {
      var lead, trail := ParseUtf16Hex(t, 1).value - 0xD800, ParseUtf16Hex(t, 7).value - 0xDC00;
      assert cp - 0x10000 == lead * 0x400 + trail;
      assert (cp - 0x10000) / 0x400 == lead && (cp - 0x10000) % 0x400 == trail;
    }
    SpellsIs(t, Utf16Units(cp));
    StoredIsEncoded(cp);
  }

  lemma ParseUtf16Complete(t: Text, cp: nat)
    requires IsScalar(cp) && Spells(t, Utf16Units(cp))
    ensures ParseUtf16(t) == Some((Encode(cp), 6 * |Utf16Units(cp)| - 1))
  {
    hide ParseUtf16Hex, StoredBytes, Encode, Spells;
    SpellsIs(t, Utf16Units(cp));
    StoredIsEncoded(cp);
    if cp >= 0x10000 {
      var v := cp - 0x10000;
      assert v == v / 0x400 * 0x400 + v % 0x400 && v / 0x400 < 0x400;
    }
  }

  /** parse_utf16 accepts exactly the escapes of a scalar value's UTF-16 units, and stores its UTF-8 encoding. */
  lemma ParseUtf16Exact(t: Text, out: Text, span: nat)
    ensures ParseUtf16(t) == Some((out, span)) <==>
            exists cp :: IsScalar(cp) && Spells(t, Utf16Units(cp)) && out == Encode(cp)
                         && span == 6 * |Utf16Units(cp)| - 1
  {
    if ParseUtf16(t) == Some((out, span)) {
      var cp := ParseUtf16Sound(t);
    }
    forall cp | IsScalar(cp) && Spells(t, Utf16Units(cp)) && out == Encode(cp) && span == 6 * |Utf16Units(cp)| - 1
      ensures ParseUtf16(t) == Some((out, span))
    {
      ParseUtf16Complete(t, cp);
    }
  }

  /** The bytes parse_utf16 stores are read back by verify_utf8_sequence as the escaped code point. */
  lemma EscapeVerifies(t: Text, rest: Text)
    requires ParseUtf16(t).Some?
    ensures var (out, _) := ParseUtf16(t).value;
            VerifySequence(out + rest) == Some((EscapedCodePoint(t).value.0, |out|))
  {
    var cp := ParseUtf16Sound(t);
    ParseUtf16Complete(t, cp);
    VerifyEncode(cp, rest);
    var cp' := EscapedCodePoint(t).value.0;
    StoredIsEncoded(cp');
    VerifyEncode(cp', rest);
  }

  // ----- Decoding keeps UTF-8 valid

  lemma PlainByte(c: byte, t: Text)
    requires c as int >= 0x20 && c != '\\' && c != '\"'
    ensures Step([c] + t) == Some(([c], 1)) && ([c] + t)[1..] == t
    ensures SkipBody([c] + t) == SkipBody(t)
  {
    hide ParseUtf16;
    assert ([c] + t)[1..] == t;
  }

  lemma {:induction false} CopyHighBytes(b: Text, t: Text, n: nat)
    requires forall i :: 0 <= i < |b| ==> b[i] as int >= 0x80
    ensures ProcessRaw(b + t, |b| + n) == Prepend(b, ProcessRaw(t, n))
    ensures SkipBody(b + t) == SkipBody(t)
  {
    hide Step, SkipBody, ProcessRaw;
    if b == [] {
      assert b + t == t;
      PrependNothing(ProcessRaw(t, n));
    } else {
      var u := b[1..] + t;
      assert b + t == [b[0]] + u;
      PlainByte(b[0], u);
      ProcessUnfold([b[0]] + u, |b| + n);
      CopyHighBytes(b[1..], t, n);
      PrependAssoc([b[0]], b[1..], ProcessRaw(t, n));
      assert [b[0]] + b[1..] == b;
    }
  }

  lemma {:induction false} ValidDropAsciis(t: Text, k: nat)
    requires k <= |t| && forall i :: 0 <= i < k ==> t[i] as int < 0x80
    ensures ValidUtf8(t) == ValidUtf8(t[k..])
  {
    if k > 0 {
      ValidDropAsciis(t[1..], k - 1);
      assert t[1..][k - 1..] == t[k..];
    } else {
      assert t[0..] == t;
    }
  }

  lemma HexIsAscii(t: Text, i: nat)
    requires ParseUtf16Hex(t, i).Some?
    ensures forall j :: i <= j < i + 4 ==> t[j] as int < 0x80
  {
  }

  /** Everything one escape reads is ASCII. */
  lemma EscapeIsAscii(t: Text, k: nat)
    requires t != [] && t[0] == '\\' && Step(t).Some? && k == Step(t).value.1
    ensures forall i :: 0 <= i < k ==> t[i] as int < 0x80
  {
    hide ParseUtf16Hex;
    var u := t[1..];
    if At(t, 1) == 'u' {
      HexIsAscii(u, 1);
      if k == 12 {
        HexIsAscii(u, 7);
      }
      assert forall j :: 0 <= j < k - 1 ==> u[j] as int < 0x80;
      assert forall i :: 1 <= i < k ==> t[i] == u[i - 1];
    }
  }

  /** An escape stores a complete UTF-8 sequence. */
  lemma EscapeStoresValid(t: Text)
    requires t != [] && t[0] == '\\' && Step(t).Some?
    ensures ValidUtf8(Step(t).value.0)
  {
    if At(t, 1) == 'u' {
      var cp := ParseUtf16Sound(t[1..]);
      ValidEncode(cp);
    }
  }

  lemma ProcessDone(t: Text, n: nat)
    requires n == 0 || Head(t) == '\0'
    ensures ProcessRaw(t, n) == Some(([], t))
  {
  }

  lemma {:induction false} ProcessKeepsUtf8(t: Text, n: nat)
    requires Delimited(t, n) && ProcessRaw(t, n).Some? && ValidUtf8(t[..n])
    ensures ValidUtf8(ProcessRaw(t, n).value.0)
    decreases n
  {
    hide Step, ProcessRaw, SkipBody, VerifySequence, Encode;
    if n == 0 || t[0] == '\0' {
      ProcessDone(t, n);
    } else if t[0] == '\\' {
      KeepsEscape(t, n);
      var (out, k) := Step(t).value;
      ProcessKeepsUtf8(t[k..], n - k);
      ValidConcat(out, ProcessRaw(t[k..], n - k).value.0);
    } else {
      var cp, k := ProcessKeepsOne(t, n);
      ProcessKeepsUtf8(t[k..], n - k);
      ValidConcat(Encode(cp), ProcessRaw(t[k..], n - k).value.0);
    }
  }

  lemma KeepsEscape(t: Text, n: nat)
    requires Delimited(t, n) && ProcessRaw(t, n).Some? && ValidUtf8(t[..n]) && n > 0 && t[0] == '\\'
    ensures Step(t).Some?
    ensures var (out, k) := Step(t).value;
            && k <= n && Delimited(t[k..], n - k) && ValidUtf8(t[k..][..n - k]) && ValidUtf8(out)
            && ProcessRaw(t, n) == Prepend(out, ProcessRaw(t[k..], n - k))
  {
    assert Step(t).Some? by { hide Step; }
    hide Step, SkipBody, ProcessRaw, ValidUtf8;
    var (out, k) := Step(t).value;
    ProcessUnfold(t, n);
    StepInside(t, n);
    EscapeIsAscii(t, k);
    ValidDropAsciis(t[..n], k);
    assert t[..n][k..] == t[k..][..n - k];
    EscapeStoresValid(t);
  }

  /** A plain character of a literal that decodes is stored as it is. */
  lemma PlainByteOf(t: Text, n: nat)
    requires Delimited(t, n) && ProcessRaw(t, n).Some? && 0 < n && t[0] != '\0' && t[0] != '\\'
    ensures Step(t) == Some(([t[0]], 1)) && SkipBody(t[1..]) == SkipBody(t)
  {
    hide ParseUtf16;
    StepInside(t, n);
  }

  /** An unescaped character is copied whole. */
  lemma ProcessKeepsOne(t: Text, n: nat) returns (cp: nat, k: nat)
    requires Delimited(t, n) && ProcessRaw(t, n).Some? && ValidUtf8(t[..n])
    requires 0 < n && t[0] != '\0' && t[0] != '\\'
    ensures 0 < k <= n && Delimited(t[k..], n - k) && ValidUtf8(t[k..][..n - k])
    ensures IsScalar(cp) && ValidUtf8(Encode(cp))
    ensures ProcessRaw(t, n) == Prepend(Encode(cp), ProcessRaw(t[k..], n - k))
  {
    hide Step, VerifySequence, ProcessRaw, SkipBody, IsScalar;
    VerifySound(t[..n]);
    cp, k := VerifySequence(t[..n]).value.0, VerifySequence(t[..n]).value.1;
    assert t[..n][k..] == t[k..][..n - k];
    assert t == Encode(cp) + t[k..] by { assert t[..k] == t[..n][..k]; }
    ValidEncode(cp);
    if cp >= 0x80 {
      EncodeHigh(cp);
      CopyHighBytes(Encode(cp), t[k..], n - k);
    } else {
      PlainByteOf(t, n);
      ProcessUnfold(t, n);
    }
  }

  /** A literal whose bytes are valid UTF-8 decodes to a valid UTF-8 string, surrogate pairs included. */
  lemma QuotedKeepsUtf8(t: Text, n: nat)
    requires Delimited(t, n) && ValidUtf8(t[..n]) && ProcessString(t, n).Some?
    ensures ValidUtf8(ProcessString(t, n).value)
  {
    ProcessKeepsUtf8(t, n);
    ValidCString(ProcessRaw(t, n).value.0);
  }

  // ----- json_serialize_string and back

  function HexChar(d: nat): byte
    requires d < 16
  {
    if d < 10 then ('0' as int + d) as char else ('a' as int + d - 10) as char
  }

  /** What json_serialize_string appends for one character. */
  function EscapeByte(c: byte): (t: Text)
    ensures 1 <= |t| <= 6
  {
    match c
    case '\"' => "\\\""
    case '\\' => "\\\\"
    case '/' => "\\/"
    case '\n' => "\\n"
    case '\r' => "\\r"
    case '\t' => "\\t"
    case _ =>
      if c as int == 8 then "\\b"
      else if c as int == 12 then "\\f"
      else if c as int < 0x20 then ['\\', 'u', '0', '0', HexChar(c as int / 16), HexChar(c as int % 16)]
      else [c]
  }

  function EscapeAll(s: Text): Text {
    if s == [] then [] else EscapeByte(s[0]) + EscapeAll(s[1..])
  }

  /** json_serialize_string. */
  function SerializeString(s: CStr): (t: Text)
    ensures |t| >= 2 && t[0] == '\"'
  {
    "\"" + EscapeAll(s) + "\""
  }

  lemma HexCharValue(d: nat)
    requires d < 16
    ensures HexCharToInt(HexChar(d)) == d && HexChar(d) != '\0'
  {
  }

  lemma QuoteEnds(t: Text)
    requires Head(t) == '\"'
    ensures SkipBody(t) == Some(t[1..]) && ProcessRaw(t, 0) == Some(([], t))
  {
  }
}
