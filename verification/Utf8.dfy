/** UTF-8 validation (parson.c:184-251) against the encoding of RFC 3629 section 3. */
module Utf8 {
  import opened Bytes

  /** IS_CONT: the top two bits are 10. */
  predicate IsCont(c: byte) {
    0x80 <= c as int < 0xC0
  }

  /** The sequence length announced by a leading byte; 0 for a byte that cannot lead. */
  function NumBytes(c: byte): nat {
    var b := c as int;
    if b == 0xC0 || b == 0xC1 || b > 0xF4 || IsCont(c) then 0
    else if b < 0x80 then 1
    else if 0xC0 <= b < 0xE0 then 2
    else if 0xE0 <= b < 0xF0 then 3
    else if 0xF0 <= b < 0xF8 then 4
    else 0
  }

  /** The six payload bits of a continuation byte. */
  function Low6(c: byte): nat { c as int % 64 }

  /** The code point the bytes at `t` carry, before the range checks. */
  function RawCodePoint(t: Text, len: nat): Option<nat> {
    if len == 1 then
      Some(At(t, 0) as int)
    else if len == 2 && IsCont(At(t, 1)) then
      Some(At(t, 0) as int % 32 * 64 + Low6(At(t, 1)))
    else if len == 3 && IsCont(At(t, 1)) && IsCont(At(t, 2)) then
      Some((At(t, 0) as int % 16 * 64 + Low6(At(t, 1))) * 64 + Low6(At(t, 2)))
    else if len == 4 && IsCont(At(t, 1)) && IsCont(At(t, 2)) && IsCont(At(t, 3)) then
      Some(((At(t, 0) as int % 8 * 64 + Low6(At(t, 1))) * 64 + Low6(At(t, 2))) * 64 + Low6(At(t, 3)))
    else
      None
  }

  /** verify_utf8_sequence: the code point and length of the sequence at `t`, if it is acceptable. */
  function VerifySequence(t: Text): (r: Option<(nat, nat)>)
    requires t != []
    ensures r.Some? ==> 1 <= r.value.1 <= |t|
  {
    var len := NumBytes(t[0]);
    match RawCodePoint(t, len)
    case None => None
    case Some(cp) =>
      if (cp < 0x80 && len > 1) || (cp < 0x800 && len > 2) || (cp < 0x10000 && len > 3) then None
      else if cp > 0x10FFFF then None
      else if 0xD800 <= cp <= 0xDFFF then None
      else Some((cp, len))
  }

  predicate ValidUtf8(t: Text) {
    t == [] || (VerifySequence(t).Some? && ValidUtf8(t[VerifySequence(t).value.1..]))
  }

  /** is_valid_utf8, as the pointer walk it is. */
  method IsValidUtf8(t: Text) returns (valid: bool)
    ensures valid == ValidUtf8(t)
  {
    var i := 0;
    while i < |t|
      invariant 0 <= i <= |t|
      invariant ValidUtf8(t) == ValidUtf8(t[i..])
    {
      var step := VerifySequence(t[i..]);
      if step.None? {
        return false;
      }
      assert t[i..][step.value.1..] == t[i + step.value.1..];
      i := i + step.value.1;
    }
    return true;
  }

  // ----- The reference: RFC 3629 section 3

  predicate IsScalar(cp: nat) {
    cp <= 0x10FFFF && !(0xD800 <= cp <= 0xDFFF)
  }

  function Encode(cp: nat): (t: Text)
    requires IsScalar(cp)
    ensures 1 <= |t| <= 4
  {
    if cp < 0x80 then
      [cp as char]
    else if cp < 0x800 then
      [(0xC0 + cp / 0x40) as char, (0x80 + cp % 0x40) as char]
    else if cp < 0x10000 then
      [(0xE0 + cp / 0x1000) as char, (0x80 + cp / 0x40 % 0x40) as char, (0x80 + cp % 0x40) as char]
    else
      [(0xF0 + cp / 0x40000) as char, (0x80 + cp / 0x1000 % 0x40) as char,
       (0x80 + cp / 0x40 % 0x40) as char, (0x80 + cp % 0x40) as char]
  }

  ghost predicate AllScalar(cps: seq<nat>) {
    forall i :: 0 <= i < |cps| ==> IsScalar(cps[i])
  }

  function EncodeAll(cps: seq<nat>): Text
    requires AllScalar(cps)
  {
    if cps == [] then [] else Encode(cps[0]) + EncodeAll(cps[1..])
  }

  /** Shifting by 12 or 18 bits is shifting twice or three times by six. */
  lemma SixBitDigits(cp: nat)
    ensures cp / 0x1000 == cp / 64 / 64
    ensures cp / 0x40000 == cp / 64 / 64 / 64
  {
    assert 0x1000 * (cp / 64 / 64) <= cp < 0x1000 * (cp / 64 / 64) + 0x1000;
    assert 0x40000 * (cp / 64 / 64 / 64) <= cp < 0x40000 * (cp / 64 / 64 / 64) + 0x40000;
  }

  lemma VerifyEncode2(cp: nat, t: Text)
    requires 0x80 <= cp < 0x800 && |t| >= 2
    requires t[0] == (0xC0 + cp / 0x40) as char && t[1] == (0x80 + cp % 0x40) as char
    ensures VerifySequence(t) == Some((cp, 2))
  {
    SixBitDigits(cp);
  }

  lemma VerifyEncode3(cp: nat, t: Text)
    requires 0x800 <= cp < 0x10000 && IsScalar(cp) && |t| >= 3
    requires t[0] == (0xE0 + cp / 0x1000) as char && t[1] == (0x80 + cp / 0x40 % 0x40) as char
    requires t[2] == (0x80 + cp % 0x40) as char
    ensures VerifySequence(t) == Some((cp, 3))
  {
    SixBitDigits(cp);
    assert RawCodePoint(t, 3) == Some(cp);
  }

  lemma VerifyEncode4(cp: nat, t: Text)
    requires 0x10000 <= cp <= 0x10FFFF && |t| >= 4
    requires t[0] == (0xF0 + cp / 0x40000) as char && t[1] == (0x80 + cp / 0x1000 % 0x40) as char
    requires t[2] == (0x80 + cp / 0x40 % 0x40) as char && t[3] == (0x80 + cp % 0x40) as char
    ensures VerifySequence(t) == Some((cp, 4))
  {
    var c1, c2, c3 := cp / 64, cp / 64 / 64, cp / 64 / 64 / 64;
    SixBitDigits(cp);
    assert t[0] as int == 0xF0 + c3 && c3 < 5;
    assert Low6(t[1]) == c2 % 64 && Low6(t[2]) == c1 % 64 && Low6(t[3]) == cp % 64;
    assert ((c3 * 64 + c2 % 64) * 64 + c1 % 64) * 64 + cp % 64 == cp;
    assert RawCodePoint(t, 4) == Some(cp);
  }

  /** The encoding of a scalar value is decoded to that value, whatever follows it. */
  lemma VerifyEncode(cp: nat, rest: Text)
    requires IsScalar(cp)
    ensures VerifySequence(Encode(cp) + rest) == Some((cp, |Encode(cp)|))
  {
    var t := Encode(cp) + rest;
    assert forall i :: 0 <= i < |Encode(cp)| ==> t[i] == Encode(cp)[i];
    if cp >= 0x10000 {
      VerifyEncode4(cp, t);
    } else if cp >= 0x800 {
      VerifyEncode3(cp, t);
    } else if cp >= 0x80 {
      VerifyEncode2(cp, t);
    }
  }

  /** A code point built from a leading byte and continuation bytes has those bytes as its encoding. */
  lemma EncodeOfDigits(b0: nat, b1: nat, b2: nat, b3: nat)
    requires b1 < 64 && b2 < 64 && b3 < 64
    ensures (b0 * 64 + b1) / 64 == b0 && (b0 * 64 + b1) % 64 == b1
    ensures var cp := (b0 * 64 + b1) * 64 + b2;
            cp / 0x1000 == b0 && cp / 64 % 64 == b1 && cp % 64 == b2
    ensures var cp := ((b0 * 64 + b1) * 64 + b2) * 64 + b3;
            cp / 0x40000 == b0 && cp / 0x1000 % 64 == b1 && cp / 64 % 64 == b2 && cp % 64 == b3
  {
    var c1 := b0 * 64 + b1;
    var c2 := c1 * 64 + b2;
    var c3 := c2 * 64 + b3;
    SixBitDigits(c2);
    SixBitDigits(c3);
    assert c1 / 64 == b0 && c2 / 64 == c1 && c3 / 64 == c2;
  }

  lemma VerifySound3(t: Text)
    requires t != [] && VerifySequence(t).Some? && NumBytes(t[0]) == 3
    ensures t[..3] == Encode(VerifySequence(t).value.0)
  {
    var cp := VerifySequence(t).value.0;
    var b0, b1, b2 := t[0] as int % 16, Low6(t[1]), Low6(t[2]);
    assert cp == (b0 * 64 + b1) * 64 + b2;
    EncodeOfDigits(b0, b1, b2, 0);
    assert Encode(cp) == [(0xE0 + b0) as char, (0x80 + b1) as char, (0x80 + b2) as char];
    assert t[..3] == [t[0], t[1], t[2]];
  }

  lemma VerifySound4(t: Text)
    requires t != [] && VerifySequence(t).Some? && NumBytes(t[0]) == 4
    ensures t[..4] == Encode(VerifySequence(t).value.0)
  {
    var b0, b1, b2, b3 := AcceptedDigits4(t);
    hide VerifySequence;
    EncodeDigits4(b0, b1, b2, b3);
    assert t[..4] == [t[0], t[1], t[2], t[3]];
  }

  /** The payload bits of an accepted sequence of four bytes. */
  lemma AcceptedDigits4(t: Text) returns (b0: nat, b1: nat, b2: nat, b3: nat)
    requires t != [] && VerifySequence(t).Some? && NumBytes(t[0]) == 4
    ensures |t| >= 4 && b0 < 8 && b1 < 64 && b2 < 64 && b3 < 64
    ensures t[0] as int == 0xF0 + b0 && t[1] as int == 0x80 + b1 && t[2] as int == 0x80 + b2 && t[3] as int == 0x80 + b3
    ensures VerifySequence(t).value.0 == ((b0 * 64 + b1) * 64 + b2) * 64 + b3
    ensures 0x10000 <= VerifySequence(t).value.0 && IsScalar(VerifySequence(t).value.0)
  {
    b0, b1, b2, b3 := t[0] as int % 8, Low6(t[1]), Low6(t[2]), Low6(t[3]);
  }

  lemma EncodeDigits4(b0: nat, b1: nat, b2: nat, b3: nat)
    requires b0 < 8 && b1 < 64 && b2 < 64 && b3 < 64
    requires var cp := ((b0 * 64 + b1) * 64 + b2) * 64 + b3; 0x10000 <= cp && IsScalar(cp)
    ensures Encode(((b0 * 64 + b1) * 64 + b2) * 64 + b3)
         == [(0xF0 + b0) as char, (0x80 + b1) as char, (0x80 + b2) as char, (0x80 + b3) as char]
  {
    EncodeOfDigits(b0, b1, b2, b3);
  }

  /** Whatever the code accepts is the encoding of a scalar value. */
  lemma VerifySound(t: Text)
    requires t != [] && VerifySequence(t).Some?
    ensures var (cp, len) := VerifySequence(t).value; IsScalar(cp) && t[..len] == Encode(cp)
  {
    var (cp, len) := VerifySequence(t).value;
    if len == 4 {
      VerifySound4(t);
    } else if len == 3 {
      VerifySound3(t);
    } else if len == 2 {
      assert t[..2] == [t[0], t[1]];
      EncodeOfDigits(t[0] as int % 32, Low6(t[1]), 0, 0);
    }
  }

  lemma {:induction false} ValidConcat(a: Text, b: Text)
    requires ValidUtf8(a)
    ensures ValidUtf8(a + b) == ValidUtf8(b)
  {
    hide VerifySequence, Encode;
    if a == [] {
      assert a + b == b;
    } else {
      VerifySound(a);
      var (cp, len) := VerifySequence(a).value;
      assert a == Encode(cp) + a[len..];
      assert a + b == Encode(cp) + (a[len..] + b);
      VerifyEncode(cp, a[len..] + b);
      assert (a + b)[len..] == a[len..] + b;
      ValidConcat(a[len..], b);
    }
  }

  lemma ValidEncode(cp: nat)
    requires IsScalar(cp)
    ensures ValidUtf8(Encode(cp))
  {
    VerifyEncode(cp, []);
    assert Encode(cp) + [] == Encode(cp);
  }

  lemma {:induction false} ValidEncodeAll(cps: seq<nat>)
    requires AllScalar(cps)
    ensures ValidUtf8(EncodeAll(cps))
  {
    if cps != [] {
      ValidEncodeAll(cps[1..]);
      ValidEncode(cps[0]);
      ValidConcat(Encode(cps[0]), EncodeAll(cps[1..]));
    }
  }

  lemma {:induction false} ValidDecodes(t: Text) returns (cps: seq<nat>)
    requires ValidUtf8(t)
    ensures AllScalar(cps) && EncodeAll(cps) == t
  {
    hide VerifySequence, Encode;
    if t == [] {
      cps := [];
    } else {
      VerifySound(t);
      var (cp, len) := VerifySequence(t).value;
      var tail := ValidDecodes(t[len..]);
      cps := [cp] + tail;
      assert cps[0] == cp && cps[1..] == tail;
      assert EncodeAll(cps) == t[..len] + t[len..] == t;
    }
  }

  /** is_valid_utf8 accepts exactly the encodings of sequences of scalar values. */
  lemma ValidIffEncoding(t: Text)
    ensures ValidUtf8(t) <==> exists cps :: AllScalar(cps) && EncodeAll(cps) == t
  {
    if ValidUtf8(t) {
      var cps := ValidDecodes(t);
    }
    forall cps | AllScalar(cps) && EncodeAll(cps) == t
      ensures ValidUtf8(t)
    {
      ValidEncodeAll(cps);
    }
  }

  /** No byte string encodes two different sequences. */
  lemma {:induction false} EncodingUnique(xs: seq<nat>, ys: seq<nat>)
    requires AllScalar(xs) && AllScalar(ys) && EncodeAll(xs) == EncodeAll(ys)
    ensures xs == ys
  {
    if xs == [] {
      assert EncodeAll(ys) == [];
    } else {
      assert ys != [];
      VerifyEncode(xs[0], EncodeAll(xs[1..]));
      VerifyEncode(ys[0], EncodeAll(ys[1..]));
      assert EncodeAll(xs)[|Encode(xs[0])|..] == EncodeAll(xs[1..]);
      assert EncodeAll(ys)[|Encode(ys[0])|..] == EncodeAll(ys[1..]);
      EncodingUnique(xs[1..], ys[1..]);
      assert xs == [xs[0]] + xs[1..] && ys == [ys[0]] + ys[1..];
    }
  }

  // ----- Cutting valid text at ASCII bytes

  /** Only the first byte of an encoding can be ASCII, and then it is the only one. */
  lemma EncodeHigh(cp: nat)
    requires IsScalar(cp)
    ensures forall i :: 0 < i < |Encode(cp)| ==> Encode(cp)[i] as int >= 0x80
    ensures cp >= 0x80 ==> Encode(cp)[0] as int >= 0x80
  {
  }

  /** Cutting valid text just before an ASCII byte leaves two valid texts. */
  lemma {:induction false} ValidSplit(a: Text, b: Text)
    requires ValidUtf8(a + b) && (b == [] || b[0] as int < 0x80)
    ensures ValidUtf8(a) && ValidUtf8(b)
  {
    hide VerifySequence, IsScalar, Encode;
    var t := a + b;
    if a == [] {
      assert t == b;
    } else {
      VerifySound(t);
      var (cp, len) := VerifySequence(t).value;
      EncodeHigh(cp);
      assert forall i :: 0 < i < len ==> t[i] == Encode(cp)[i];
      assert b != [] ==> t[|a|] == b[0];
      assert len <= |a|;
      assert a == Encode(cp) + a[len..] && t[len..] == a[len..] + b;
      ValidSplit(a[len..], b);
      ValidEncode(cp);
      ValidConcat(Encode(cp), a[len..]);
    }
  }

  /** Cutting valid text just before a NUL leaves valid text. */
  lemma ValidCString(t: Text)
    requires ValidUtf8(t)
    ensures ValidUtf8(CString(t))
  {
    hide ValidUtf8;
    var n := |CString(t)|;
    assert t == t[..n] + t[n..];
    ValidSplit(t[..n], t[n..]);
  }
}
