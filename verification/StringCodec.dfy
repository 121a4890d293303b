/** String literals: skip_quotes, process_string, parse_utf16 and json_serialize_string
    (parson.c:541-675 and 1005-1064). */
module StringCodec {
  import opened Bytes
  import opened Cursors

  // ----- Finding the closing quote

  /** The loop of skip_quotes: what follows the closing quote of a literal whose body starts at `t`. */
  function SkipBody(t: Text): (r: Option<Text>)
    ensures r.Some? ==> |r.value| < |t|
  {
    if Head(t) == '\"' then Some(t[1..])
    else if Head(t) == '\0' then None
    else if t[0] != '\\' then SkipBody(t[1..])
    else if Head(t[1..]) == '\0' then None
    else SkipBody(t[2..])
  }

  function SkipQuotes(t: Text): (r: Option<Text>)
    ensures r.Some? ==> |r.value| + 2 <= |t|
  {
    if Head(t) != '\"' then None else SkipBody(t[1..])
  }

  /** skip_quotes, moving the caller's pointer. */
  method SkipQuotesAt(c: Cursor) returns (ok: bool)
    requires c.Valid()
    modifies c
    ensures c.Valid()
    ensures ok == SkipQuotes(old(c.Rest())).Some?
    ensures ok ==> Some(c.Rest()) == SkipQuotes(old(c.Rest()))
  {
    if c.Peek() != '\"' {
      return false;
    }
    c.Advance(1);
    while c.Peek() != '\"'
      invariant c.Valid()
      invariant SkipBody(c.Rest()) == SkipQuotes(old(c.Rest()))
      decreases |c.Rest()|
    {
      ghost var t := c.Rest();
      if c.Peek() == '\0' {
        return false;
      } else if c.Peek() == '\\' {
        c.Advance(1);
        if c.Peek() == '\0' {
          return false;
        }
      }
      c.Advance(1);
      assert t[0] == '\\' ==> c.Rest() == t[2..];
    }
    c.Advance(1);
    return true;
  }

  // ----- \u escapes

  function HexCharToInt(c: byte): int {
    if '0' <= c <= '9' then c as int - '0' as int
    else if 'a' <= c <= 'f' then c as int - 'a' as int + 10
    else if 'A' <= c <= 'F' then c as int - 'A' as int + 10
    else -1
  }

  /** parse_utf16_hex on the four bytes from `t[i]` on. */
  function ParseUtf16Hex(t: Text, i: nat): (r: Option<nat>)
    ensures r.Some? ==> i + 4 <= |t| && r.value < 0x10000
  {
    if At(t, i) == '\0' || At(t, i + 1) == '\0' || At(t, i + 2) == '\0' || At(t, i + 3) == '\0' then None
    else
      var x1, x2, x3, x4 :=
        HexCharToInt(At(t, i)), HexCharToInt(At(t, i + 1)), HexCharToInt(At(t, i + 2)), HexCharToInt(At(t, i + 3));
      if x1 == -1 || x2 == -1 || x3 == -1 || x4 == -1 then None
      else Some(x1 * 0x1000 + x2 * 0x100 + x3 * 0x10 + x4)
  }

  /** The bytes parse_utf16 stores for a code point, mask by mask. */
  function StoredBytes(cp: nat): (out: Text)
    ensures 1 <= |out| <= 4
    ensures cp < 0x10000 ==> |out| <= 3
  {
    if cp < 0x80 then
      [cp as char]
    else if cp < 0x800 then
      [(cp / 0x40 % 32 + 0xC0) as char, (cp % 64 + 0x80) as char]
    else if cp < 0x10000 then
      [(cp / 0x1000 % 16 + 0xE0) as char, (cp / 0x40 % 64 + 0x80) as char, (cp % 64 + 0x80) as char]
    else
      [(cp / 0x40000 % 8 + 0xF0) as char, (cp / 0x1000 % 64 + 0x80) as char,
       (cp / 0x40 % 64 + 0x80) as char, (cp % 64 + 0x80) as char]
  }

  /** The code point of an escape whose `u` is at `t`, and how many bytes it spans from there. */
  function EscapedCodePoint(t: Text): (r: Option<(nat, nat)>)
    ensures r.Some? ==> r.value.1 <= |t|
    ensures r.Some? ==> if r.value.0 < 0x10000 then r.value.1 == 5 else r.value.1 == 11
  {
    match ParseUtf16Hex(t, 1)
    case None => None
    case Some(cp) =>
      if cp < 0xD800 || cp > 0xDFFF then
        Some((cp, 5))
      else if 0xD800 <= cp <= 0xDBFF then
        if At(t, 5) != '\\' || At(t, 6) != 'u' then None
        else
          match ParseUtf16Hex(t, 7)
          case None => None
          case Some(trail) =>
            if trail < 0xDC00 || trail > 0xDFFF then None
            else Some(((cp - 0xD800) % 0x400 * 0x400 + (trail - 0xDC00) % 0x400 + 0x10000, 11))
      else
        None
  }

  /** parse_utf16: the bytes stored, and the bytes read starting with the `u`. */
  function ParseUtf16(t: Text): (r: Option<(Text, nat)>)
    ensures r.Some? ==> 1 <= |r.value.0| <= 4 && |r.value.0| <= r.value.1 <= |t|
  {
    match EscapedCodePoint(t)
    case None => None
    case Some((cp, span)) => Some((StoredBytes(cp), span))
  }

  // ----- Decoding the body of a literal

  function SimpleEscape(c: byte): Option<byte> {
    match c
    case '\"' => Some('\"')
    case '\\' => Some('\\')
    case '/' => Some('/')
    case 'b' => Some(8 as char)
    case 'f' => Some(12 as char)
    case 'n' => Some('\n')
    case 'r' => Some('\r')
    case 't' => Some('\t')
    case _ => None
  }

  /** One turn of the loop of process_string: what is stored, and how far reading moves. */
  function Step(t: Text): (r: Option<(Text, nat)>)
    requires t != []
    ensures r.Some? ==> 1 <= |r.value.0| <= r.value.1 <= |t|
  {
    if t[0] == '\\' then
      if At(t, 1) == 'u' then
        match ParseUtf16(t[1..])
        case None => None
        case Some((out, span)) => Some((out, 1 + span))
      else
        match SimpleEscape(At(t, 1))
        case None => None
        case Some(c) => Some(([c], 2))
    else if t[0] as int < 0x20 then
      None
    else
      Some(([t[0]], 1))
  }

  function Prepend(a: Text, r: Option<(Text, Text)>): Option<(Text, Text)> {
    match r
    case None => None
    case Some((out, left)) => Some((a + out, left))
  }

  /** The loop of process_string with `n` bytes still allowed: the bytes written and where reading stops. */
  function ProcessRaw(t: Text, n: int): Option<(Text, Text)> {
    if Head(t) == '\0' || n <= 0 then
      Some(([], t))
    else
      match Step(t)
      case None => None
      case Some((out, k)) => Prepend(out, ProcessRaw(t[k..], n - k))
  }

  /** process_string: the C string left in the output buffer. */
  function ProcessString(t: Text, n: int): Option<CStr> {
    match ProcessRaw(t, n)
    case None => None
    case Some((out, _)) => Some(CString(out))
  }

  /** `t` is the body of a literal of `n` bytes, closed by the quote skip_quotes found. */
  ghost predicate Delimited(t: Text, n: nat) {
    SkipBody(t).Some? && n == |t| - |SkipBody(t).value| - 1
  }

  /** get_quoted_string. */
  function GetQuoted(t: Text): (r: Option<(CStr, Text)>)
    ensures r.Some? ==> |r.value.1| + 2 <= |t|
  {
    match SkipQuotes(t)
    case None => None
    case Some(rest) =>
      match ProcessString(t[1..], |t| - |rest| - 2)
      case None => None
      case Some(s) => Some((s, rest))
  }

  /** A hex digit run is skipped byte by byte by skip_quotes. */
  lemma SkipHex(t: Text, i: nat)
    requires i <= |t| && ParseUtf16Hex(t, i).Some?
    ensures SkipBody(t[i..]) == SkipBody(t[i + 4..])
  {
    assert forall j :: 0 <= j < 4 ==> t[i..][j] == At(t, i + j);
    assert t[i..][1..] == t[i + 1..] && t[i + 1..][1..] == t[i + 2..];
    assert t[i + 2..][1..] == t[i + 3..] && t[i + 3..][1..] == t[i + 4..];
    assert SkipBody(t[i..]) == SkipBody(t[i + 1..]);
    assert SkipBody(t[i + 1..]) == SkipBody(t[i + 2..]);
    assert SkipBody(t[i + 2..]) == SkipBody(t[i + 3..]);
  }

  lemma SkipTrail(u: Text)
    requires At(u, 5) == '\\' && At(u, 6) == 'u' && ParseUtf16Hex(u, 7).Some?
    ensures SkipBody(u[5..]) == SkipBody(u[11..])
  {
    SkipHex(u, 7);
    var v := u[5..];
    assert v[0] == '\\' && Head(v[1..]) == 'u' && v[2..] == u[7..];
  }

  /** What an escape reads stays inside the literal. */
  lemma SkipEscape(t: Text)
    requires At(t, 0) == '\\' && At(t, 1) == 'u' && ParseUtf16(t[1..]).Some?
    ensures SkipBody(t) == SkipBody(t[1 + ParseUtf16(t[1..]).value.1..])
  {
    var u, span := t[1..], ParseUtf16(t[1..]).value.1;
    assert SkipBody(t) == SkipBody(u[1..]) by { assert u[1..] == t[2..]; }
    SkipHex(u, 1);
    if span == 11 {
      SkipTrail(u);
    }
    assert t[1 + span..] == u[span..];
  }

  /** One turn stays inside the literal. */
  lemma StepInside(t: Text, n: nat)
    requires Delimited(t, n) && n > 0 && Step(t).Some?
    ensures var k := Step(t).value.1; k <= n && Delimited(t[k..], n - k) && SkipBody(t[k..]) == SkipBody(t)
  {
    if t[0] == '\\' && At(t, 1) == 'u' {
      SkipEscape(t);
    }
    var k := Step(t).value.1;
    assert SkipBody(t) == SkipBody(t[k..]);
  }

  lemma {:induction false} SkippedIsSuffix(t: Text)
    requires SkipBody(t).Some?
    ensures var rest := SkipBody(t).value; |rest| <= |t| && rest == t[|t| - |rest|..]
    decreases |t|
  {
    if Head(t) != '\"' {
      var k := if t[0] != '\\' then 1 else 2;
      SkippedIsSuffix(t[k..]);
    }
  }

  /** Decoding a delimited literal stops exactly at its closing quote, and writes no more than it reads. */
  lemma {:induction false} ProcessStopsAtQuote(t: Text, n: nat)
    requires Delimited(t, n) && ProcessRaw(t, n).Some?
    ensures ProcessRaw(t, n).value.1 == t[n..] && Head(t[n..]) == '\"'
    ensures |ProcessRaw(t, n).value.0| <= n
    decreases |t|
  {
    hide Step;
    if n > 0 {
      StepInside(t, n);
      var k := Step(t).value.1;
      ProcessStopsAtQuote(t[k..], n - k);
      assert t[k..][n - k..] == t[n..];
    }
  }

  // ----- process_string and parse_utf16 on their output buffer

  /** parse_utf16 storing at `output[o..]`; `consumed` counts from the `u`. */
  method ParseUtf16Into(t: Text, output: array<byte>, o: nat) returns (consumed: Option<nat>, written: nat)
    requires ParseUtf16(t).Some? ==> o + |ParseUtf16(t).value.0| <= output.Length
    modifies output
    ensures consumed.Some? == ParseUtf16(t).Some?
    ensures consumed.Some? ==>
              && o + written <= output.Length
              && (output[o..o + written], consumed.value) == ParseUtf16(t).value
              && output[..o] == old(output[..o])
  {
    var r := EscapedCodePoint(t);
    if r.None? {
      return None, 0;
    }
    var cp := r.value.0;
    if cp < 0x80 {
      output[o] := cp as char;
      written := 1;
    } else if cp < 0x800 {
      output[o] := (cp / 0x40 % 32 + 0xC0) as char;
      output[o + 1] := (cp % 64 + 0x80) as char;
      written := 2;
    } else if cp < 0x10000 {
      output[o] := (cp / 0x1000 % 16 + 0xE0) as char;
      output[o + 1] := (cp / 0x40 % 64 + 0x80) as char;
      output[o + 2] := (cp % 64 + 0x80) as char;
      written := 3;
    } else {
      output[o] := (cp / 0x40000 % 8 + 0xF0) as char;
      output[o + 1] := (cp / 0x1000 % 64 + 0x80) as char;
      output[o + 2] := (cp / 0x40 % 64 + 0x80) as char;
      output[o + 3] := (cp % 64 + 0x80) as char;
      written := 4;
    }
    assert output[o..o + written] == StoredBytes(cp);
    consumed := Some(r.value.1);
  }

  /** One turn of process_string's loop, storing at `output[o..]`. */
  method StepInto(t: Text, output: array<byte>, o: nat) returns (consumed: Option<nat>, written: nat)
    requires t != []
    requires Step(t).Some? ==> o + |Step(t).value.0| <= output.Length
    modifies output
    ensures consumed.Some? == Step(t).Some?
    ensures consumed.Some? ==>
              && o + written <= output.Length
              && (output[o..o + written], consumed.value) == Step(t).value
              && output[..o] == old(output[..o])
  {
    if t[0] == '\\' {
      if At(t, 1) == 'u' {
        consumed, written := ParseUtf16Into(t[1..], output, o);
        if consumed.Some? {
          consumed := Some(1 + consumed.value);
        }
        return;
      }
      var e := SimpleEscape(At(t, 1));
      if e.None? {
        return None, 0;
      }
      output[o] := e.value;
      assert output[o..o + 1] == [e.value];
      return Some(2), 1;
    } else if t[0] as int < 0x20 {
      return None, 0;
    }
    output[o] := t[0];
    assert output[o..o + 1] == [t[0]];
    return Some(1), 1;
  }

  lemma ProcessUnfold(t: Text, n: int)
    requires Head(t) != '\0' && n > 0 && Step(t).Some?
    ensures var (out, k) := Step(t).value; ProcessRaw(t, n) == Prepend(out, ProcessRaw(t[k..], n - k))
  {
    hide Step;
  }

  lemma PrependNothing(r: Option<(Text, Text)>)
    ensures Prepend([], r) == r
  {
    if r.Some? {
      assert [] + r.value.0 == r.value.0;
    }
  }

  lemma PrependAssoc(a: Text, b: Text, r: Option<(Text, Text)>)
    ensures Prepend(a, Prepend(b, r)) == Prepend(a + b, r)
  {
    if r.Some? {
      assert a + (b + r.value.0) == a + b + r.value.0;
    }
  }

  /** The loop invariant of process_string: `done` has been written, `input[i..]` is still to be read. */
  ghost predicate Decoding(input: Text, len: nat, i: nat, done: Text) {
    && |done| <= i <= len < |input|
    && Delimited(input[i..], len - i)
    && ProcessRaw(input, len) == Prepend(done, ProcessRaw(input[i..], len - i))
  }

  lemma DecodingStarts(input: Text, len: nat)
    requires Delimited(input, len)
    ensures Decoding(input, len, 0, [])
  {
    assert input[0..] == input;
    PrependNothing(ProcessRaw(input, len));
  }

  lemma DecodingTurn(input: Text, len: nat, i: nat, done: Text)
    requires Decoding(input, len, i, done) && i < len && input[i] != '\0'
    ensures Step(input[i..]).None? ==> ProcessRaw(input, len).None?
    ensures Step(input[i..]).Some? ==>
              var (out, k) := Step(input[i..]).value; Decoding(input, len, i + k, done + out)
  {
    hide Step, SkipBody;
    var t := input[i..];
    if Step(t).Some? {
      var (out, k) := Step(t).value;
      StepInside(t, len - i);
      assert input[i + k..] == t[k..];
      PrependAssoc(done, out, ProcessRaw(t[k..], len - i - k));
    }
  }

  lemma DecodingEnds(input: Text, len: nat, i: nat, done: Text)
    requires Decoding(input, len, i, done) && (i == len || input[i] == '\0')
    ensures ProcessString(input, len) == Some(CString(done))
  {
    assert done + [] == done;
  }

  /** process_string on a literal delimited by skip_quotes: the output buffer sized from the input suffices. */
  method ProcessStringInto(input: Text, len: nat) returns (r: Option<CStr>)
    requires Delimited(input, len)
    ensures r == ProcessString(input, len)
  {
    hide Step, ProcessRaw, SkipBody;
    var output := new byte[len + 1];
    var i: nat, o: nat := 0, 0;
    ghost var done: Text := [];
    DecodingStarts(input, len);
    while At(input, i) != '\0' && i < len
      invariant o <= output.Length && output[..o] == done
      invariant Decoding(input, len, i, done)
      decreases len - i
    {
      DecodingTurn(input, len, i, done);
      var consumed, written := StepInto(input[i..], output, o);
      if consumed.None? {
        return None;
      }
      assert output[..o + written] == output[..o] + output[o..o + written];
      done := done + Step(input[i..]).value.0;
      i, o := i + consumed.value, o + written;
    }
    output[o] := '\0';
    DecodingEnds(input, len, i, done);
    r := Some(CString(output[..o]));
  }

  /** get_quoted_string, moving the caller's pointer. */
  method GetQuotedAt(c: Cursor) returns (r: Option<CStr>)
    requires c.Valid()
    modifies c
    ensures c.Valid()
    ensures r.Some? == GetQuoted(old(c.Rest())).Some?
    ensures r.Some? ==> (r.value, c.Rest()) == GetQuoted(old(c.Rest())).value
  {
    ghost var t := c.Rest();
    var start := c.pos;
    var ok := SkipQuotesAt(c);
    if !ok {
      return None;
    }
    assert c.text[start + 1..] == t[1..];
    r := ProcessStringInto(c.text[start + 1..], c.pos - start - 2);
  }
}
