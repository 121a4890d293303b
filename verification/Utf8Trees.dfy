/** Parsing valid UTF-8 gives a tree whose names and strings are valid UTF-8. */
module Utf8Trees {
  import opened Bytes
  import opened Utf8
  import opened StringCodec
  import opened StringLaws
  import opened Json
  import opened Parser

  ghost predicate Utf8Json(v: Json) {
    match v
    case Str(s) => ValidUtf8(s)
    case Arr(items) => forall i :: 0 <= i < |items| ==> Utf8Json(items[i])
    case Obj(ms) => forall i :: 0 <= i < |ms| ==> ValidUtf8(ms[i].name) && Utf8Json(ms[i].value)
    case _ => true
  }

  /** strtod reads only ASCII. */
  ghost predicate ReadsAscii(lib: Libc) {
    forall t, i :: 0 <= i < lib.strtod(t).consumed ==> t[i] as int < 0x80
  }

  lemma {:induction false} SkipKeepsUtf8(t: Text)
    requires ValidUtf8(t)
    ensures ValidUtf8(SkipSpace(t))
  {
    hide ValidUtf8;
    if IsSpace(Head(t)) {
      ValidDropAsciis(t, 1);
      SkipKeepsUtf8(t[1..]);
    }
  }

  /** A literal and what follows it. */
  lemma QuotedUtf8(t: Text)
    requires ValidUtf8(t) && GetQuoted(t).Some?
    ensures ValidUtf8(GetQuoted(t).value.0) && ValidUtf8(GetQuoted(t).value.1)
  {
    hide ValidUtf8, SkipBody, ProcessRaw;
    var (s, rest) := GetQuoted(t).value;
    var u, n := t[1..], |t| - |rest| - 2;
    ValidDropAsciis(t, 1);
    ProcessStopsAtQuote(u, n);
    assert u == u[..n] + u[n..];
    ValidSplit(u[..n], u[n..]);
    QuotedKeepsUtf8(u, n);
    ValidDropAsciis(u[n..], 1);
    SkippedIsSuffix(u);
    assert u[n..][1..] == rest;
  }

  lemma ScalarUtf8(lib: Libc, t: Text)
    requires ReadsAscii(lib) && ValidUtf8(t)
    ensures forall r :: r in {ParseNumber(lib, t), ParseString(t), ParseBoolean(t), ParseNull(t)} && r.Success? ==>
              Utf8Json(r.value) && ValidUtf8(r.rest)
  {
    hide ValidUtf8, GetQuoted, IsDecimal;
    if GetQuoted(t).Some? {
      QuotedUtf8(t);
    }
    ValidDropAsciis(t, lib.strtod(t).consumed);
    WordUtf8("true", t);
    WordUtf8("false", t);
    WordUtf8("null", t);
  }

  lemma WordUtf8(word: Text, t: Text)
    requires ValidUtf8(t) && forall i :: 0 <= i < |word| ==> word[i] as int < 0x80
    ensures word <= t ==> ValidUtf8(t[|word|..])
  {
    hide ValidUtf8;
    if word <= t {
      assert forall i :: 0 <= i < |word| ==> t[i] == word[i];
      ValidDropAsciis(t, |word|);
    }
  }

  /** Every name and every string of a tree parsed from valid UTF-8 is valid UTF-8, and so is the rest. */
  lemma {:induction false} ParsedKeepsUtf8(lib: Libc, t: Text, nesting: nat)
    requires ReadsAscii(lib) && ValidUtf8(t) && ParseValue(lib, t, nesting).Success?
    ensures var p := ParseValue(lib, t, nesting); Utf8Json(p.value) && ValidUtf8(p.rest)
    decreases |t|, 2
  {
    hide ParseNumber, ParseString, ParseBoolean, ParseNull, ParseMembers, ParseElements, SkipSpace;
    hide ValidUtf8, ReadsAscii;
    SkipKeepsUtf8(t);
    var t := SkipSpace(t);
    if Head(t) == '{' || Head(t) == '[' {
      ValidDropAsciis(t, 1);
      SkipKeepsUtf8(t[1..]);
      var u := SkipSpace(t[1..]);
      if Head(u) == '}' || Head(u) == ']' {
        ValidDropAsciis(u, 1);
      }
      if Head(t) == '{' && Head(u) != '}' {
        MembersKeepUtf8(lib, u, nesting + 1, []);
      } else if Head(t) == '[' && Head(u) != ']' {
        ElementsKeepUtf8(lib, u, nesting + 1, []);
      }
    } else {
      ScalarUtf8(lib, t);
    }
  }

  lemma {:induction false} MembersKeepUtf8(lib: Libc, t: Text, nesting: nat, acc: seq<Member>)
    requires ReadsAscii(lib) && ValidUtf8(t) && ParseMembers(lib, t, nesting, acc).Success?
    requires Utf8Json(Obj(acc))
    ensures var p := ParseMembers(lib, t, nesting, acc); Utf8Json(p.value) && ValidUtf8(p.rest)
    decreases |t|, 0
  {
    hide ParseValue, SkipSpace, GetQuoted, ValidUtf8, ReadsAscii, Lookup;
    QuotedUtf8(t);
    var (key, t1) := GetQuoted(t).value;
    SkipKeepsUtf8(t1);
    var t2 := SkipSpace(t1);
    ValidDropAsciis(t2, 1);
    ParsedKeepsUtf8(lib, t2[1..], nesting);
    var Success(v, t3) := ParseValue(lib, t2[1..], nesting);
    SkipKeepsUtf8(t3);
    var t4 := SkipSpace(t3);
    ValidDropAsciis(t4, 1);
    if Head(t4) == ',' {
      SkipKeepsUtf8(t4[1..]);
      MembersKeepUtf8(lib, SkipSpace(t4[1..]), nesting, acc + [Member(key, v)]);
    }
  }

  lemma {:induction false} ElementsKeepUtf8(lib: Libc, t: Text, nesting: nat, acc: seq<Json>)
    requires ReadsAscii(lib) && ValidUtf8(t) && ParseElements(lib, t, nesting, acc).Success?
    requires Utf8Json(Arr(acc))
    ensures var p := ParseElements(lib, t, nesting, acc); Utf8Json(p.value) && ValidUtf8(p.rest)
    decreases |t|, 3
  {
    hide ParseValue, SkipSpace, ValidUtf8, ReadsAscii;
    ParsedKeepsUtf8(lib, t, nesting);
    var Success(v, t3) := ParseValue(lib, t, nesting);
    SkipKeepsUtf8(t3);
    var t4 := SkipSpace(t3);
    ValidDropAsciis(t4, 1);
    if Head(t4) == ',' {
      SkipKeepsUtf8(t4[1..]);
      ElementsKeepUtf8(lib, SkipSpace(t4[1..]), nesting, acc + [v]);
    }
  }

  /** The same for json_parse_string: the byte order mark is one character of its own. */
  lemma ParsedTextKeepsUtf8(lib: Libc, t: Text)
    requires ReadsAscii(lib) && ValidUtf8(t) && ParseText(lib, t).Success?
    ensures Utf8Json(ParseText(lib, t).value) && ValidUtf8(ParseText(lib, t).rest)
  {
    hide ParseValue, ReadsAscii;
    if At(t, 0) as int == 0xEF && At(t, 1) as int == 0xBB && At(t, 2) as int == 0xBF {
      assert VerifySequence(t) == Some((0xFEFF, 3));
      ParsedKeepsUtf8(lib, t[3..], 0);
    } else {
      ParsedKeepsUtf8(lib, t, 0);
    }
  }
}
