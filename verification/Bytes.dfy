/** Bytes, C strings and the few libc character routines the library uses. */
module Bytes {

  datatype Option<+T> = None | Some(value: T)

  /** An `unsigned char`: byte b is the Dafny char with code b, so that C's character literals can be kept.
      Codes above 255 do not occur in C; everything below holds for them as well. */
  type byte = char

  /** Memory from a pointer up to the end of its allocation. */
  type Text = seq<byte>

  /** The contents of a C string: everything before its terminator. */
  type CStr = t: Text | '\0' !in t

  /** `*p`: the end of the text reads as the terminator. */
  function Head(t: Text): byte {
    if t == [] then '\0' else t[0]
  }

  /** `p[i]` for a pointer that may be near the end of its string. */
  function At(t: Text, i: nat): byte {
    if i < |t| then t[i] else '\0'
  }

  /** `isspace` in the C locale. */
  predicate IsSpace(c: byte) {
    c == ' ' || 9 <= c as int <= 13
  }

  /** SKIP_WHITESPACES. */
  function SkipSpace(t: Text): (r: Text)
    ensures |r| <= |t|
    ensures !IsSpace(Head(r))
  {
    if IsSpace(Head(t)) then SkipSpace(t[1..]) else t
  }

  /** Blank, tab, line feed and carriage return (section 2 of RFC 8259), vertical tab and form feed. */
  const WHITESPACE: set<nat> := {0x20, 0x09, 0x0A, 0x0D, 0x0B, 0x0C}

  ghost predicate AllSpace(t: Text) {
    forall i :: 0 <= i < |t| ==> t[i] as nat in WHITESPACE
  }

  lemma {:induction false} SkipSpaceOver(w: Text, t: Text)
    requires AllSpace(w)
    ensures SkipSpace(w + t) == SkipSpace(t)
  {
    if w == [] {
      assert w + t == t;
    } else {
      assert (w + t)[1..] == w[1..] + t;
      SkipSpaceOver(w[1..], t);
    }
  }

  /** What a C reader sees of a buffer: the bytes before the first NUL. */
  function CString(t: Text): (r: CStr)
    ensures |r| <= |t| && r == t[..|r|]
    ensures |r| < |t| ==> t[|r|] == '\0'
    ensures '\0' !in t ==> r == t
  {
    if t == [] || t[0] == '\0' then [] else [t[0]] + CString(t[1..])
  }

  function Max(a: nat, b: nat): nat {
    if a > b then a else b
  }
}
