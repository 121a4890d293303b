/** The shared `const char **string` every parsing routine advances. */
module Cursors {
  import opened Bytes

  class Cursor {
    const text: Text
    var pos: nat

    constructor (text: Text)
      ensures this.text == text && pos == 0
    {
      this.text := text;
      pos := 0;
    }

    ghost predicate Valid()
      reads this
    {
      pos <= |text|
    }

    /** The text still to be read: what the pointer points at. */
    ghost function Rest(): Text
      requires Valid()
      reads this
    {
      text[pos..]
    }

    /** `**string`. */
    function Peek(): (c: byte)
      requires Valid()
      reads this
      ensures c == Head(Rest())
    {
      if pos < |text| then text[pos] else '\0'
    }

    /** SKIP_CHAR. */
    method Advance(k: nat)
      requires Valid() && k <= |Rest()|
      modifies this
      ensures Valid() && Rest() == old(Rest())[k..]
    {
      pos := pos + k;
    }

    /** SKIP_WHITESPACES. */
    method SkipWhitespaces()
      requires Valid()
      modifies this
      ensures Valid() && Rest() == SkipSpace(old(Rest()))
    {
      while IsSpace(Peek())
        invariant Valid()
        invariant SkipSpace(Rest()) == SkipSpace(old(Rest()))
        decreases |text| - pos
      {
        assert Rest()[1..] == text[pos + 1..];
        pos := pos + 1;
      }
    }
  }
}
