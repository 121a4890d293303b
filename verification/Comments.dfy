/** remove_comments (parson.c:301-334): blanking comments in place, outside string literals. */
module Comments {
  import opened Bytes

  // ----- What the routine turns a text into

  function Blank(n: nat): (t: CStr)
    ensures |t| == n && forall i :: 0 <= i < n ==> t[i] == ' '
  {
    if n == 0 then [] else " " + Blank(n - 1)
  }

  /** strstr: the first position where `p` occurs. */
  function Find(t: Text, p: Text): (r: Option<nat>)
    ensures r.Some? ==> r.value + |p| <= |t|
  {
    if p <= t then Some(0)
    else if t == [] then None
    else
      match Find(t[1..], p)
      case None => None
      case Some(k) => Some(k + 1)
  }

  /** The token is there. */
  lemma {:induction false} FindOccurs(t: Text, p: Text, i: nat)
    requires Find(t, p).Some? && i < |p|
    ensures t[Find(t, p).value + i] == p[i]
  {
    if !(p <= t) {
      FindOccurs(t[1..], p, i);
    }
  }

  lemma {:induction false} FindIsFirst(t: Text, p: Text)
    ensures Find(t, p).Some? ==> p <= t[Find(t, p).value..]
    ensures forall k :: 0 <= k <= |t| && (Find(t, p).Some? ==> k < Find(t, p).value) ==> !(p <= t[k..])
  {
    if !(p <= t) && t != [] {
      FindIsFirst(t[1..], p);
      assert forall k :: 0 < k <= |t| ==> t[k..] == t[1..][k - 1..];
    }
  }

  /** The two flags after a byte that is kept. */
  function NextInString(c: byte, inString: bool, escaped: bool): bool {
    if c == '\"' && !escaped then !inString else inString
  }

  function NextEscaped(c: byte, escaped: bool): bool {
    c == '\\' && !escaped
  }

  /** The branch of the loop that blanks: backslashes and quotes are looked at first. */
  predicate OpensComment(t: Text, start: Text, inString: bool, escaped: bool)
    requires t != []
  {
    (t[0] !in {'\\', '\"'} || escaped) && !inString && start <= t
  }

  /** remove_comments from a position reached with these two flags. */
  function Strip(t: Text, start: Text, end: Text, inString: bool, escaped: bool): (r: Text)
    requires start != [] && end != []
    ensures |r| == |t|
    ensures '\0' !in t ==> '\0' !in r
    decreases |t|
  {
    if t == [] then []
    else if OpensComment(t, start, inString, escaped) then
      match Find(t[|start|..], end)
      case None => Blank(|start|) + t[|start|..]
      case Some(k) =>
        var n := |start| + k + |end|;
        Blank(n) + Strip(t[n..], start, end, false, false)
    else
      [t[0]] + Strip(t[1..], start, end, NextInString(t[0], inString, escaped), NextEscaped(t[0], escaped))
  }

  /** remove_comments. */
  function RemoveComments(t: CStr, start: Text, end: Text): (r: CStr)
    ensures |r| == |t|
  {
    if start == [] || end == [] then t else Strip(t, start, end, false, false)
  }

  /** One step of Strip, in the terms the lemmas below need. */
  lemma StripStep(t: Text, start: Text, end: Text, inString: bool, escaped: bool) returns (n: nat, u: Text)
    requires start != [] && end != [] && t != []
    ensures var r := Strip(t, start, end, inString, escaped);
            if OpensComment(t, start, inString, escaped) then
              && 0 < n <= |t| && r == Blank(n) + u
              && var f := Find(t[|start|..], end);
                 && (f.None? ==> n == |start| && u == t[n..])
                 && (f.Some? ==> n == |start| + f.value + |end| && u == Strip(t[n..], start, end, false, false))
            else
              && n == 1
              && u == Strip(t[1..], start, end, NextInString(t[0], inString, escaped), NextEscaped(t[0], escaped))
              && r == [t[0]] + u && r[1..] == u
  {
    hide OpensComment;
    if OpensComment(t, start, inString, escaped) {
      n, u := StripOpened(t, start, end, inString, escaped);
    } else {
      hide Find, Blank;
      n := 1;
      u := Strip(t[1..], start, end, NextInString(t[0], inString, escaped), NextEscaped(t[0], escaped));
      hide Strip;
      StripKept(t, start, end, inString, escaped);
      assert ([t[0]] + u)[1..] == u;
    }
  }

  lemma StripKept(t: Text, start: Text, end: Text, inString: bool, escaped: bool)
    requires start != [] && end != [] && t != [] && !OpensComment(t, start, inString, escaped)
    ensures Strip(t, start, end, inString, escaped)
         == [t[0]] + Strip(t[1..], start, end, NextInString(t[0], inString, escaped), NextEscaped(t[0], escaped))
  {
    hide Find, Blank, OpensComment;
  }

  lemma StripOpened(t: Text, start: Text, end: Text, inString: bool, escaped: bool) returns (n: nat, u: Text)
    requires start != [] && end != [] && t != [] && OpensComment(t, start, inString, escaped)
    ensures 0 < n <= |t| && Strip(t, start, end, inString, escaped) == Blank(n) + u
    ensures var f := Find(t[|start|..], end);
            && (f.None? ==> n == |start| && u == t[n..])
            && (f.Some? ==> n == |start| + f.value + |end| && u == Strip(t[n..], start, end, false, false))
  {
    assert |start| <= |t|;
    hide Find, Blank, OpensComment, Strip;
    match Find(t[|start|..], end) {
      case None =>
        n, u := |start|, t[|start|..];
        StripUnclosed(t, start, end, inString, escaped);
      case Some(k) =>
        n := |start| + k + |end|;
        u := Strip(t[n..], start, end, false, false);
        StripClosed(t, start, end, inString, escaped, k);
    }
  }

  lemma StripUnclosed(t: Text, start: Text, end: Text, inString: bool, escaped: bool)
    requires start != [] && end != [] && t != [] && OpensComment(t, start, inString, escaped) && |start| <= |t|
    requires Find(t[|start|..], end).None?
    ensures Strip(t, start, end, inString, escaped) == Blank(|start|) + t[|start|..]
  {
    hide Find, Blank, OpensComment;
  }

  lemma StripClosed(t: Text, start: Text, end: Text, inString: bool, escaped: bool, k: nat)
    requires start != [] && end != [] && t != [] && OpensComment(t, start, inString, escaped) && |start| <= |t|
    requires Find(t[|start|..], end) == Some(k)
    ensures var n := |start| + k + |end|;
            n <= |t| && Strip(t, start, end, inString, escaped) == Blank(n) + Strip(t[n..], start, end, false, false)
  {
    hide Find, Blank, OpensComment;
  }

  // ----- The routine on its buffer

  /** `n` bytes from `at` on are blank, and nothing else has changed. */
  ghost predicate BlankedAt(was: Text, now: Text, at: nat, n: nat)
    requires at + n <= |was|
  {
    now == was[..at] + Blank(n) + was[at + n..]
  }

  lemma FillStep(was: Text, at: nat, n: nat, i: nat)
    requires at + n <= |was| && i < n
    ensures (was[..at] + Blank(i) + was[at + i..])[at + i := ' '] == was[..at] + Blank(i + 1) + was[at + i + 1..]
  {
    hide Blank;
  }

  /** Overwrite `n` bytes with spaces. */
  method Fill(buf: array<byte>, at: nat, n: nat)
    requires at + n <= buf.Length
    modifies buf
    ensures BlankedAt(old(buf[..]), buf[..], at, n)
  {
    ghost var was := buf[..];
    assert was == was[..at] + Blank(0) + was[at + 0..];
    for i := 0 to n
      invariant buf[..] == was[..at] + Blank(i) + was[at + i..]
    {
      hide Blank;
      FillStep(was, at, n, i);
      buf[at + i] := ' ';
    }
  }

  /** The loop invariant: `done` is final, `todo` is still as it was. */
  ghost predicate Stripping(t: Text, start: Text, end: Text, done: Text, todo: Text, inString: bool, escaped: bool)
    requires start != [] && end != []
  {
    Strip(t, start, end, false, false) == done + Strip(todo, start, end, inString, escaped)
  }

  /** A byte that is kept. */
  lemma KeepByte(t: Text, start: Text, end: Text, done: Text, todo: Text, inString: bool, escaped: bool)
    requires start != [] && end != [] && todo != [] && Stripping(t, start, end, done, todo, inString, escaped)
    requires !OpensComment(todo, start, inString, escaped)
    ensures Stripping(t, start, end, done + [todo[0]], todo[1..],
                      NextInString(todo[0], inString, escaped), NextEscaped(todo[0], escaped))
  {
    hide Find, Blank;
    Join(done, [todo[0]],
         Strip(todo[1..], start, end, NextInString(todo[0], inString, escaped), NextEscaped(todo[0], escaped)));
  }

  /** A comment: blanked up to its end, or only its opening when it has none. */
  lemma BlankComment(t: Text, start: Text, end: Text, done: Text, todo: Text, escaped: bool)
    requires start != [] && end != [] && todo != [] && Stripping(t, start, end, done, todo, false, escaped)
    requires OpensComment(todo, start, false, escaped)
    ensures var r := Find(todo[|start|..], end);
            && (r.None? ==> Strip(t, start, end, false, false) == (done + Blank(|start|)) + todo[|start|..])
            && (r.Some? ==>
                  var n := |start| + r.value + |end|;
                  Stripping(t, start, end, done + Blank(n), todo[n..], false, false))
  {
    hide Find, Blank, Strip;
    var n, u := StripStep(todo, start, end, false, escaped);
    Join(done, Blank(n), u);
  }

  lemma Join(a: Text, b: Text, c: Text)
    ensures a + (b + c) == (a + b) + c
  {
  }

  lemma {:induction false} BlankJoin(m: nat, n: nat)
    ensures Blank(m) + Blank(n) == Blank(m + n)
  {
    hide Blank;
  }

  /** What blanking the comment at `pos` does to the buffer; `next` is where reading goes on, if it does. */
  ghost predicate Blanked(was: Text, now: Text, pos: nat, size: nat, start: Text, end: Text, next: Option<nat>)
    requires pos + |start| <= size <= |was|
  {
    var r := Find(was[pos + |start|..size], end);
    && (r.None? ==> next.None? && BlankedAt(was, now, pos, |start|))
    && (r.Some? ==>
          var n := |start| + r.value + |end|;
          next == Some(pos + n) && pos + n <= size && BlankedAt(was, now, pos, n))
  }

  /** The comment whose opening is at `pos`: blank the opening, look for the end, blank up to it. */
  method BlankCommentAt(buf: array<byte>, pos: nat, size: nat, start: Text, end: Text) returns (next: Option<nat>)
    requires pos <= size <= buf.Length && start <= buf[pos..size]
    modifies buf
    ensures Blanked(old(buf[..]), buf[..], pos, size, start, end, next)
  {
    hide Find, Blank, Blanked, BlankedAt;
    ghost var was := buf[..];
    var from := pos + |start|;
    Fill(buf, pos, |start|);
    ghost var mid := buf[..];
    SameBehind(was, mid, pos, |start|, size);
    var ptr := Find(buf[from..size], end);
    assert buf[from..size] == mid[from..size];
    if ptr.None? {
      BlankedOnce(was, mid, pos, size, start, end);
      return None;
    }
    Fill(buf, from, ptr.value + |end|);
    BlankedTwice(was, mid, buf[..], pos, size, start, end, ptr.value);
    return Some(from + ptr.value + |end|);
  }

  lemma BlankedOnce(was: Text, mid: Text, pos: nat, size: nat, start: Text, end: Text)
    requires pos + |start| <= size <= |was| && BlankedAt(was, mid, pos, |start|)
    requires Find(mid[pos + |start|..size], end).None?
    ensures Blanked(was, mid, pos, size, start, end, None)
  {
    SameBehind(was, mid, pos, |start|, size);
    hide Find, BlankedAt;
  }

  lemma BlankedTwice(was: Text, mid: Text, now: Text, pos: nat, size: nat, start: Text, end: Text, k: nat)
    requires pos + |start| <= size <= |was| && BlankedAt(was, mid, pos, |start|)
    requires Find(mid[pos + |start|..size], end) == Some(k)
    requires BlankedAt(mid, now, pos + |start|, k + |end|)
    ensures Blanked(was, now, pos, size, start, end, Some(pos + |start| + k + |end|))
  {
    hide Find, BlankedAt;
    SameBehind(was, mid, pos, |start|, size);
    TwoBlanks(was, mid, now, pos, |start|, k + |end|);
  }

  lemma SameBehind(was: Text, mid: Text, at: nat, n: nat, size: nat)
    requires at + n <= size <= |was| && BlankedAt(was, mid, at, n)
    ensures |mid| == |was| && mid[at + n..size] == was[at + n..size]
  {
    hide Blank;
  }

  /** Blanking `a` bytes and then the `n` behind them. */
  lemma TwoBlanks(was: Text, mid: Text, now: Text, at: nat, a: nat, n: nat)
    requires at + a + n <= |was| == |mid| && BlankedAt(was, mid, at, a) && BlankedAt(mid, now, at + a, n)
    ensures BlankedAt(was, now, at, a + n)
  {
    BlankJoin(a, n);
    hide Blank;
    assert mid[..at + a] == was[..at] + Blank(a);
    assert mid[at + a + n..] == was[at + a + n..];
    Join(was[..at], Blank(a), Blank(n));
  }

  /** The buffer: `done` up to `pos`, then `todo`, then what lies behind the text of length `size`. */
  ghost predicate Holds(now: Text, pos: nat, size: nat, done: Text, todo: Text, tail: Text) {
    && pos == |done| && |done| + |todo| == size && size < |now|
    && now[..pos] == done && now[pos..size] == todo && now[size..] == tail
  }

  lemma HoldsNext(now: Text, pos: nat, size: nat, done: Text, todo: Text, tail: Text)
    requires Holds(now, pos, size, done, todo, tail) && todo != []
    ensures now[pos] == todo[0] && now[pos..size] == todo && pos < size
    ensures Holds(now, pos + 1, size, done + [todo[0]], todo[1..], tail)
  {
    assert now[pos..size][0] == now[pos];
  }

  lemma HoldsText(now: Text, pos: nat, size: nat, done: Text, todo: Text, tail: Text)
    requires Holds(now, pos, size, done, todo, tail)
    ensures pos <= size <= |now| && now[..size] == done + todo && now[size..] == tail
    ensures size - pos == |todo|
    ensures todo == [] <==> pos == size
  {
    assert now[..size] == now[..pos] + now[pos..size];
  }

  lemma HoldsBlank(now: Text, was: Text, pos: nat, size: nat, done: Text, todo: Text, tail: Text, n: nat)
    requires Holds(was, pos, size, done, todo, tail) && n <= |todo|
    requires pos + n <= |was| && BlankedAt(was, now, pos, n)
    ensures Holds(now, pos + n, size, done + Blank(n), todo[n..], tail)
  {
    hide Blank;
    assert was[pos + n..][size - pos - n..] == was[size..];
    assert was[pos + n..][..size - pos - n] == was[pos..size][n..];
  }

  /** What is known after a comment has been blanked. */
  ghost predicate CommentDone(now: Text, pos: nat, t: CStr, start: Text, end: Text,
                              done: Text, todo: Text, tail: Text, next: Option<nat>)
    requires start != [] && end != [] && |t| <= |now|
  {
    match next
    case None => now[..|t|] == RemoveComments(t, start, end) && now[|t|..] == tail
    case Some(p) =>
      && pos < p <= |t| && p - pos <= |todo|
      && Holds(now, p, |t|, done + Blank(p - pos), todo[p - pos..], tail)
      && Stripping(t, start, end, done + Blank(p - pos), todo[p - pos..], false, false)
  }

  lemma CommentEffect(was: Text, now: Text, pos: nat, t: CStr, start: Text, end: Text,
                      done: Text, todo: Text, tail: Text, escaped: bool, next: Option<nat>)
    requires start != [] && end != [] && Stripping(t, start, end, done, todo, false, escaped)
    requires todo != [] && OpensComment(todo, start, false, escaped)
    requires Holds(was, pos, |t|, done, todo, tail) && |now| == |was|
    requires was[pos + |start|..|t|] == todo[|start|..] && Blanked(was, now, pos, |t|, start, end, next)
    ensures CommentDone(now, pos, t, start, end, done, todo, tail, next)
  {
    hide Strip, Blank, Find, Stripping, RemoveComments, Holds;
    HoldsText(was, pos, |t|, done, todo, tail);
    BlankComment(t, start, end, done, todo, escaped);
    if next.None? {
      HoldsBlank(now, was, pos, |t|, done, todo, tail, |start|);
      HoldsText(now, pos + |start|, |t|, done + Blank(|start|), todo[|start|..], tail);
      UnterminatedEnds(t, start, end);
    } else {
      HoldsBlank(now, was, pos, |t|, done, todo, tail, next.value - pos);
    }
  }

  /** The branch of the loop that has met a comment. */
  method CommentTurn(buf: array<byte>, pos: nat, t: CStr, start: Text, end: Text,
                     ghost done: Text, ghost todo: Text, ghost tail: Text, ghost escaped: bool)
    returns (next: Option<nat>)
    requires start != [] && end != [] && Stripping(t, start, end, done, todo, false, escaped)
    requires todo != [] && OpensComment(todo, start, false, escaped)
    requires Holds(buf[..], pos, |t|, done, todo, tail)
    modifies buf
    ensures CommentDone(buf[..], pos, t, start, end, done, todo, tail, next)
  {
    hide Strip, Blank, Find, Stripping, RemoveComments, CommentDone, Blanked;
    ghost var was := buf[..];
    assert buf[pos..|t|] == todo && was[pos + |start|..|t|] == todo[|start|..];
    next := BlankCommentAt(buf, pos, |t|, start, end);
    CommentEffect(was, buf[..], pos, t, start, end, done, todo, tail, escaped, next);
  }

  /** remove_comments on a buffer holding `t` and its terminator. */
  method RemoveCommentsInPlace(buf: array<byte>, t: CStr, start: Text, end: Text)
    requires |t| < buf.Length && buf[..|t|] == t && buf[|t|] == '\0'
    modifies buf
    ensures buf[..|t|] == RemoveComments(t, start, end)
    ensures buf[|t|..] == old(buf[|t|..])
  {
    hide Strip, Blank, Find, Stripping, RemoveComments, Holds;
    if start == [] || end == [] {
      NoTokens(t, start, end);
      return;
    }
    var inString, escaped, pos: nat := false, false, 0;
    ghost var done: Text, todo: Text, tail := [], t, buf[|t|..];
    StrippingStarts(t, start, end);
    HoldsStarts(buf[..], t);
    while buf[pos] != '\0'
      invariant pos <= |t| && buf[|t|] == '\0'
      invariant Holds(buf[..], pos, |t|, done, todo, tail) && '\0' !in todo
      invariant Stripping(t, start, end, done, todo, inString, escaped)
      decreases |todo|
    {
      HoldsText(buf[..], pos, |t|, done, todo, tail);
      HoldsNext(buf[..], pos, |t|, done, todo, tail);
      if buf[pos] == '\\' && !escaped {
        KeepByte(t, start, end, done, todo, inString, escaped);
        done, todo := done + [todo[0]], todo[1..];
        escaped, pos := true, pos + 1;
      } else if buf[pos] == '\"' && !escaped {
        KeepByte(t, start, end, done, todo, inString, escaped);
        done, todo := done + [todo[0]], todo[1..];
        inString, pos := !inString, pos + 1;
      } else if !inString && start <= buf[pos..|t|] {
        var next := CommentTurn(buf, pos, t, start, end, done, todo, tail, escaped);
        if next.None? {
          return;
        }
        ghost var n := next.value - pos;
        done, todo := done + Blank(n), todo[n..];
        escaped, pos := false, next.value;
        HoldsText(buf[..], pos, |t|, done, todo, tail);
      } else {
        KeepByte(t, start, end, done, todo, inString, escaped);
        done, todo := done + [todo[0]], todo[1..];
        escaped, pos := false, pos + 1;
      }
    }
    HoldsText(buf[..], pos, |t|, done, todo, tail);
    assert todo == [] by {
      if todo != [] { HoldsNext(buf[..], pos, |t|, done, todo, tail); }
    }
    StrippingEnds(t, start, end, done, inString, escaped);
  }

  lemma HoldsStarts(now: Text, t: Text)
    requires |t| < |now| && now[..|t|] == t
    ensures Holds(now, 0, |t|, [], t, now[|t|..])
  {
  }

  lemma NoTokens(t: CStr, start: Text, end: Text)
    requires start == [] || end == []
    ensures RemoveComments(t, start, end) == t
  {
  }

  lemma UnterminatedEnds(t: CStr, start: Text, end: Text)
    requires start != [] && end != []
    ensures RemoveComments(t, start, end) == Strip(t, start, end, false, false)
  {
    hide Strip;
  }

  lemma StrippingStarts(t: Text, start: Text, end: Text)
    requires start != [] && end != []
    ensures Stripping(t, start, end, [], t, false, false)
  {
    hide Strip;
    assert [] + Strip(t, start, end, false, false) == Strip(t, start, end, false, false);
  }

  lemma StrippingEnds(t: CStr, start: Text, end: Text, done: Text, inString: bool, escaped: bool)
    requires start != [] && end != [] && Stripping(t, start, end, done, [], inString, escaped)
    ensures RemoveComments(t, start, end) == done
  {
    StripNothing(start, end, inString, escaped);
    assert done + [] == done;
  }

  // ----- What removing comments does to a text

  lemma {:induction false} StripOnlyBlanks(t: Text, start: Text, end: Text, inString: bool, escaped: bool)
    requires start != [] && end != []
    ensures var r := Strip(t, start, end, inString, escaped);
            forall i :: 0 <= i < |t| ==> r[i] == t[i] || r[i] == ' '
    decreases |t|
  {
    hide Find, Blank, Strip;
    if t != [] {
      var n, u := StripStep(t, start, end, inString, escaped);
      if !OpensComment(t, start, inString, escaped) {
        StripOnlyBlanks(t[1..], start, end, NextInString(t[0], inString, escaped), NextEscaped(t[0], escaped));
      } else if Find(t[|start|..], end).Some? {
        StripOnlyBlanks(t[n..], start, end, false, false);
      }
    }
  }

  /** Reading quotes and backslashes alone: is position `i` inside a string literal? */
  predicate InLiteral(t: Text, i: nat, inString: bool, escaped: bool)
    requires i < |t|
  {
    if i == 0 then inString
    else InLiteral(t[1..], i - 1, NextInString(t[0], inString, escaped), NextEscaped(t[0], escaped))
  }

  lemma {:induction false} LiteralAfterBlank(n: nat, u: Text, i: nat, escaped: bool)
    requires i < n + |u|
    ensures i < n ==> !InLiteral(Blank(n) + u, i, false, escaped)
    ensures 0 < n <= i ==> InLiteral(Blank(n) + u, i, false, escaped) == InLiteral(u, i - n, false, false)
  {
    if n > 0 {
      assert (Blank(n) + u)[1..] == Blank(n - 1) + u;
      if i > 0 {
        LiteralAfterBlank(n - 1, u, i - 1, false);
        if n == 1 {
          assert Blank(0) + u == u;
        }
      }
    }
  }

  /** Nothing inside a string literal of the result has been touched. */
  lemma {:induction false} StripKeepsLiterals(t: Text, start: Text, end: Text, inString: bool, escaped: bool, i: nat)
    requires start != [] && end != [] && i < |t|
    requires InLiteral(Strip(t, start, end, inString, escaped), i, inString, escaped)
    ensures Strip(t, start, end, inString, escaped)[i] == t[i]
    decreases |t|
  {
    hide Find, Blank, Strip;
    var n, u := StripStep(t, start, end, inString, escaped);
    if !OpensComment(t, start, inString, escaped) {
      if i > 0 {
        StripKeepsLiterals(t[1..], start, end,
                           NextInString(t[0], inString, escaped), NextEscaped(t[0], escaped), i - 1);
      }
    } else {
      LiteralAfterBlank(n, u, i, escaped);
      if Find(t[|start|..], end).Some? {
        StripKeepsLiterals(t[n..], start, end, false, false, i - n);
      }
    }
  }

  /** No comment starts in `t` outside its string literals. */
  predicate Clean(t: Text, start: Text, inString: bool, escaped: bool) {
    t == [] ||
    (&& !OpensComment(t, start, inString, escaped)
     && Clean(t[1..], start, NextInString(t[0], inString, escaped), NextEscaped(t[0], escaped)))
  }

  /** What follows a comment that is never closed; empty when every comment met is closed. */
  function Leftover(t: Text, start: Text, end: Text, inString: bool, escaped: bool): Text
    requires start != [] && end != []
    decreases |t|
  {
    if t == [] then []
    else if OpensComment(t, start, inString, escaped) then
      match Find(t[|start|..], end)
      case None => t[|start|..]
      case Some(k) => Leftover(t[|start| + k + |end|..], start, end, false, false)
    else
      Leftover(t[1..], start, end, NextInString(t[0], inString, escaped), NextEscaped(t[0], escaped))
  }

  // ----- Where comments start

  /** How many backslashes stand directly before position `i`. */
  function Backslashes(t: Text, i: nat): nat
    requires i <= |t|
  {
    if i > 0 && t[i - 1] == '\\' then 1 + Backslashes(t, i - 1) else 0
  }

  /** How many quotes before position `i` have an even number of backslashes directly before them. */
  function Quotes(t: Text, i: nat): nat
    requires i <= |t|
  {
    if i == 0 then 0
    else Quotes(t, i - 1) + if t[i - 1] == '\"' && Backslashes(t, i - 1) % 2 == 0 then 1 else 0
  }

  /** A comment can start at position `i`: the token is there, behind an even number of such quotes. */
  predicate Opens(t: Text, start: Text, i: nat) {
    && i < |t| && start <= t[i..] && Quotes(t, i) % 2 == 0
    && (t[i] in {'\\', '\"'} ==> Backslashes(t, i) % 2 == 1)
  }

  ghost predicate NoneOpens(t: Text, start: Text, n: nat) {
    forall i :: 0 <= i < n ==> !Opens(t, start, i)
  }

  /** The two flags are those counts, and the text before the first comment is kept. */
  lemma {:induction false} KeptBefore(t: Text, start: Text, end: Text, i: nat)
    requires start != [] && end != [] && i <= |t| && NoneOpens(t, start, i)
    ensures Strip(t, start, end, false, false)
         == t[..i] + Strip(t[i..], start, end, Quotes(t, i) % 2 == 1, Backslashes(t, i) % 2 == 1)
    ensures Clean(t, start, false, false)
       <==> Clean(t[i..], start, Quotes(t, i) % 2 == 1, Backslashes(t, i) % 2 == 1)
    ensures Leftover(t, start, end, false, false)
         == Leftover(t[i..], start, end, Quotes(t, i) % 2 == 1, Backslashes(t, i) % 2 == 1)
  {
    hide Strip, Find, Blank;
    assert t[0..] == t;
    if i > 0 {
      KeptBefore(t, start, end, i - 1);
      assert !Opens(t, start, i - 1);
      var u := t[i - 1..];
      assert u[0] == t[i - 1] && u[1..] == t[i..];
      StripKept(u, start, end, Quotes(t, i - 1) % 2 == 1, Backslashes(t, i - 1) % 2 == 1);
      assert t[..i] == t[..i - 1] + [t[i - 1]];
    }
  }

  /** A text without comments is kept. */
  lemma NoComment(t: CStr, start: Text, end: Text)
    requires start != [] && end != [] && NoneOpens(t, start, |t|)
    ensures RemoveComments(t, start, end) == t && Leftover(t, start, end, false, false) == []
  {
    hide Strip, Leftover, Quotes, Backslashes, Clean, NoneOpens;
    KeptBefore(t, start, end, |t|);
    StripNothing(start, end, Quotes(t, |t|) % 2 == 1, Backslashes(t, |t|) % 2 == 1);
    assert t[..|t|] == t && t[|t|..] == [] && t + [] == t;
  }

  /** The first comment is blanked, up to the first end token behind its opening, and what follows is treated as a
      text of its own. */
  lemma FirstComment(t: CStr, start: Text, end: Text, i: nat, n: nat)
    requires start != [] && end != [] && NoneOpens(t, start, i) && Opens(t, start, i) && i + |start| <= |t|
    requires Find(t[i + |start|..], end).Some? && n == |start| + Find(t[i + |start|..], end).value + |end|
    ensures i + n <= |t|
    ensures RemoveComments(t, start, end) == t[..i] + Blank(n) + RemoveComments(t[i + n..], start, end)
    ensures Leftover(t, start, end, false, false) == Leftover(t[i + n..], start, end, false, false)
  {
    hide *;
    OpensHere(t, start, i);
    TailOfTail(t, i, |start|);
    ClosedHere(t[i..], start, end, Quotes(t, i) % 2 == 1, Backslashes(t, i) % 2 == 1, n);
    TailOfTail(t, i, n);
    CommentBehind(t, start, end, i, n, t[i + n..]);
  }

  lemma CommentBehind(t: CStr, start: Text, end: Text, i: nat, n: nat, more: CStr)
    requires start != [] && end != [] && i <= |t| && NoneOpens(t, start, i)
    requires var inString, escaped := Quotes(t, i) % 2 == 1, Backslashes(t, i) % 2 == 1;
             && Strip(t[i..], start, end, inString, escaped) == Blank(n) + RemoveComments(more, start, end)
             && Leftover(t[i..], start, end, inString, escaped) == Leftover(more, start, end, false, false)
    ensures RemoveComments(t, start, end) == t[..i] + Blank(n) + RemoveComments(more, start, end)
    ensures Leftover(t, start, end, false, false) == Leftover(more, start, end, false, false)
  {
    KeptBefore(t, start, end, i);
    UnterminatedEnds(t, start, end);
    hide *;
    Join(t[..i], Blank(n), RemoveComments(more, start, end));
  }

  lemma TailOfTail(t: Text, i: nat, n: nat)
    requires i + n <= |t|
    ensures t[i..][n..] == t[i + n..]
  {
  }

  lemma ClosedHere(t: CStr, start: Text, end: Text, inString: bool, escaped: bool, n: nat)
    requires start != [] && end != [] && t != [] && OpensComment(t, start, inString, escaped) && |start| <= |t|
    requires Find(t[|start|..], end).Some? && n == |start| + Find(t[|start|..], end).value + |end|
    ensures n <= |t|
    ensures Strip(t, start, end, inString, escaped) == Blank(n) + RemoveComments(t[n..], start, end)
    ensures Leftover(t, start, end, inString, escaped) == Leftover(t[n..], start, end, false, false)
  {
    hide Strip, Find, Blank, Leftover, OpensComment, RemoveComments;
    LeftoverClosed(t, start, end, inString, escaped, n);
    StripClosed(t, start, end, inString, escaped, n - |start| - |end|);
    UnterminatedEnds(t[n..], start, end);
  }

  /** Without an end token only the opening is blanked. */
  lemma FirstUnclosed(t: CStr, start: Text, end: Text, i: nat)
    requires start != [] && end != [] && NoneOpens(t, start, i) && Opens(t, start, i) && i + |start| <= |t|
    requires Find(t[i + |start|..], end).None?
    ensures RemoveComments(t, start, end) == t[..i] + Blank(|start|) + t[i + |start|..]
    ensures Leftover(t, start, end, false, false) == t[i + |start|..]
  {
    hide Strip, Find, Blank, Leftover, Quotes, Backslashes, OpensComment, Opens, Clean, NoneOpens;
    KeptBefore(t, start, end, i);
    var inString, escaped := Quotes(t, i) % 2 == 1, Backslashes(t, i) % 2 == 1;
    var u := t[i..];
    OpensHere(t, start, i);
    assert u[|start|..] == t[i + |start|..];
    LeftoverUnclosed(u, start, end, inString, escaped);
    StripUnclosed(u, start, end, inString, escaped);
    Join(t[..i], Blank(|start|), t[i + |start|..]);
  }

  lemma OpensHere(t: Text, start: Text, i: nat)
    requires start != [] && Opens(t, start, i)
    ensures i + |start| <= |t| && Quotes(t, i) % 2 == 0
    ensures OpensComment(t[i..], start, Quotes(t, i) % 2 == 1, Backslashes(t, i) % 2 == 1)
  {
    hide Quotes, Backslashes;
    assert t[i..][0] == t[i];
  }

  lemma LeftoverUnclosed(t: Text, start: Text, end: Text, inString: bool, escaped: bool)
    requires start != [] && end != [] && t != [] && OpensComment(t, start, inString, escaped) && |start| <= |t|
    requires Find(t[|start|..], end).None?
    ensures Leftover(t, start, end, inString, escaped) == t[|start|..]
  {
    hide Find, OpensComment;
  }

  lemma LeftoverClosed(t: Text, start: Text, end: Text, inString: bool, escaped: bool, n: nat)
    requires start != [] && end != [] && t != [] && OpensComment(t, start, inString, escaped) && |start| <= |t|
    requires Find(t[|start|..], end) == Some(n - |start| - |end|)
    ensures n <= |t| && Leftover(t, start, end, inString, escaped) == Leftover(t[n..], start, end, false, false)
  {
    hide Find, OpensComment;
  }

  /** `Clean` says that no comment starts anywhere. */
  lemma CleanIff(t: Text, start: Text)
    requires start != []
    ensures Clean(t, start, false, false) <==> NoneOpens(t, start, |t|)
  {
    var i := FirstOpen(t, start, 0);
    KeptBefore(t, start, start, i);
    if i == |t| {
      assert t[i..] == [];
    }
  }

  lemma {:induction false} InLiteralFrom(t: Text, j: nat, i: nat)
    requires j <= i < |t|
    ensures InLiteral(t[j..], i - j, Quotes(t, j) % 2 == 1, Backslashes(t, j) % 2 == 1) <==> Quotes(t, i) % 2 == 1
    decreases i - j
  {
    if j < i {
      assert t[j..][1..] == t[j + 1..];
      InLiteralFrom(t, j + 1, i);
    }
  }

  /** Inside a string literal is behind an odd number of quotes. */
  lemma InLiteralIff(t: Text, i: nat)
    requires i < |t|
    ensures InLiteral(t, i, false, false) <==> Quotes(t, i) % 2 == 1
  {
    assert t[0..] == t;
    InLiteralFrom(t, 0, i);
  }

  lemma {:induction false} FirstOpen(t: Text, start: Text, from: nat) returns (i: nat)
    requires from <= |t| && NoneOpens(t, start, from)
    ensures from <= i <= |t| && NoneOpens(t, start, i) && (i < |t| ==> Opens(t, start, i))
    decreases |t| - from
  {
    if from == |t| || Opens(t, start, from) {
      i := from;
    } else {
      i := FirstOpen(t, start, from + 1);
    }
  }

  lemma {:induction false} CleanAfterBlank(n: nat, u: Text, start: Text, escaped: bool)
    requires start != [] && ' ' !in start && n > 0
    ensures Clean(Blank(n) + u, start, false, escaped) == Clean(u, start, false, false)
  {
    var t := Blank(n) + u;
    assert t[0] == ' ' && t[1..] == Blank(n - 1) + u;
    assert start[0] in start;
    if n > 1 {
      CleanAfterBlank(n - 1, u, start, false);
    } else {
      assert Blank(0) + u == u;
    }
  }

  /** A token without blanks is found in the result only where it was in the text. */
  lemma TokenSurvives(t: Text, start: Text, end: Text, inString: bool, escaped: bool)
    requires start != [] && end != [] && ' ' !in start && start <= Strip(t, start, end, inString, escaped)
    ensures start <= t
  {
    hide Strip;
    StripOnlyBlanks(t, start, end, inString, escaped);
    var r := Strip(t, start, end, inString, escaped);
    forall i | 0 <= i < |start| ensures t[i] == start[i] {
      assert r[i] == start[i] && start[i] in start;
    }
  }

  lemma LeftoverStep(t: Text, start: Text, end: Text, inString: bool, escaped: bool)
    requires start != [] && end != [] && t != [] && !OpensComment(t, start, inString, escaped)
    ensures Leftover(t, start, end, inString, escaped)
         == Leftover(t[1..], start, end, NextInString(t[0], inString, escaped), NextEscaped(t[0], escaped))
  {
  }

  /** After one pass the only comments left are in the text behind an unclosed one. */
  lemma {:induction false} StripClean(t: Text, start: Text, end: Text, inString: bool, escaped: bool)
    requires start != [] && end != [] && ' ' !in start
    ensures Clean(Strip(t, start, end, inString, escaped), start, inString, escaped)
        <==> Clean(Leftover(t, start, end, inString, escaped), start, false, false)
    decreases |t|
  {
    hide Find, Blank, Strip;
    if t != [] {
      var r := Strip(t, start, end, inString, escaped);
      var n, u := StripStep(t, start, end, inString, escaped);
      if OpensComment(t, start, inString, escaped) {
        CleanAfterBlank(n, u, start, escaped);
        if Find(t[|start|..], end).Some? {
          StripClean(t[n..], start, end, false, false);
        }
      } else {
        hide Leftover;
        if start <= r {
          TokenSurvives(t, start, end, inString, escaped);
        }
        LeftoverStep(t, start, end, inString, escaped);
        StripClean(t[1..], start, end, NextInString(t[0], inString, escaped), NextEscaped(t[0], escaped));
      }
    }
  }

  lemma {:induction false} StripFixed(t: Text, start: Text, end: Text, inString: bool, escaped: bool)
    requires start != [] && end != [] && ' ' !in start
    ensures Strip(t, start, end, inString, escaped) == t <==> Clean(t, start, inString, escaped)
    decreases |t|
  {
    hide Find, Blank, Strip;
    if t != [] {
      var n, u := StripStep(t, start, end, inString, escaped);
      if OpensComment(t, start, inString, escaped) {
        assert start[0] in start && t[0] == start[0];
        assert Strip(t, start, end, inString, escaped)[0] == ' ';
      } else {
        StripFixed(t[1..], start, end, NextInString(t[0], inString, escaped), NextEscaped(t[0], escaped));
        assert [t[0]] + t[1..] == t;
      }
    }
  }

  /** A text is left alone exactly when no comment starts in it. */
  lemma UnchangedIff(t: CStr, start: Text, end: Text)
    requires start != [] && end != [] && ' ' !in start
    ensures RemoveComments(t, start, end) == t <==> NoneOpens(t, start, |t|)
  {
    hide Strip, Clean, NoneOpens;
    StripFixed(t, start, end, false, false);
    CleanIff(t, start);
  }

  /** The length is kept, bytes only change to spaces, and none inside a string literal of the result. */
  lemma RemoveCommentsKeeps(t: CStr, start: Text, end: Text, i: nat)
    requires i < |t|
    ensures var r := RemoveComments(t, start, end);
            && |r| == |t|
            && (r[i] == t[i] || r[i] == ' ')
            && (Quotes(r, i) % 2 == 1 ==> r[i] == t[i])
  {
    hide Strip, InLiteral, Quotes;
    InLiteralIff(RemoveComments(t, start, end), i);
    if start != [] && end != [] {
      StripOnlyBlanks(t, start, end, false, false);
      if InLiteral(RemoveComments(t, start, end), i, false, false) {
        StripKeepsLiterals(t, start, end, false, false, i);
      }
    }
  }

  /** A second pass changes nothing exactly when no comment starts behind an unclosed one. */
  lemma IdempotentIff(t: CStr, start: Text, end: Text)
    requires start != [] && end != [] && ' ' !in start
    ensures var r := RemoveComments(t, start, end);
            var left := Leftover(t, start, end, false, false);
            RemoveComments(r, start, end) == r <==> NoneOpens(left, start, |left|)
  {
    hide Strip, Clean, Leftover, NoneOpens;
    CleanIff(Leftover(t, start, end, false, false), start);
    StripClean(t, start, end, false, false);
    StripFixed(Strip(t, start, end, false, false), start, end, false, false);
  }

  /** An unclosed comment before another one: the second pass blanks what the first one left. */
  lemma NotIdempotent()
    ensures RemoveComments(RemoveComments("/*/*", "/*", "*/"), "/*", "*/") != RemoveComments("/*/*", "/*", "*/")
  {
    var t, start, end: CStr := "/*/*", "/*", "*/";
    var u := t[2..];
    assert u == "/*" && u[0..] == u;
    assert !(end <= u[0..]) by { assert u[0..][0] != end[0]; }
    assert Find(u, end).None?;
    assert Leftover(t, start, end, false, false) == "/*";
    assert Opens("/*", start, 0);
    IdempotentIff(t, start, end);
  }

  lemma StripNothing(start: Text, end: Text, inString: bool, escaped: bool)
    requires start != [] && end != []
    ensures Strip([], start, end, inString, escaped) == [] == Leftover([], start, end, inString, escaped)
  {
  }
}
