/** The OPC client (opc_client.c:50-229): messages over connections that can fail at any byte.
    How resolving, connecting and each send() turn out is given with each call, and is arbitrary. */
module Opc {
  import opened LinkedList
  import opened Pixels
  import opened Strips

  const OPC_MAX_SINKS: nat := 64
  const OPC_SET_PIXELS: u8 := 0

  // ----- Messages

  function PixelBytes(pixels: seq<Pixel>): (bytes: seq<u8>)
    ensures |bytes| == 3 * |pixels|
  {
    if pixels == [] then [] else [pixels[0].r, pixels[0].g, pixels[0].b] + PixelBytes(pixels[1..])
  }

  /** The four header bytes for a body of `len` bytes; the stores truncate to a byte. */
  function Header(channel: u8, len: nat): (h: seq<u8>)
    ensures |h| == 4
  {
    [channel, OPC_SET_PIXELS, len / 256 % 256, len % 256]
  }

  function Message(channel: u8, pixels: seq<Pixel>): seq<u8> {
    Header(channel, 3 * |pixels|) + PixelBytes(pixels)
  }

  /** The body length a receiver reads from a header. */
  function Announced(m: seq<u8>): nat
    requires |m| >= 4
  {
    var high: nat, low: nat := m[2], m[3];
    256 * high + low
  }

  /** A whole message: its header announces exactly its body. */
  predicate IsMessage(m: seq<u8>) {
    |m| >= 4 && |m| == 4 + Announced(m)
  }

  /** The header is right exactly up to 21845 pixels: beyond, the code only complains and sends. */
  lemma MessageIff(channel: u8, pixels: seq<Pixel>)
    ensures IsMessage(Message(channel, pixels)) <==> |pixels| <= 21845
  {
    var m, len := Message(channel, pixels), 3 * |pixels|;
    assert m[2] == len / 256 % 256 && m[3] == len % 256;
  }

  // ----- The receiver: a reference decoder for the bytes of one connection

  datatype Received = Received(messages: seq<seq<u8>>, leftover: seq<u8>)

  function Receive(bytes: seq<u8>): Received {
    if Truncated(bytes) then Received([], bytes)
    else
      var n := 4 + Announced(bytes);
      var rest := Receive(bytes[n..]);
      Received([bytes[..n]] + rest.messages, rest.leftover)
  }

  /** Too short for the message it belongs to. */
  predicate Truncated(bytes: seq<u8>) {
    |bytes| < 4 || |bytes| < 4 + Announced(bytes)
  }

  /** What was received accounts for the bytes: whole messages, and a rest too short for another. */
  ghost predicate Accounts(r: Received, bytes: seq<u8>) {
    && (forall i :: 0 <= i < |r.messages| ==> IsMessage(r.messages[i]))
    && bytes == Concat(r.messages) + r.leftover
    && Truncated(r.leftover)
  }

  /** The receiver loses nothing and takes a message whenever one is there. */
  lemma {:induction false} ReceiveSound(bytes: seq<u8>)
    ensures Accounts(Receive(bytes), bytes)
  {
    hide Announced, IsMessage, Accounts;
    if Truncated(bytes) {
      AccountsNone(bytes);
    } else {
      var n := 4 + Announced(bytes);
      ReceiveSound(bytes[n..]);
      FirstIsMessage(bytes);
      AccountsCons(bytes[..n], Receive(bytes[n..]), bytes[n..]);
      assert bytes == bytes[..n] + bytes[n..];
    }
  }

  lemma AccountsNone(bytes: seq<u8>)
    requires Truncated(bytes)
    ensures Accounts(Received([], bytes), bytes)
  {
    hide Truncated;
  }

  lemma AccountsCons(m: seq<u8>, r: Received, rest: seq<u8>)
    requires IsMessage(m) && Accounts(r, rest)
    ensures Accounts(Received([m] + r.messages, r.leftover), m + rest)
  {
    hide IsMessage, Truncated;
    assert ([m] + r.messages)[1..] == r.messages;
  }

  lemma FirstIsMessage(bytes: seq<u8>)
    requires !Truncated(bytes)
    ensures IsMessage(bytes[..4 + Announced(bytes)])
  {
    AnnouncedCut(bytes, 4 + Announced(bytes));
  }

  lemma AnnouncedCut(bytes: seq<u8>, n: nat)
    requires 4 <= n <= |bytes|
    ensures Announced(bytes[..n]) == Announced(bytes)
  {
  }

  function Concat(messages: seq<seq<u8>>): seq<u8> {
    if messages == [] then [] else messages[0] + Concat(messages[1..])
  }

  lemma CutIsTruncated(m: seq<u8>, k: nat)
    requires IsMessage(m) && k < |m|
    ensures Truncated(m[..k])
  {
  }

  lemma ReceiveFirst(m: seq<u8>, rest: seq<u8>)
    requires IsMessage(m)
    ensures Receive(m + rest) == Received([m] + Receive(rest).messages, Receive(rest).leftover)
  {
    var bytes := m + rest;
    assert bytes[..|m|] == m && bytes[|m|..] == rest;
    assert Announced(bytes) == Announced(m);
  }

  lemma ConcatFirst(messages: seq<seq<u8>>, cut: seq<u8>)
    requires messages != []
    ensures Concat(messages) + cut == messages[0] + (Concat(messages[1..]) + cut)
    ensures [messages[0]] + messages[1..] == messages
  {
  }

  /** Whole messages with a truncated one after them are taken apart again. */
  lemma {:induction false} ReceiveConcat(messages: seq<seq<u8>>, cut: seq<u8>)
    requires forall i :: 0 <= i < |messages| ==> IsMessage(messages[i])
    requires Truncated(cut)
    ensures Receive(Concat(messages) + cut) == Received(messages, cut)
  {
    if messages == [] {
      assert Concat(messages) + cut == cut;
    } else {
      hide *;
      ConcatFirst(messages, cut);
      ReceiveConcat(messages[1..], cut);
      ReceiveFirst(messages[0], Concat(messages[1..]) + cut);
    }
  }

  lemma {:induction false} ConcatAppend(messages: seq<seq<u8>>, m: seq<u8>)
    ensures Concat(messages + [m]) == Concat(messages) + m
  {
    if messages == [] {
      assert Concat([m]) == m + Concat([]);
    } else {
      assert (messages + [m])[1..] == messages[1..] + [m];
      ConcatAppend(messages[1..], m);
    }
  }

  /** Bytes put on a connection between messages add what they hold. */
  lemma ReceiveMore(before: seq<u8>, more: seq<u8>)
    requires Receive(before).leftover == []
    ensures IsMessage(more) ==> Receive(before + more) == Received(Receive(before).messages + [more], [])
    ensures Truncated(more) ==> Receive(before + more) == Received(Receive(before).messages, more)
  {
    var ms := Receive(before).messages;
    hide Receive, Concat, Announced;
    ReceiveSound(before);
    assert before == Concat(ms);
    if IsMessage(more) {
      ConcatAppend(ms, more);
      assert Concat(ms + [more]) + [] == before + more;
      ReceiveConcat(ms + [more], []);
    }
    if Truncated(more) {
      ReceiveConcat(ms, more);
    }
  }

  /** What is sent for `pixels` is received as one message exactly up to 21845 pixels. */
  lemma ReceivedIff(channel: u8, pixels: seq<Pixel>)
    ensures Receive(Message(channel, pixels)) == Received([Message(channel, pixels)], []) <==> |pixels| <= 21845
  {
    var m := Message(channel, pixels);
    MessageIff(channel, pixels);
    ReceiveMore([], m);
    assert [] + m == m;
  }

  /** One pixel more: the header announces two bytes, and the receiver's first message is the first six. */
  lemma TooLong(frame: seq<Pixel>)
    requires frame == seq(21846, i => Pixel(0, 0, 0))
    ensures var m := Message(0, frame);
            Receive(m) != Received([m], []) && Receive(m).messages != [] && Receive(m).messages[0] == m[..6]
  {
    hide PixelBytes;
    var m := Message(0, frame);
    assert m[2] == 0 && m[3] == 2;
    assert Announced(m) == 2;
    ReceivedIff(0, frame);
  }

  // ----- What a receiver reads in a message

  datatype Frame = Frame(channel: u8, command: u8, pixels: seq<Pixel>)

  /** Channel, command and two bytes of length, then red, green and blue of each pixel. */
  function Decode(m: seq<u8>): Frame
    requires |m| >= 4
  {
    Frame(m[0], m[1], seq((|m| - 4) / 3, k requires 0 <= k < (|m| - 4) / 3 =>
      Pixel(m[4 + 3 * k], m[5 + 3 * k], m[6 + 3 * k])))
  }

  lemma {:induction false} PixelByteAt(pixels: seq<Pixel>, k: nat)
    requires k < |pixels|
    ensures var b := PixelBytes(pixels);
            b[3 * k] == pixels[k].r && b[3 * k + 1] == pixels[k].g && b[3 * k + 2] == pixels[k].b
  {
    if k > 0 {
      PixelByteAt(pixels[1..], k - 1);
    }
  }

  /** A message is decoded to its channel, command 0 and its pixels, each with its colours in their places. */
  lemma MessageDecodes(channel: u8, pixels: seq<Pixel>)
    ensures Decode(Message(channel, pixels)) == Frame(channel, 0, pixels)
  {
    hide PixelBytes;
    var m, b := Message(channel, pixels), PixelBytes(pixels);
    var f := Decode(m);
    assert |m| == 4 + 3 * |pixels| && |f.pixels| == |pixels|;
    forall k | 0 <= k < |pixels| ensures f.pixels[k] == pixels[k] {
      PixelByteAt(pixels, k);
      assert m[4 + 3 * k] == b[3 * k] && m[5 + 3 * k] == b[3 * k + 1] && m[6 + 3 * k] == b[3 * k + 2];
    }
  }

  // ----- Connections

  /** How many of `left` bytes go out when the send() calls return these numbers: the first that is not positive, or is
      missing, is the failure. */
  function Accepted(left: nat, accepts: seq<int>): (n: nat)
    ensures n <= left
    decreases |accepts|
  {
    if left == 0 || accepts == [] || accepts[0] <= 0 || accepts[0] > left then 0
    else accepts[0] + Accepted(left - accepts[0], accepts[1..])
  }

  function Sum(counts: seq<int>): int {
    if counts == [] then 0 else counts[0] + Sum(counts[1..])
  }

  /** The calls up to some point send what they were asked to or a part of it; then nothing is left, or a call is
      missing, sends nothing or fails. */
  lemma {:induction false} AcceptedIs(left: nat, accepts: seq<int>) returns (k: nat)
    ensures k <= |accepts| && Accepted(left, accepts) == Sum(accepts[..k])
    ensures forall i :: 0 <= i < k ==> accepts[i] > 0
    ensures var rest := left - Accepted(left, accepts);
            rest == 0 || k == |accepts| || accepts[k] <= 0 || accepts[k] > rest
    decreases |accepts|
  {
    k := 0;
    if left != 0 && accepts != [] && 0 < accepts[0] <= left {
      var n := AcceptedIs(left - accepts[0], accepts[1..]);
      k := n + 1;
      assert accepts[..k][1..] == accepts[1..][..n];
    }
  }

  /** How connecting and sending turn out for one put. */
  datatype Net = Net(answers: bool, header: seq<int>, body: seq<int>)

  /** One TCP connection: the sink it was opened for and the bytes that went out on it. */
  datatype Conn = Conn(sink: nat, bytes: seq<u8>)

  /** The connections after `data` went out on number `c`, which may have been opened for it; -1: on none. */
  ghost predicate Sent(before: seq<Conn>, after: seq<Conn>, sink: nat, c: int, data: seq<u8>) {
    if c == -1 then after == before && data == []
    else
      && 0 <= c <= |before|
      && after == (if c < |before| then before else before + [Conn(sink, [])])
                  [c := Conn(sink, (if c < |before| then before[c].bytes else []) + data)]
  }

  lemma SentTwice(a: seq<Conn>, b: seq<Conn>, d: seq<Conn>, sink: nat, c: int, x: seq<u8>, y: seq<u8>)
    requires c >= 0 && Sent(a, b, sink, c, x) && Sent(b, d, sink, c, y)
    ensures Sent(a, d, sink, c, x + y)
  {
    var start := if c < |a| then a[c].bytes else [];
    assert start + x + y == start + (x + y);
  }

  class Client {
    /** opc_sinks[].sockid: -1, or the number of an open connection. */
    const sockids: array<int>
    var nextSink: nat
    /** The kernel's side: every connection ever opened. */
    var conns: seq<Conn>

    ghost predicate Valid()
      reads this, sockids
    {
      && sockids.Length == OPC_MAX_SINKS && nextSink <= OPC_MAX_SINKS
      && forall s :: 0 <= s < nextSink && sockids[s] != -1 ==>
           0 <= sockids[s] < |conns| && conns[sockids[s]].sink == s
    }

    predicate IsSink(sink: int)
      reads this
    {
      0 <= sink < nextSink
    }

    /** Connection `c` is in use. */
    ghost predicate Open(c: int)
      requires Valid()
      reads this, sockids
    {
      exists s :: 0 <= s < nextSink && sockids[s] == c && c != -1
    }

    constructor ()
      ensures Valid() && nextSink == 0 && conns == [] && fresh(sockids)
    {
      sockids := new int[OPC_MAX_SINKS];
      nextSink := 0;
      conns := [];
    }

    /** opc_new_sink; `resolved` tells whether the host name can be resolved. */
    method NewSink(resolved: bool) returns (sink: int)
      requires Valid()
      modifies this`nextSink, sockids
      ensures Valid()
      ensures sink == if resolved && old(nextSink) < 64 then old(nextSink) else -1
      ensures nextSink == if sink == -1 then old(nextSink) else sink + 1
      ensures sink != -1 ==> sockids[sink] == -1
      ensures forall s :: 0 <= s < old(nextSink) ==> sockids[s] == old(sockids[s])
    {
      if nextSink >= OPC_MAX_SINKS {
        return -1;
      }
      sockids[nextSink] := -1;
      if !resolved {
        return -1;
      }
      nextSink := nextSink + 1;
      return nextSink - 1;
    }

    /** opc_connect; `answers` tells whether an attempt to connect succeeds. */
    method Connect(sink: int, answers: bool) returns (ok: bool)
      requires Valid()
      modifies this`conns, sockids
      ensures Valid()
      ensures ok <==> IsSink(sink) && (old(sockids[sink]) != -1 || answers)
      ensures !ok ==> sockids[..] == old(sockids[..]) && conns == old(conns)
      ensures ok ==> sockids[sink] >= 0 && Sent(old(conns), conns, sink, sockids[sink], [])
      ensures ok ==> sockids[sink] == if old(sockids[sink]) == -1 then |old(conns)| else old(sockids[sink])
      ensures forall s :: 0 <= s < nextSink && s != sink ==> sockids[s] == old(sockids[s])
    {
      if sink < 0 || sink >= nextSink {
        return false;
      }
      if sockids[sink] >= 0 {
        assert conns[sockids[sink]] == Conn(sink, conns[sockids[sink]].bytes + []);
        return true;
      }
      if answers {
        sockids[sink] := |conns|;
        conns := conns + [Conn(sink, [])];
        assert Conn(sink, []) == conns[sockids[sink]] == Conn(sink, [] + []);
      }
      return answers;
    }

    /** opc_close. */
    method Close(sink: int)
      requires Valid()
      modifies sockids
      ensures Valid()
      ensures IsSink(sink) ==> sockids[sink] == -1
      ensures forall s :: 0 <= s < nextSink && s != sink ==> sockids[s] == old(sockids[s])
    {
      if sink < 0 || sink >= nextSink {
        return;
      }
      if sockids[sink] >= 0 {
        sockids[sink] := -1;
      }
    }

    /** opc_send; the send() calls return `accepts`. It reports on which connection the bytes went and how many. */
    method Send(sink: int, data: seq<u8>, answers: bool, accepts: seq<int>)
      returns (ok: bool, ghost c: int, ghost sent: nat)
      requires Valid()
      modifies this`conns, sockids
      ensures Valid()
      ensures forall s :: 0 <= s < nextSink && s != sink ==> sockids[s] == old(sockids[s])
      ensures Progress(old(sockids[..]), old(conns), sockids[..], conns, nextSink, sink, data, ok, c, sent)
      ensures c != -1 <==> IsSink(sink) && (old(sockids[sink]) != -1 || answers)
      ensures c != -1 ==> sent == Accepted(|data|, accepts)
    {
      if sink < 0 || sink >= nextSink {
        return false, -1, 0;
      }
      ok := Connect(sink, answers);
      if !ok {
        return false, -1, 0;
      }
      var sockid := sockids[sink];
      c := sockid;
      var totalSent, i := 0, 0;
      assert accepts[0..] == accepts;
      while totalSent < |data|
        invariant 0 <= totalSent <= |data| && 0 <= i <= |accepts|
        invariant Valid() && sockids[sink] == c >= 0
        invariant forall s :: 0 <= s < nextSink && s != sink ==> sockids[s] == old(sockids[s])
        invariant Sent(old(conns), conns, sink, c, data[..totalSent])
        invariant Accepted(|data|, accepts) == totalSent + Accepted(|data| - totalSent, accepts[i..])
      {
        var n := if i < |accepts| then accepts[i] else 0;
        if n <= 0 || n > |data| - totalSent {
          Close(sink);
          return false, c, totalSent;
        }
        ghost var before := conns;
        conns := conns[sockid := conns[sockid].(bytes := conns[sockid].bytes + data[totalSent..totalSent + n])];
        SentTwice(old(conns), before, conns, sink, sockid, data[..totalSent], data[totalSent..totalSent + n]);
        assert data[..totalSent + n] == data[..totalSent] + data[totalSent..totalSent + n];
        assert accepts[i..][1..] == accepts[i + 1..];
        totalSent, i := totalSent + n, i + 1;
      }
      assert data[..totalSent] == data;
      return true, c, |data|;
    }

    /** opc_put_pixels. The pixels go out as one message on one connection, or the connection is closed
        after a part of the message, or nothing goes out. */
    method PutPixels(sink: int, channel: u8, pixels: seq<Pixel>, net: Net)
      returns (ok: bool, ghost c: int, ghost sent: nat)
      requires Valid() && |pixels| <= 65535
      modifies this`conns, sockids
      ensures Valid()
      ensures forall s :: 0 <= s < nextSink && s != sink ==> sockids[s] == old(sockids[s])
      ensures Progress(old(sockids[..]), old(conns), sockids[..], conns, nextSink, sink,
                       Message(channel, pixels), ok, c, sent)
      ensures Decode(Message(channel, pixels)) == Frame(channel, 0, pixels)
      ensures c != -1 <==> IsSink(sink) && (old(sockids[sink]) != -1 || net.answers)
      ensures c != -1 ==> sent == MessagePart(|pixels|, net)
    {
      var len := |pixels| * 3;
      var header, body := Header(channel, len), PixelBytes(pixels);
      ghost var m := Message(channel, pixels);
      MessageDecodes(channel, pixels);
      hide Decode;
      assert m == header + body && m[..4] == header;
      ok, c, sent := Send(sink, header, net.answers, net.header);
      if !ok {
        assert m[..sent] == header[..sent];
        return;
      }
      ghost var between := conns;
      ghost var c', sent';
      ok, c', sent' := Send(sink, body, net.answers, net.body);
      assert c' == c && header[..4] == header;
      SentTwice(old(conns), between, conns, sink, c, header, body[..sent']);
      sent := 4 + sent';
      assert m[..sent] == header + body[..sent'];
    }
  }

  /** How many bytes of a message go out. */
  function MessagePart(count: nat, net: Net): nat {
    if Accepted(4, net.header) < 4 then Accepted(4, net.header) else 4 + Accepted(3 * count, net.body)
  }

  /** One attempt to send `data` to a sink: `sent` bytes went out on connection `c`, the one the sink had
      or else a new one. All of them and the connection stays, or fewer and it is closed; or there was no
      connection to be had. */
  ghost predicate Progress(was: seq<int>, before: seq<Conn>, now: seq<int>, after: seq<Conn>, nextSink: nat,
                           sink: int, data: seq<u8>, ok: bool, c: int, sent: nat)
    requires |was| == |now| >= nextSink
  {
    if c == -1 then
      && !ok && sent == 0 && now == was && after == before
      && (0 <= sink < nextSink ==> was[sink] == -1)
    else
      && 0 <= sink < nextSink
      && c == (if was[sink] == -1 then |before| else was[sink])
      && sent <= |data| && (ok <==> sent == |data|)
      && Sent(before, after, sink, c, data[..sent])
      && now[sink] == if ok then c else -1
  }

  // ----- Whole runs

  datatype Call =
    | NewSink(resolved: bool)
    | PutPixels(sink: int, channel: u8, pixels: seq<Pixel>, net: Net)
    | Close(sink: int)
  {
    function Bytes(): seq<u8> {
      if PutPixels? then Message(channel, pixels) else []
    }
  }

  /** How many sinks there are after the calls. */
  function Sinks(calls: seq<Call>): (n: nat)
    ensures n <= 64
  {
    if calls == [] then 0
    else
      var n, last := Sinks(calls[..|calls| - 1]), calls[|calls| - 1];
      if last.NewSink? && last.resolved && n < 64 then n + 1 else n
  }

  /** The connection can be made and takes everything. */
  predicate Healthy(call: Call) {
    call.PutPixels? && call.net.answers && MessagePart(|call.pixels|, call.net) == 4 + 3 * |call.pixels|
  }

  /** What one call did: its result, the connection its bytes went out on, or -1, and how many did. */
  datatype Attempt = Attempt(ok: bool, c: int, sent: nat)

  /** A put succeeds exactly when its whole message went out, on a connection of its sink. */
  ghost predicate Possible(call: Call, a: Attempt, conns: seq<Conn>) {
    && a.sent <= |call.Bytes()|
    && (a.c == -1 ==> a.sent == 0)
    && (call.PutPixels? ==> (a.ok <==> a.c != -1 && a.sent == |call.Bytes()|))
    && (a.c != -1 ==> call.PutPixels? && 0 <= a.c < |conns| && conns[a.c].sink == call.sink)
  }

  /** The bytes a history put on connection `c`: for each call its part of its message. */
  function OnWire(calls: seq<Call>, log: seq<Attempt>, c: nat): seq<u8>
    requires |calls| == |log|
  {
    if calls == [] then []
    else
      var last := |calls| - 1;
      OnWire(calls[..last], log[..last], c) + (if log[last].c == c then Part(calls[last], log[last]) else [])
  }

  function Part(call: Call, a: Attempt): seq<u8> {
    if a.sent <= |call.Bytes()| then call.Bytes()[..a.sent] else []
  }

  function BytesOn(conns: seq<Conn>, c: nat): seq<u8> {
    if c < |conns| then conns[c].bytes else []
  }

  /** Every byte on every connection is accounted for by the calls, in order, and nothing follows a failure. */
  ghost predicate History(calls: seq<Call>, log: seq<Attempt>, conns: seq<Conn>) {
    && |calls| == |log|
    && (forall c: nat :: BytesOn(conns, c) == OnWire(calls, log, c))
    && (forall i :: 0 <= i < |calls| ==> Possible(calls[i], log[i], conns))
    && forall i, j :: 0 <= i < j < |log| && log[i].c == log[j].c != -1 ==> log[i].ok
  }

  /** On connection `c` no put has failed. */
  ghost predicate Whole(log: seq<Attempt>, c: int) {
    forall i :: 0 <= i < |log| && log[i].c == c ==> log[i].ok
  }

  ghost predicate OpenWhole(sockids: seq<int>, nextSink: nat, log: seq<Attempt>)
    requires nextSink <= |sockids|
  {
    forall s :: 0 <= s < nextSink && sockids[s] != -1 ==> Whole(log, sockids[s])
  }

  lemma OnWireStep(calls: seq<Call>, log: seq<Attempt>, call: Call, a: Attempt, c: nat)
    requires |calls| == |log|
    ensures OnWire(calls + [call], log + [a], c) == OnWire(calls, log, c) + (if a.c == c then Part(call, a) else [])
  {
    assert (calls + [call])[..|calls|] == calls && (log + [a])[..|log|] == log;
  }

  /** Bytes sent on `c`, and nowhere else. */
  lemma SentBytes(before: seq<Conn>, after: seq<Conn>, sink: nat, c: nat, data: seq<u8>, d: nat)
    requires Sent(before, after, sink, c, data)
    ensures BytesOn(after, d) == BytesOn(before, d) + (if c == d then data else [])
    ensures |after| >= |before| && c < |after| && after[c].sink == sink
  {
  }

  lemma SentKeepsSinks(before: seq<Conn>, after: seq<Conn>, sink: nat, c: nat, data: seq<u8>)
    requires Sent(before, after, sink, c, data) && (c < |before| ==> before[c].sink == sink)
    ensures forall d :: 0 <= d < |before| ==> after[d].sink == before[d].sink
  {
  }

  /** A put continues a history: its bytes are added to one connection on which nothing has failed. */
  lemma PutContinues(was: seq<int>, before: seq<Conn>, now: seq<int>, after: seq<Conn>, nextSink: nat,
                     calls: seq<Call>, log: seq<Attempt>, call: Call, a: Attempt)
    requires |was| == |now| >= nextSink
    requires forall s :: 0 <= s < nextSink && was[s] != -1 ==> 0 <= was[s] < |before| && before[was[s]].sink == s
    requires call.PutPixels? && History(calls, log, before) && OpenWhole(was, nextSink, log)
    requires Progress(was, before, now, after, nextSink, call.sink, call.Bytes(), a.ok, a.c, a.sent)
    requires forall s :: 0 <= s < nextSink && s != call.sink ==> now[s] == was[s]
    ensures History(calls + [call], log + [a], after) && OpenWhole(now, nextSink, log + [a])
  {
    hide OnWire, BytesOn, Part, Sent;
    if a.c == -1 {
      assert forall s :: 0 <= s < nextSink ==> now[s] == was[s];
      QuietContinues(now, nextSink, before, calls, log, call, a);
    } else {
      SentKeepsSinks(before, after, call.sink, a.c, call.Bytes()[..a.sent]);
      forall d: nat ensures BytesOn(after, d) == OnWire(calls + [call], log + [a], d) {
        SentBytes(before, after, call.sink, a.c, call.Bytes()[..a.sent], d);
        OnWireStep(calls, log, call, a, d);
        PartIs(call, a);
      }
      SentBytes(before, after, call.sink, a.c, call.Bytes()[..a.sent], 0);
      assert Whole(log, a.c);
      assert forall i :: 0 <= i < |calls| ==> Possible(calls[i], log[i], before);
      WholeStep(log, a);
    }
  }

  lemma PartIs(call: Call, a: Attempt)
    requires a.sent <= |call.Bytes()|
    ensures Part(call, a) == call.Bytes()[..a.sent]
  {
  }

  lemma WholeStep(log: seq<Attempt>, a: Attempt)
    ensures forall c :: Whole(log, c) && (a.c == c ==> a.ok) ==> Whole(log + [a], c)
  {
  }

  /** A call that sends nothing. */
  lemma QuietContinues(sockids: seq<int>, n: nat, conns: seq<Conn>, calls: seq<Call>, log: seq<Attempt>, call: Call,
                       a: Attempt)
    requires n <= |sockids| && History(calls, log, conns) && OpenWhole(sockids, n, log)
    requires a.c == -1 && Possible(call, a, conns)
    ensures History(calls + [call], log + [a], conns) && OpenWhole(sockids, n, log + [a])
  {
    hide OnWire, BytesOn, Part;
    forall d: nat ensures BytesOn(conns, d) == OnWire(calls + [call], log + [a], d) {
      assert BytesOn(conns, d) == OnWire(calls, log, d);
      OnWireStep(calls, log, call, a, d);
    }
  }

  // ----- What a receiver makes of a history

  /** The messages of the puts that succeeded on connection `c`, in order. */
  function Delivered(calls: seq<Call>, log: seq<Attempt>, c: nat): seq<seq<u8>>
    requires |calls| == |log|
  {
    if calls == [] then []
    else
      var last := |calls| - 1;
      var rest := Delivered(calls[..last], log[..last], c);
      if log[last].c == c && log[last].ok then rest + [calls[last].Bytes()] else rest
  }

  /** What went out of the last message on connection `c`, if its put failed. */
  function CutOff(calls: seq<Call>, log: seq<Attempt>, c: nat): seq<u8>
    requires |calls| == |log|
  {
    if calls == [] then []
    else
      var last := |calls| - 1;
      if log[last].c != c then CutOff(calls[..last], log[..last], c)
      else if log[last].ok then []
      else Part(calls[last], log[last])
  }

  /** The part of a history that concerns connection `c`. */
  ghost predicate InOrder(calls: seq<Call>, log: seq<Attempt>, c: nat) {
    && |calls| == |log|
    && (forall i :: 0 <= i < |calls| && log[i].c == c ==>
          && calls[i].PutPixels? && |calls[i].pixels| <= 21845
          && log[i].sent <= |calls[i].Bytes()| && (log[i].ok <==> log[i].sent == |calls[i].Bytes()|))
    && forall i, j :: 0 <= i < j < |log| && log[i].c == log[j].c == c ==> log[i].ok
  }

  /** The frames of those puts. */
  function DeliveredFrames(calls: seq<Call>, log: seq<Attempt>, c: nat): seq<Frame>
    requires |calls| == |log|
  {
    if calls == [] then []
    else
      var last := |calls| - 1;
      var rest := DeliveredFrames(calls[..last], log[..last], c);
      if log[last].c == c && log[last].ok && calls[last].PutPixels?
      then rest + [Frame(calls[last].channel, 0, calls[last].pixels)] else rest
  }

  function Frames(messages: seq<seq<u8>>): seq<Frame> {
    seq(|messages|, i requires 0 <= i < |messages| =>
      if |messages[i]| >= 4 then Decode(messages[i]) else Frame(0, 0, []))
  }

  lemma {:induction false} DeliveredDecode(calls: seq<Call>, log: seq<Attempt>, c: nat)
    requires |calls| == |log|
    requires forall i :: 0 <= i < |calls| && log[i].c == c ==> calls[i].PutPixels?
    ensures Frames(Delivered(calls, log, c)) == DeliveredFrames(calls, log, c)
  {
    hide Decode, Message;
    if calls != [] {
      var last := |calls| - 1;
      DeliveredDecode(calls[..last], log[..last], c);
      if log[last].c == c && log[last].ok {
        var call, rest := calls[last], Delivered(calls[..last], log[..last], c);
        MessageDecodes(call.channel, call.pixels);
        MessageLong(call.channel, call.pixels);
        assert Frames(rest + [call.Bytes()]) == Frames(rest) + [Frame(call.channel, 0, call.pixels)];
      }
    }
  }

  lemma MessageLong(channel: u8, pixels: seq<Pixel>)
    ensures |Message(channel, pixels)| == 4 + 3 * |pixels|
  {
  }

  lemma {:induction false} NothingCutOff(calls: seq<Call>, log: seq<Attempt>, c: nat)
    requires |calls| == |log| && Whole(log, c)
    ensures CutOff(calls, log, c) == []
  {
    if calls != [] {
      NothingCutOff(calls[..|calls| - 1], log[..|log| - 1], c);
    }
  }

  /** A receiver takes the bytes of a connection apart into exactly the messages delivered on it; what is left over
      is what went out of the put that failed on it, if one did. */
  lemma {:induction false} ReceivedExactly(calls: seq<Call>, log: seq<Attempt>, c: nat)
    requires InOrder(calls, log, c)
    ensures Receive(OnWire(calls, log, c)) == Received(Delivered(calls, log, c), CutOff(calls, log, c))
    decreases |calls|
  {
    hide Receive, Message, IsMessage, Truncated;
    if calls == [] {
      NothingReceived();
    } else {
      var last := |calls| - 1;
      var before := OnWire(calls[..last], log[..last], c);
      ReceivedExactly(calls[..last], log[..last], c);
      if log[last].c == c {
        NothingCutOff(calls[..last], log[..last], c);
        PartArrives(before, calls[last], log[last]);
      } else {
        assert before + [] == before;
      }
    }
  }

  /** A message that goes out behind whole ones is delivered or left over. */
  lemma PartArrives(before: seq<u8>, call: Call, a: Attempt)
    requires call.PutPixels? && |call.pixels| <= 21845 && a.sent <= |call.Bytes()|
    requires Receive(before).leftover == []
    ensures Receive(before + Part(call, a))
         == if a.sent == |call.Bytes()| then Received(Receive(before).messages + [call.Bytes()], [])
            else Received(Receive(before).messages, Part(call, a))
  {
    hide Receive, Message, IsMessage, Truncated;
    MessageIff(call.channel, call.pixels);
    ReceiveMore(before, Part(call, a));
    if a.sent == |call.Bytes()| {
      assert Part(call, a) == call.Bytes();
    } else {
      CutIsTruncated(call.Bytes(), a.sent);
    }
  }

  lemma NothingReceived()
    ensures Receive([]) == Received([], [])
  {
  }

  /** Over every run of calls, whatever the hosts, connections and sends do: the bytes of every connection are the
      messages put on it, in order, each whole except the last one of a closed connection. With at most 21845
      pixels a message, its receiver gets exactly the messages of the puts that succeeded on it, decodes them to
      their frames, and has a cut-off message left over only where a put failed. A put to a sink that exists succeeds
      when the connection is made and takes everything. */
  method Run(calls: seq<Call>) returns (client: Client, ghost log: seq<Attempt>, results: seq<bool>)
    requires forall call :: call in calls && call.PutPixels? ==> |call.pixels| <= 65535
    ensures client.Valid() && History(calls, log, client.conns)
    ensures |results| == |log| && forall i :: 0 <= i < |log| ==> results[i] == log[i].ok
    ensures HealthySucceed(calls, results)
    ensures forall c: nat :: c < |client.conns| && client.Open(c) ==> Whole(log, c)
    ensures (forall call :: call in calls && call.PutPixels? ==> |call.pixels| <= 21845) ==>
              forall c: nat :: c < |client.conns| ==>
                && Receive(client.conns[c].bytes) == Received(Delivered(calls, log, c), CutOff(calls, log, c))
                && Frames(Delivered(calls, log, c)) == DeliveredFrames(calls, log, c)
                && (client.Open(c) ==> CutOff(calls, log, c) == [])
  {
    hide OnWire, Delivered, DeliveredFrames, Frames, CutOff, Receive, History, OpenWhole, Whole;
    hide HealthySucceed, Healthy;
    client := new Client();
    results, log := [], [];
    NoneYet(calls);
    NoHistory(client.sockids[..]);
    for i := 0 to |calls|
      invariant client.Valid() && fresh(client) && fresh(client.sockids) && |results| == |log| == i
      invariant History(calls[..i], log, client.conns) && client.nextSink == Sinks(calls[..i])
      invariant OpenWhole(client.sockids[..], client.nextSink, log)
      invariant forall j :: 0 <= j < i ==> results[j] == log[j].ok
      invariant HealthySucceed(calls, results)
    {
      var ok;
      ghost var a;
      assert calls[..i + 1] == calls[..i] + [calls[i]] && calls[..i + 1][..i] == calls[..i];
      ok, a := Perform(client, calls[i], calls[..i], log);
      OneMore(calls, results, ok);
      results, log := results + [ok], log + [a];
    }
    assert calls[..|calls|] == calls;
    OpenIsWhole(client, log);
    if forall call :: call in calls && call.PutPixels? ==> |call.pixels| <= 21845 {
      forall c: nat | c < |client.conns|
        ensures Receive(client.conns[c].bytes) == Received(Delivered(calls, log, c), CutOff(calls, log, c))
        ensures Frames(Delivered(calls, log, c)) == DeliveredFrames(calls, log, c)
        ensures client.Open(c) ==> CutOff(calls, log, c) == []
      {
        HistoryReceived(calls, log, client.conns, c);
      }
    }
  }

  /** A put that nothing fails succeeds exactly when its sink exists. */
  ghost predicate HealthySucceed(calls: seq<Call>, results: seq<bool>) {
    && |results| <= |calls|
    && forall i :: 0 <= i < |results| && calls[i].PutPixels? && Healthy(calls[i]) ==>
         (results[i] <==> 0 <= calls[i].sink < Sinks(calls[..i]))
  }

  lemma NoneYet(calls: seq<Call>)
    ensures HealthySucceed(calls, [])
  {
  }

  lemma OneMore(calls: seq<Call>, results: seq<bool>, ok: bool)
    requires HealthySucceed(calls, results) && |results| < |calls|
    requires var i := |results|; calls[i].PutPixels? && Healthy(calls[i]) ==>
               (ok <==> 0 <= calls[i].sink < Sinks(calls[..i]))
    ensures HealthySucceed(calls, results + [ok])
  {
    hide Healthy, Sinks;
  }

  lemma NoHistory(sockids: seq<int>)
    ensures History([], [], []) && OpenWhole(sockids, 0, [])
  {
  }

  lemma OpenIsWhole(client: Client, log: seq<Attempt>)
    requires client.Valid() && OpenWhole(client.sockids[..], client.nextSink, log)
    ensures forall c :: client.Open(c) ==> Whole(log, c)
  {
    hide Whole;
    forall c | client.Open(c) ensures Whole(log, c) {
      var s :| 0 <= s < client.nextSink && client.sockids[s] == c && c != -1;
      assert client.sockids[..][s] == c;
    }
  }

  lemma HistoryReceived(calls: seq<Call>, log: seq<Attempt>, conns: seq<Conn>, c: nat)
    requires History(calls, log, conns) && c < |conns|
    requires forall call :: call in calls && call.PutPixels? ==> |call.pixels| <= 21845
    ensures Receive(conns[c].bytes) == Received(Delivered(calls, log, c), CutOff(calls, log, c))
    ensures Frames(Delivered(calls, log, c)) == DeliveredFrames(calls, log, c)
    ensures Whole(log, c) ==> CutOff(calls, log, c) == []
  {
    hide OnWire, Frames, DeliveredFrames, Delivered, CutOff, Receive, Message;
    assert forall i :: 0 <= i < |calls| ==> calls[i] in calls && Possible(calls[i], log[i], conns);
    assert BytesOn(conns, c) == OnWire(calls, log, c);
    ReceivedExactly(calls, log, c);
    DeliveredDecode(calls, log, c);
    if Whole(log, c) {
      NothingCutOff(calls, log, c);
    }
  }

  lemma PutOutcome(was: seq<int>, before: seq<Conn>, now: seq<int>, after: seq<Conn>, nextSink: nat,
                   sink: int, channel: u8, pixels: seq<Pixel>, ok: bool, c: int, sent: nat)
    requires |was| == |now| >= nextSink
    requires Progress(was, before, now, after, nextSink, sink, Message(channel, pixels), ok, c, sent)
    ensures ok <==> c != -1 && sent == 4 + 3 * |pixels|
  {
    hide Sent;
    MessageLong(channel, pixels);
  }

  /** One call of a run. */
  method Perform(client: Client, call: Call, ghost calls: seq<Call>, ghost log: seq<Attempt>)
    returns (ok: bool, ghost a: Attempt)
    requires client.Valid() && (call.PutPixels? ==> |call.pixels| <= 65535)
    requires History(calls, log, client.conns) && OpenWhole(client.sockids[..], client.nextSink, log)
    modifies client, client.sockids
    ensures client.Valid() && ok == a.ok
    ensures Healthy(call) ==> (ok <==> 0 <= call.sink < old(client.nextSink))
    ensures client.nextSink == if call.NewSink? && call.resolved && old(client.nextSink) < 64
                               then old(client.nextSink) + 1 else old(client.nextSink)
    ensures History(calls + [call], log + [a], client.conns)
    ensures OpenWhole(client.sockids[..], client.nextSink, log + [a])
  {
    hide OnWire, History, Message, Whole, Progress, Decode, MessagePart;
    ghost var was, before := client.sockids[..], client.conns;
    match call {
      case NewSink(resolved) =>
        var sink := client.NewSink(resolved);
        ok, a := sink >= 0, Attempt(sink >= 0, -1, 0);
        QuietContinues(client.sockids[..], client.nextSink, client.conns, calls, log, call, a);
      case PutPixels(sink, channel, pixels, net) =>
        ghost var c, sent;
        ok, c, sent := client.PutPixels(sink, channel, pixels, net);
        a := Attempt(ok, c, sent);
        PutOutcome(was, before, client.sockids[..], client.conns, client.nextSink, sink, channel, pixels, ok, c, sent);
        PutContinues(was, before, client.sockids[..], client.conns, client.nextSink, calls, log, call, a);
      case Close(sink) =>
        client.Close(sink);
        ok, a := true, Attempt(true, -1, 0);
        QuietContinues(client.sockids[..], client.nextSink, client.conns, calls, log, call, a);
    }
  }

  /** opc_put_pixel_list: the frame goes out on channel 0 in strip order; the result is always 0. Slots that no
      LED is wired to hold arbitrary colours. */
  method PutPixelList(client: Client, sink: int, pixels: array<Pixel>, info: List<PixelInfo>, net: Net)
    returns (result: u8, ghost frame: seq<Pixel>, ghost ok: bool, ghost c: int, ghost sent: nat)
    requires client.Valid()
    requires info.Valid() && WiringInside(info.Values()) && |info.Values()| <= pixels.Length
    modifies client`conns, client.sockids
    ensures client.Valid() && result == 0 && |frame| == NUM_PIXELS
    ensures forall c: nat, s: nat :: IsSlot(c, s) && WiredTo(old(info.Values()), c, s) >= 0 ==>
              Offset(c) + s < NUM_PIXELS && frame[Offset(c) + s] == old(pixels[WiredTo(info.Values(), c, s)])
    ensures Bijective(old(info.Values())) && pixels.Length == NUM_PIXELS ==>
              multiset(frame) == multiset(old(pixels[..]))
    ensures Progress(old(client.sockids[..]), old(client.conns), client.sockids[..], client.conns,
                     client.nextSink, sink, Message(0, frame), ok, c, sent)
    ensures Decode(Message(0, frame)) == Frame(0, 0, frame)
    ensures c != -1 <==> client.IsSink(sink) && (old(client.sockids[sink]) != -1 || net.answers)
    ensures c != -1 ==> sent == MessagePart(NUM_PIXELS, net)
  {
    hide Progress, WiredTo, Offset, Decode, MessagePart, Message;
    ghost var infos := info.Values();
    var organised := OrganisePixels(pixels, info);
    frame := organised[..];
    assert info.Values() == infos;
    assert forall c: nat, s: nat :: IsSlot(c, s) && WiredTo(infos, c, s) >= 0 ==>
             Offset(c) + s < NUM_PIXELS && frame[Offset(c) + s] == old(pixels[WiredTo(infos, c, s)]);
    if Bijective(infos) && pixels.Length == NUM_PIXELS {
      OrganisedPermutes(infos, pixels[..], frame);
    }
    var sentAll: bool;
    sentAll, c, sent := client.PutPixels(sink, 0, organised[..], net);
    ok := sentAll;
    result := 0;
  }
}
