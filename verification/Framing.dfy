/** Length-prefixed framing of a byte stream. */
module Framing {
  import opened Octets

  /** The largest declared length for which `4 + len` does not wrap in 32 bits. */
  const MAX_FRAME := U32_LIMIT - 5

  function Frame(data: Bytes): Bytes {
    EncodeU32(|data|) + data
  }

  function Stream(messages: seq<Bytes>): Bytes {
    if messages == [] then [] else Frame(messages[0]) + Stream(messages[1..])
  }

  function Declared(buffer: Bytes): nat
    requires |buffer| >= 4
  {
    DecodeU32(buffer[..4])
  }

  /** The sum is 32-bit arithmetic, as in the source. */
  predicate HasMessage(buffer: Bytes) {
    |buffer| >= 4 && |buffer| >= (4 + Declared(buffer)) % U32_LIMIT
  }

  /** A whole frame really is there, so that extracting one stays in bounds. */
  predicate Complete(buffer: Bytes) {
    |buffer| >= 4 && |buffer| >= 4 + Declared(buffer)
  }

  /** The two agree exactly when the sum does not wrap past an incomplete frame. */
  lemma HasMessageIff(buffer: Bytes)
    ensures (HasMessage(buffer) <==> Complete(buffer)) <==>
            (|buffer| < 4 || Declared(buffer) <= MAX_FRAME || |buffer| >= 4 + Declared(buffer))
  {
  }

  /** Four bytes that declare 2^32 - 1 more pass for a message. */
  lemma WrappedSumPasses()
    ensures var buffer: Bytes := [255, 255, 255, 255]; HasMessage(buffer) && !Complete(buffer)
  {
    var buffer: Bytes := [255, 255, 255, 255];
    assert buffer[..4] == buffer;
  }

  method ExtractMessage(buffer: Bytes) returns (message: Bytes, rest: Bytes)
    requires Complete(buffer)
    ensures message == buffer[4..4 + Declared(buffer)] && rest == buffer[4 + Declared(buffer)..]
    ensures buffer == EncodeU32(|message|) + message + rest
  {
    var len := DecodeU32(buffer[..4]);
    message := buffer[4..4 + len];
    rest := buffer[4 + len..];
    U32Canonical(buffer[..4]);
  }

  /** The transport's own extraction, whose bound is computed in 64 bits. It succeeds exactly when the framer sees
      a message, for every length whose framing sum does not wrap, and takes out the same bytes. */
  method ExtractCompleteMessage(buffer: Bytes) returns (message: Option<Bytes>, rest: Bytes)
    ensures message.Some? <==> Complete(buffer)
    ensures |buffer| < 4 || Declared(buffer) <= MAX_FRAME ==> (message.Some? <==> HasMessage(buffer))
    ensures message.None? ==> rest == buffer
    ensures message.Some? ==> message.value == buffer[4..4 + Declared(buffer)] && rest == buffer[4 + Declared(buffer)..]
  {
    HasMessageIff(buffer);
    if |buffer| < 4 {
      return None, buffer;
    }
    var len := DecodeU32(buffer[..4]);
    if |buffer| < 4 + len {
      return None, buffer;
    }
    return Some(buffer[4..4 + len]), buffer[4 + len..];
  }

  // --- Draining ---

  datatype Drained = Drained(messages: seq<Bytes>, rest: Bytes)

  /** Everything that can be taken out of a buffer, and what stays. */
  function Drain(buffer: Bytes): Drained
    decreases |buffer|
  {
    if !Complete(buffer) then Drained([], buffer) else
    var end := 4 + Declared(buffer);
    var more := Drain(buffer[end..]);
    Drained([buffer[4..end]] + more.messages, more.rest)
  }

  /** No frame that draining reaches declares a length whose bound would wrap. */
  predicate InRange(buffer: Bytes)
    decreases |buffer|
  {
    |buffer| >= 4 ==>
      && Declared(buffer) <= MAX_FRAME
      && (Complete(buffer) ==> InRange(buffer[4 + Declared(buffer)..]))
  }

  /** The receive loop: it ends because each extraction removes at least four bytes. */
  method DrainBuffer(buffer: Bytes) returns (messages: seq<Bytes>, rest: Bytes)
    requires InRange(buffer)
    ensures Drained(messages, rest) == Drain(buffer)
  {
    hide DecodeU32, EncodeU32;
    messages, rest := [], buffer;
    while HasMessage(rest)
      invariant InRange(rest)
      invariant Drain(buffer) == Drained(messages + Drain(rest).messages, Drain(rest).rest)
      decreases |rest|
    {
      HasMessageIff(rest);
      var message, rest' := ExtractMessage(rest);
      assert rest[4 + Declared(rest)..] == rest';
      assert messages + ([message] + Drain(rest').messages) == messages + [message] + Drain(rest').messages;
      messages, rest := messages + [message], rest';
    }
    HasMessageIff(rest);
  }

  lemma FirstFrameUnaffected(a: Bytes, b: Bytes)
    requires |a| >= 4
    ensures Declared(a + b) == Declared(a)
    ensures Complete(a) ==> var end := 4 + Declared(a);
            Complete(a + b) && (a + b)[4..end] == a[4..end] && (a + b)[end..] == a[end..] + b
  {
    assert (a + b)[..4] == a[..4];
  }

  /** Draining a buffer and then, with more bytes behind it, its remainder is draining the whole. */
  lemma {:induction false} DrainInTwo(a: Bytes, b: Bytes)
    ensures Drain(a + b) ==
            Drained(Drain(a).messages + Drain(Drain(a).rest + b).messages, Drain(Drain(a).rest + b).rest)
    decreases |a|
  {
    hide Declared;
    if Complete(a) {
      FirstFrameUnaffected(a, b);
      var end := 4 + Declared(a);
      DrainInTwo(a[end..], b);
      DrainUnfolds(a + b, a[4..end], a[end..] + b);
      DrainUnfolds(a, a[4..end], a[end..]);
    }
  }

  lemma DrainUnfolds(buffer: Bytes, first: Bytes, rest: Bytes)
    requires Complete(buffer)
    requires first == buffer[4..4 + Declared(buffer)] && rest == buffer[4 + Declared(buffer)..]
    ensures Drain(buffer) == Drained([first] + Drain(rest).messages, Drain(rest).rest)
  {
  }

  lemma {:induction false} InRangePrefix(a: Bytes, b: Bytes)
    requires InRange(a + b)
    ensures InRange(a) && InRange(Drain(a).rest + b)
    decreases |a|
  {
    hide Declared;
    if |a| >= 4 {
      FirstFrameUnaffected(a, b);
      if Complete(a) {
        InRangePrefix(a[4 + Declared(a)..], b);
      }
    }
  }

  function Concat(chunks: seq<Bytes>): Bytes {
    if chunks == [] then [] else Concat(chunks[..|chunks| - 1]) + chunks[|chunks| - 1]
  }

  /** Append a chunk, drain, and so on: what has been delivered and what waits after all the chunks. */
  function Feed(chunks: seq<Bytes>): Drained {
    if chunks == [] then Drained([], []) else
    var before := Feed(chunks[..|chunks| - 1]);
    var now := Drain(before.rest + chunks[|chunks| - 1]);
    Drained(before.messages + now.messages, now.rest)
  }

  /** However a stream is cut into chunks, the same messages come out and the same bytes wait. */
  lemma {:induction false} ChunkingIsIrrelevant(chunks: seq<Bytes>)
    ensures Feed(chunks) == Drain(Concat(chunks))
  {
    if chunks != [] {
      var front, last := chunks[..|chunks| - 1], chunks[|chunks| - 1];
      ChunkingIsIrrelevant(front);
      DrainInTwo(Concat(front), last);
    }
  }

  lemma FrameIsComplete(data: Bytes, rest: Bytes)
    requires |data| <= MAX_FRAME
    ensures var b := Frame(data) + rest;
            && Complete(b) && Declared(b) == |data| && b[4..4 + |data|] == data && b[4 + |data|..] == rest
  {
    hide DecodeU32, EncodeU32;
    U32RoundTrip(|data|);
    assert (Frame(data) + rest)[..4] == EncodeU32(|data|);
  }

  predicate Frameable(messages: seq<Bytes>) {
    forall i :: 0 <= i < |messages| ==> |messages[i]| <= MAX_FRAME
  }

  /** The framed stream of any messages drains to those messages, with nothing left. */
  lemma {:induction false} StreamDrains(messages: seq<Bytes>)
    requires Frameable(messages)
    ensures Drain(Stream(messages)) == Drained(messages, [])
    ensures InRange(Stream(messages))
  {
    if messages != [] {
      FrameIsComplete(messages[0], Stream(messages[1..]));
      StreamDrains(messages[1..]);
      assert [messages[0]] + messages[1..] == messages;
    }
  }

  /** A truncated stream, in any chunks, delivers a prefix of the messages; what follows delivers the others. */
  lemma TruncatedStreamGivesPrefix(messages: seq<Bytes>, chunks: seq<Bytes>, missing: Bytes)
    requires Frameable(messages)
    requires Concat(chunks) + missing == Stream(messages)
    ensures Feed(chunks).messages <= messages
    ensures messages == Feed(chunks).messages + Drain(Feed(chunks).rest + missing).messages
    ensures missing == [] ==> Feed(chunks) == Drained(messages, [])
    ensures InRange(Concat(chunks))
  {
    StreamDrains(messages);
    ChunkingIsIrrelevant(chunks);
    DrainInTwo(Concat(chunks), missing);
    InRangePrefix(Concat(chunks), missing);
    if missing == [] {
      assert Concat(chunks) + missing == Concat(chunks);
    }
  }

  lemma {:induction false} StreamSnoc(messages: seq<Bytes>, m: Bytes)
    ensures Stream(messages + [m]) == Stream(messages) + Frame(m)
  {
    if messages == [] {
      assert [m][1..] == [] && Frame(m) + [] == Frame(m);
    } else {
      assert (messages + [m])[1..] == messages[1..] + [m];
      StreamSnoc(messages[1..], m);
    }
  }
}
