/** A connection's buffers, and what the far side can decode of what was queued. */
module Connection {
  import opened Octets
  import opened Framing

  /** What `flush` leaves when the transport answers `sent` (-1 or 0 for nothing taken). */
  function AfterFlush(buffer: Bytes, sent: int): Bytes
    requires sent <= |buffer|
  {
    if buffer != [] && sent > 0 then buffer[sent..] else buffer
  }

  function Taken(buffer: Bytes, sent: int): Bytes
    requires sent <= |buffer|
  {
    if buffer != [] && sent > 0 then buffer[..sent] else []
  }

  class ClientConnection {
    var recvBuffer: Bytes
    var sendBuffer: Bytes

    constructor ()
      ensures recvBuffer == [] && sendBuffer == []
    {
      recvBuffer, sendBuffer := [], [];
    }

    method QueueSend(data: Bytes)
      modifies this`sendBuffer
      ensures sendBuffer == old(sendBuffer) + Frame(data)
    {
      sendBuffer := sendBuffer + EncodeU32(|data|);
      sendBuffer := sendBuffer + data;
    }

    /** `sent` and `wouldBlock` are the transport's answer; it may take any prefix. */
    method Flush(sent: int, wouldBlock: bool) returns (ok: bool)
      requires sent <= |sendBuffer|
      modifies this`sendBuffer
      ensures sendBuffer == AfterFlush(old(sendBuffer), sent)
      ensures old(sendBuffer) == Taken(old(sendBuffer), sent) + sendBuffer
      ensures ok <==> sendBuffer == [] || (sent == -1 && wouldBlock)
    {
      if sendBuffer == [] {
        return true;
      }
      if sent > 0 {
        sendBuffer := sendBuffer[sent..];
        return sendBuffer == [];
      }
      return sent == -1 && wouldBlock;
    }

    /** Append what arrived, then hand over every complete message. */
    method HandleReadable(chunk: Bytes) returns (messages: seq<Bytes>)
      requires InRange(recvBuffer + chunk)
      modifies this`recvBuffer
      ensures Drained(messages, recvBuffer) == Drain(old(recvBuffer) + chunk)
    {
      recvBuffer := recvBuffer + chunk;
      messages, recvBuffer := DrainBuffer(recvBuffer);
    }
  }

  // --- Every interleaving of queueing and flushing ---

  datatype Event = Queue(data: Bytes) | Flush(sent: int)

  /** Messages queued so far, chunks the transport has taken, bytes still buffered. */
  datatype Link = Link(queued: seq<Bytes>, taken: seq<Bytes>, buffer: Bytes)

  predicate Possible(l: Link, e: Event) {
    e.Flush? ==> e.sent <= |l.buffer|
  }

  function Step(l: Link, e: Event): Link
    requires Possible(l, e)
  {
    match e
    case Queue(data) => l.(queued := l.queued + [data], buffer := l.buffer + Frame(data))
    case Flush(sent) => l.(taken := l.taken + [Taken(l.buffer, sent)], buffer := AfterFlush(l.buffer, sent))
  }

  ghost predicate Run(events: seq<Event>, links: seq<Link>) {
    && |links| == |events| + 1
    && links[0] == Link([], [], [])
    && forall i :: 0 <= i < |events| ==> Possible(links[i], events[i]) && links[i + 1] == Step(links[i], events[i])
  }

  lemma StepConserves(l: Link, e: Event)
    requires Possible(l, e)
    requires Concat(l.taken) + l.buffer == Stream(l.queued)
    ensures var l' := Step(l, e); Concat(l'.taken) + l'.buffer == Stream(l'.queued)
  {
    match e
    case Queue(data) =>
      StreamSnoc(l.queued, data);
      assert Concat(l.taken) + (l.buffer + Frame(data)) == Concat(l.taken) + l.buffer + Frame(data);
    case Flush(sent) =>
      var head, rest := Taken(l.buffer, sent), AfterFlush(l.buffer, sent);
      assert l.buffer == head + rest;
      assert (l.taken + [head])[..|l.taken|] == l.taken;
      assert Concat(l.taken) + head + rest == Concat(l.taken) + (head + rest);
  }

  /** Bytes taken so far and bytes still buffered are together the frames of everything queued. */
  lemma {:induction false} BytesConserved(events: seq<Event>, links: seq<Link>, n: nat)
    requires Run(events, links) && n < |links|
    ensures Concat(links[n].taken) + links[n].buffer == Stream(links[n].queued)
  {
    if n > 0 {
      BytesConserved(events, links, n - 1);
      StepConserves(links[n - 1], events[n - 1]);
    }
  }

  /** At every moment of every run, a far side that drains each chunk as it comes has decoded a prefix of the
      queued messages; it has decoded all of them once the buffer is flushed. */
  lemma FarSideDecodesPrefix(events: seq<Event>, links: seq<Link>, n: nat)
    requires Run(events, links) && n < |links|
    requires Frameable(links[n].queued)
    ensures Feed(links[n].taken).messages <= links[n].queued
    ensures links[n].buffer == [] ==> Feed(links[n].taken) == Drained(links[n].queued, [])
  {
    BytesConserved(events, links, n);
    TruncatedStreamGivesPrefix(links[n].queued, links[n].taken, links[n].buffer);
  }
}
