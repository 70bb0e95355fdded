/** Every run of a client's private messages, key responses and arrivals: what it queued is what it sent and what
    still waits, unless a message was too large to send. */
module ClientRuns {
  import opened Octets
  import opened Identities
  import opened SealedBox
  import opened ClientSession
  import MessageQueue

  datatype Event =
    | PrivateMessage(recipient: Bytes, payload: Bytes)
    | KeyResponse(peer: Bytes, key: Bytes, identity: Bytes)
    | Received(sender: Bytes, addressed: Bytes, attached: Keys, payload: Bytes)

  function Step(self: Self, s: State, e: Event): State {
    match e
    case PrivateMessage(recipient, payload) => PushStep(s, recipient, payload)
    case KeyResponse(peer, key, identity) => KeyStep(self, s, peer, key, identity)
    case Received(sender, addressed, attached, payload) => ReceiveStep(self, s, sender, addressed, attached, payload)
  }

  ghost predicate Run(self: Self, states: seq<State>, events: seq<Event>) {
    && |states| == |events| + 1 && states[0] == FRESH
    && forall i :: 0 <= i < |events| ==> states[i + 1] == Step(self, states[i], events[i])
  }

  lemma RunStep(self: Self, states: seq<State>, events: seq<Event>, i: nat)
    requires Run(self, states, events) && i < |events|
    ensures states[i + 1] == Step(self, states[i], events[i])
  {
  }

  /** The payload an event adds to the queue for `r`: none for another recipient, an empty argument or a full ring. */
  function Kept(s: State, e: Event, r: Bytes): seq<Bytes> {
    if e.PrivateMessage? && e.recipient == r && r != [] && e.payload != []
       && |MessageQueue.Lookup(s.queues, r)| < MessageQueue.RING_SIZE - 1
    then [e.payload] else []
  }

  function AllKept(states: seq<State>, events: seq<Event>, n: nat, r: Bytes): seq<Bytes>
    requires n <= |events| <= |states|
  {
    if n == 0 then [] else AllKept(states, events, n - 1, r) + Kept(states[n - 1], events[n - 1], r)
  }

  /** What was taken off the queue for `r`, sent or not. */
  function HandedOver(log: seq<Popped>, r: Bytes): seq<Bytes> {
    if log == [] then [] else
    var before := HandedOver(log[..|log| - 1], r);
    var last := log[|log| - 1];
    if last.recipient == r then before + [last.plaintext] else before
  }

  /** What went out to `r`. */
  function SentTo(log: seq<Popped>, r: Bytes): seq<Bytes> {
    if log == [] then [] else
    var before := SentTo(log[..|log| - 1], r);
    var last := log[|log| - 1];
    if last.recipient == r && last.wire.Ok? then before + [last.plaintext] else before
  }

  // --- Queued is handed over, then waiting ---

  lemma {:induction false} HandedOverConcat(log: seq<Popped>, more: seq<Popped>, r: Bytes)
    ensures HandedOver(log + more, r) == HandedOver(log, r) + HandedOver(more, r)
  {
    if more == [] {
      assert log + more == log;
    } else {
      var n := |more| - 1;
      assert (log + more)[..|log| + n] == log + more[..n];
      HandedOverConcat(log, more[..n], r);
    }
  }

  lemma {:induction false} SentToConcat(log: seq<Popped>, more: seq<Popped>, r: Bytes)
    ensures SentTo(log + more, r) == SentTo(log, r) + SentTo(more, r)
  {
    if more == [] {
      assert log + more == log;
    } else {
      var n := |more| - 1;
      assert (log + more)[..|log| + n] == log + more[..n];
      SentToConcat(log, more[..n], r);
    }
  }

  lemma {:induction false} HandedOverOf(log: seq<Popped>, peer: Bytes, r: Bytes, queue: seq<Bytes>)
    requires |log| <= |queue|
    requires forall i :: 0 <= i < |log| ==> log[i].recipient == peer && log[i].plaintext == queue[i]
    ensures HandedOver(log, r) == if r == peer then queue[..|log|] else []
  {
    if log != [] {
      var n := |log| - 1;
      HandedOverOf(log[..n], peer, r, queue);
      assert queue[..n + 1] == queue[..n] + [queue[n]];
    }
  }

  ghost predicate CountersInWord(s: State) {
    forall p :: p in s.counters ==> s.counters[p] < U64_LIMIT
  }

  lemma {:induction false} DrainCounter(self: Self, recipient: Bytes, key: Bytes, queue: seq<Bytes>, counter: nat, draw: nat)
    requires counter < U64_LIMIT
    ensures DrainFrom(self, recipient, key, queue, counter, draw).counter < U64_LIMIT
  {
    hide Seal, Advance;
    if queue != [] {
      AdvanceAdds(counter, 1);
      DrainCounter(self, recipient, key, queue[1..], Advance(counter, 1), draw + 1);
    }
  }

  lemma PushConserves(s: State, recipient: Bytes, payload: Bytes, r: Bytes)
    ensures var s' := PushStep(s, recipient, payload);
            MessageQueue.Lookup(s'.queues, r)
            == MessageQueue.Lookup(s.queues, r) + Kept(s, PrivateMessage(recipient, payload), r)
  {
  }

  lemma DrainConserves(self: Self, s: State, peer: Bytes, key: Bytes, r: Bytes)
    requires CountersInWord(s)
    ensures var s' := DrainStep(self, s, peer, key);
            && CountersInWord(s')
            && HandedOver(s'.log, r) + MessageQueue.Lookup(s'.queues, r)
               == HandedOver(s.log, r) + MessageQueue.Lookup(s.queues, r)
  {
    hide Seal, DrainFrom, HandedOver;
    var q := MessageQueue.Lookup(s.queues, peer);
    var c := CounterOf(s.counters, peer);
    if q != [] {
      DrainInOrder(self, peer, key, q, c, s.draws);
      DrainCounter(self, peer, key, q, c, s.draws);
      var d := DrainFrom(self, peer, key, q, c, s.draws);
      LogRecipients(self, peer, key, q, c, s.draws);
      HandedOverConcat(s.log, d.log, r);
      HandedOverOf(d.log, peer, r, q);
      if r == peer {
        assert q == q[..|d.log|] + q[|d.log|..];
        assert HandedOver(s.log, r) + q[..|d.log|] + d.left == HandedOver(s.log, r) + q;
      } else {
        assert HandedOver(s.log, r) + [] == HandedOver(s.log, r);
      }
    }
  }

  lemma LogRecipients(self: Self, peer: Bytes, key: Bytes, q: seq<Bytes>, c: nat, draw: nat)
    requires c < U64_LIMIT
    ensures var d := DrainFrom(self, peer, key, q, c, draw);
            |d.log| <= |q| && forall i :: 0 <= i < |d.log| ==> d.log[i].recipient == peer && d.log[i].plaintext == q[i]
  {
    DrainInOrder(self, peer, key, q, c, draw);
  }

  /** Receiving advances a counter and touches neither queues nor log. */
  lemma ReceiveConserves(self: Self, s: State, e: Event)
    requires CountersInWord(s) && e.Received?
    ensures var s' := Step(self, s, e); CountersInWord(s') && s'.log == s.log && s'.queues == s.queues
  {
    hide Read, Advance;
    AdvanceAdds(CounterOf(s.counters, e.sender), 1);
  }

  lemma KeyConserves(self: Self, s: State, e: Event, r: Bytes)
    requires CountersInWord(s) && e.KeyResponse?
    ensures var s' := Step(self, s, e);
            && CountersInWord(s')
            && HandedOver(s'.log, r) + MessageQueue.Lookup(s'.queues, r)
               == HandedOver(s.log, r) + MessageQueue.Lookup(s.queues, r)
  {
    hide HandedOver, DrainStep, MessageQueue.Lookup;
    DrainConserves(self, CacheStep(self, s, e.peer, e.key), e.peer, e.key, r);
  }

  lemma StepConserves(self: Self, s: State, e: Event, r: Bytes)
    requires CountersInWord(s)
    ensures var s' := Step(self, s, e);
            && CountersInWord(s')
            && HandedOver(s'.log, r) + MessageQueue.Lookup(s'.queues, r)
               == HandedOver(s.log, r) + MessageQueue.Lookup(s.queues, r) + Kept(s, e, r)
  {
    hide HandedOver, KeyStep, ReceiveStep, MessageQueue.Lookup;
    match e
    case PrivateMessage(recipient, payload) =>
      PushConserves(s, recipient, payload, r);
      assert HandedOver(s.log, r) + (MessageQueue.Lookup(s.queues, r) + Kept(s, e, r))
          == HandedOver(s.log, r) + MessageQueue.Lookup(s.queues, r) + Kept(s, e, r);
    case KeyResponse(_, _, _) => KeyConserves(self, s, e, r);
    case Received(_, _, _, _) => ReceiveConserves(self, s, e);
  }

  /** In every run and for every recipient on its own: what was queued and not dropped by a full ring is what has been
      taken off the queue, in order, followed by what still waits. */
  lemma {:induction false} QueueConserved(self: Self, states: seq<State>, events: seq<Event>, n: nat, r: Bytes)
    requires Run(self, states, events) && n < |states|
    ensures CountersInWord(states[n])
    ensures AllKept(states, events, n, r) == HandedOver(states[n].log, r) + MessageQueue.Lookup(states[n].queues, r)
  {
    hide Step, HandedOver, Kept, MessageQueue.Lookup;
    if n == 0 {
      NothingYet(r);
    } else {
      RunStep(self, states, events, n - 1);
      hide Run;
      QueueConserved(self, states, events, n - 1, r);
      StepConserves(self, states[n - 1], events[n - 1], r);
    }
  }

  lemma NothingYet(r: Bytes)
    ensures HandedOver([], r) + MessageQueue.Lookup(map[], r) == []
  {
  }

  // --- Handed over is sent, unless oversized ---

  ghost predicate Working(self: Self) {
    Correct(self.crypto.cipher) && forall n :: |self.iv(n)| == IV_LEN
  }

  predicate Sendable(self: Self, r: Bytes, plaintext: Bytes) {
    CipherWireSize(self, r, plaintext) < U32_LIMIT
  }

  function Fitting(self: Self, r: Bytes, payloads: seq<Bytes>): (sent: seq<Bytes>)
    ensures |sent| <= |payloads|
    ensures |sent| == |payloads| <==> forall p :: p in payloads ==> Sendable(self, r, p)
    ensures |sent| == |payloads| ==> sent == payloads
  {
    if payloads == [] then [] else
    var last := payloads[|payloads| - 1];
    var before := Fitting(self, r, payloads[..|payloads| - 1]);
    assert payloads == payloads[..|payloads| - 1] + [last];
    if Sendable(self, r, last) then before + [last] else before
  }

  ghost predicate LogOk(self: Self, log: seq<Popped>) {
    forall i :: 0 <= i < |log| ==> (log[i].wire.Ok? <==> Sendable(self, log[i].recipient, log[i].plaintext))
  }

  lemma DrainLogOk(self: Self, peer: Bytes, key: Bytes, q: seq<Bytes>, c: nat, draw: nat)
    requires Working(self) && c < U64_LIMIT
    ensures LogOk(self, DrainFrom(self, peer, key, q, c, draw).log)
  {
    DrainInOrder(self, peer, key, q, c, draw);
    var d := DrainFrom(self, peer, key, q, c, draw);
    forall i | 0 <= i < |d.log|
      ensures d.log[i].wire.Ok? <==> Sendable(self, d.log[i].recipient, d.log[i].plaintext)
    {
      AdvanceAdds(c, i);
      SealFailsIffTooLarge(self, peer, key, q[i], Advance(c, i), draw + i);
    }
  }

  lemma StepKeepsLogOk(self: Self, s: State, e: Event)
    requires Working(self) && CountersInWord(s) && LogOk(self, s.log)
    ensures LogOk(self, Step(self, s, e).log)
  {
    hide DrainFrom, Read, MessageQueue.Enqueued;
    if e.KeyResponse? {
      DrainLogOk(self, e.peer, e.key, MessageQueue.Lookup(s.queues, e.peer), CounterOf(s.counters, e.peer), s.draws);
    }
  }

  lemma {:induction false} RunKeepsLogOk(self: Self, states: seq<State>, events: seq<Event>, n: nat)
    requires Working(self) && Run(self, states, events) && n < |states|
    ensures LogOk(self, states[n].log)
  {
    hide Step, LogOk;
    if n > 0 {
      RunStep(self, states, events, n - 1);
      RunKeepsLogOk(self, states, events, n - 1);
      QueueConserved(self, states, events, n - 1, []);
      StepKeepsLogOk(self, states[n - 1], events[n - 1]);
    } else {
      NothingLogged(self);
    }
  }

  lemma NothingLogged(self: Self)
    ensures LogOk(self, [])
  {
  }

  lemma {:induction false} SentIsFitting(self: Self, log: seq<Popped>, r: Bytes)
    requires LogOk(self, log)
    ensures SentTo(log, r) == Fitting(self, r, HandedOver(log, r))
  {
    if log != [] {
      var n := |log| - 1;
      SentIsFitting(self, log[..n], r);
      var before := HandedOver(log[..n], r);
      assert (before + [log[n].plaintext])[..|before|] == before;
      hide Sendable;
    }
  }

  /** In every run and for every recipient: what was sent is what was taken off the queue without exactly the payloads
      whose sealed message does not fit a 32-bit length; and what was queued is what was sent, then what still waits,
      exactly when none of the payloads taken off is that large. */
  lemma QueuedIsSentIff(self: Self, states: seq<State>, events: seq<Event>, n: nat, r: Bytes)
    requires Working(self) && Run(self, states, events) && n < |states|
    ensures var taken, sent := HandedOver(states[n].log, r), SentTo(states[n].log, r);
            && sent == Fitting(self, r, taken)
            && (AllKept(states, events, n, r) == sent + MessageQueue.Lookup(states[n].queues, r)
                <==> forall p :: p in taken ==> Sendable(self, r, p))
  {
    hide Run, HandedOver, SentTo, LogOk, AllKept, MessageQueue.Lookup, Sendable, Working;
    QueueConserved(self, states, events, n, r);
    RunKeepsLogOk(self, states, events, n);
    SentIsFitting(self, states[n].log, r);
    hide Fitting;
    var taken, sent := HandedOver(states[n].log, r), SentTo(states[n].log, r);
    var waiting := MessageQueue.Lookup(states[n].queues, r);
    if taken + waiting == sent + waiting {
      assert |taken| == |sent|;
    }
  }

  /** One oversized payload with another behind it: the first is gone though nothing was sent, the second still waits,
      and the counter has not moved. */
  lemma OversizedIsLost(self: Self, r: Bytes, key: Bytes, identity: Bytes, big: Bytes, next: Bytes)
    returns (states: seq<State>, events: seq<Event>)
    requires Working(self) && self.crypto.parses(key) && self.crypto.parses(identity)
    requires r != [] && big != [] && next != [] && !Sendable(self, r, big)
    ensures Run(self, states, events)
    ensures events == [PrivateMessage(r, big), PrivateMessage(r, next), KeyResponse(r, key, identity)]
    ensures var s := states[3];
            && SentTo(s.log, r) == [] && HandedOver(s.log, r) == [big] && |s.log| == 1 && s.log[0].wire.Err?
            && MessageQueue.Lookup(s.queues, r) == [next] && CounterOf(s.counters, r) == 0
  {
    hide Seal, DrainFrom, HandedOver, SentTo, Working, Sendable;
    events := [PrivateMessage(r, big), PrivateMessage(r, next), KeyResponse(r, key, identity)];
    var s1 := Step(self, FRESH, events[0]);
    var s2 := Step(self, s1, events[1]);
    assert MessageQueue.Lookup(s2.queues, r) == [big, next];
    var p := OversizedEndsDrain(self, r, key, big, next);
    var s3 := Step(self, s2, events[2]);
    assert s3.log == [p];
    states := [FRESH, s1, s2, s3];
  }

  lemma OversizedEndsDrain(self: Self, r: Bytes, key: Bytes, big: Bytes, next: Bytes) returns (p: Popped)
    requires Working(self) && !Sendable(self, r, big)
    ensures DrainFrom(self, r, key, [big, next], 0, 0) == Drain([p], [next], 0) && p.wire.Err?
    ensures HandedOver([p], r) == [big] && SentTo([p], r) == []
  {
    hide Seal;
    SealFailsIffTooLarge(self, r, key, big, 0, 0);
    SealKeepsFields(self, r, key, big, 0, 0);
    p := Seal(self, r, key, big, 0, 0);
    assert [big, next][1..] == [next] && [p][..0] == [];
  }

  lemma SealKeepsFields(self: Self, r: Bytes, key: Bytes, plaintext: Bytes, counter: nat, draw: nat)
    ensures var p := Seal(self, r, key, plaintext, counter, draw); p.recipient == r && p.plaintext == plaintext
  {
  }

  // --- The client object ---

  lemma RunGrows(self: Self, states: seq<State>, events: seq<Event>, e: Event)
    requires Run(self, states, events)
    ensures Run(self, states + [Step(self, states[|events|], e)], events + [e])
  {
    hide Step;
  }

  method Handle(client: Client, e: Event)
    requires client.Valid()
    modifies client, client.mq, client.mq.Repr()
    ensures client.Valid() && fresh(client.mq.Repr() - old(client.mq.Repr()))
    ensures client.Value() == Step(client.self, old(client.Value()), e)
  {
    hide PushStep, KeyStep, ReceiveStep;
    match e
    case PrivateMessage(recipient, payload) => client.PrivateMessage(recipient, payload);
    case KeyResponse(peer, key, identity) => client.HandleKeyResponse(peer, key, identity);
    case Received(sender, addressed, attached, payload) =>
      var _ := client.ProcessEncryptedMessage(sender, addressed, attached, payload);
  }

  /** Whatever happens to a client object from its start is a run, so that what is proved of runs holds of the object. */
  method Live(client: Client, events: seq<Event>) returns (ghost states: seq<State>)
    requires client.Valid() && client.Value() == FRESH
    modifies client, client.mq, client.mq.Repr()
    ensures client.Valid() && Run(client.self, states, events) && states[|events|] == client.Value()
  {
    hide Step;
    states := [FRESH];
    for i := 0 to |events|
      invariant client.Valid() && fresh(client.mq.Repr() - old(client.mq.Repr()))
      invariant Run(client.self, states, events[..i]) && states[i] == client.Value()
    {
      Handle(client, events[i]);
      RunGrows(client.self, states, events[..i], events[i]);
      assert events[..i] + [events[i]] == events[..i + 1];
      states := states + [client.Value()];
    }
    assert events[..|events|] == events;
  }
}
