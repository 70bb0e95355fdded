/** What a client does with its private messages, told from the events of a run alone: no queues, rings, logs or
    counters, one recipient at a time. */
module ClientOutbox {
  import opened Octets
  import opened Identities
  import CounterProtocol
  import opened ClientSession
  import opened ClientRuns
  import MessageQueue

  datatype Outbox = Outbox(waiting: seq<Bytes>, sent: seq<Bytes>)

  predicate KeysParse(self: Self, e: Event)
    requires e.KeyResponse?
  {
    self.crypto.parses(e.key) && self.crypto.parses(e.identity)
  }

  /** Send what waits, oldest first, until one is too large, which is lost. */
  function Flushed(self: Self, r: Bytes, o: Outbox): Outbox
    decreases |o.waiting|
  {
    if o.waiting == [] then o
    else if !Sendable(self, r, o.waiting[0]) then Outbox(o.waiting[1..], o.sent)
    else Flushed(self, r, Outbox(o.waiting[1..], o.sent + [o.waiting[0]]))
  }

  predicate Asks(e: Event, r: Bytes) {
    e.PrivateMessage? && e.recipient == r && r != [] && e.payload != []
  }

  function After(self: Self, r: Bytes, o: Outbox, e: Event): Outbox {
    if Asks(e, r) then (if |o.waiting| < 4095 then o.(waiting := o.waiting + [e.payload]) else o)
    else if e.KeyResponse? && e.peer == r && KeysParse(self, e) then Flushed(self, r, o)
    else o
  }

  function OutboxOf(self: Self, r: Bytes, events: seq<Event>): Outbox {
    if events == [] then Outbox([], []) else
    After(self, r, OutboxOf(self, r, events[..|events| - 1]), events[|events| - 1])
  }

  // --- Draining is flushing ---

  lemma SentToOne(p: Popped, r: Bytes)
    ensures SentTo([p], r) == if p.recipient == r && p.wire.Ok? then [p.plaintext] else []
  {
    assert [p][..0] == [];
  }

  lemma {:induction false} DrainIsFlush(self: Self, r: Bytes, key: Bytes, q: seq<Bytes>, c: nat, draw: nat, before: seq<Bytes>)
    requires Working(self) && c < U64_LIMIT
    ensures var d := DrainFrom(self, r, key, q, c, draw);
            Flushed(self, r, Outbox(q, before)) == Outbox(d.left, before + SentTo(d.log, r))
    decreases |q|
  {
    hide Seal, Advance, SentTo, Sendable, Working;
    if q == [] {
      NothingSent(r);
      assert before + [] == before;
    } else {
      var p := Seal(self, r, key, q[0], c, draw);
      SealFits(self, r, key, q[0], c, draw);
      SentToOne(p, r);
      AdvanceAdds(c, 1);
      if p.wire.Ok? {
        var rest := DrainFrom(self, r, key, q[1..], Advance(c, 1), draw + 1);
        DrainIsFlush(self, r, key, q[1..], Advance(c, 1), draw + 1, before + [q[0]]);
        SentToConcat([p], rest.log, r);
        assert before + [q[0]] + SentTo(rest.log, r) == before + ([q[0]] + SentTo(rest.log, r));
      } else {
        assert before + [] == before;
      }
    }
  }

  lemma SealFits(self: Self, r: Bytes, key: Bytes, plaintext: Bytes, c: nat, draw: nat)
    requires Working(self) && c < U64_LIMIT
    ensures var p := Seal(self, r, key, plaintext, c, draw);
            p.recipient == r && p.plaintext == plaintext && (p.wire.Ok? <==> Sendable(self, r, plaintext))
  {
    SealFailsIffTooLarge(self, r, key, plaintext, c, draw);
    SealKeepsFields(self, r, key, plaintext, c, draw);
  }

  lemma NothingSent(r: Bytes)
    ensures SentTo([], r) == []
  {
  }

  lemma {:induction false} OthersUnsent(log: seq<Popped>, peer: Bytes, r: Bytes)
    requires r != peer && forall i :: 0 <= i < |log| ==> log[i].recipient == peer
    ensures SentTo(log, r) == []
  {
    if log != [] {
      OthersUnsent(log[..|log| - 1], peer, r);
    }
  }

  // --- Every run ---

  function OutboxIn(s: State, r: Bytes): Outbox {
    Outbox(MessageQueue.Lookup(s.queues, r), SentTo(s.log, r))
  }

  lemma DrainMatches(self: Self, s: State, peer: Bytes, key: Bytes, r: Bytes)
    requires Working(self) && CountersInWord(s)
    ensures OutboxIn(DrainStep(self, s, peer, key), r)
            == if r == peer then Flushed(self, r, OutboxIn(s, r)) else OutboxIn(s, r)
  {
    hide SentTo, DrainFrom, Working, Sendable, Advance;
    var q, c := MessageQueue.Lookup(s.queues, peer), CounterOf(s.counters, peer);
    if q != [] {
      var d := DrainFrom(self, peer, key, q, c, s.draws);
      SentToConcat(s.log, d.log, r);
      if r == peer {
        DrainIsFlush(self, r, key, q, c, s.draws, SentTo(s.log, r));
      } else {
        LogRecipients(self, peer, key, q, c, s.draws);
        OthersUnsent(d.log, peer, r);
        assert SentTo(s.log, r) + [] == SentTo(s.log, r);
      }
    }
  }

  lemma StepMatches(self: Self, s: State, e: Event, r: Bytes)
    requires Working(self) && CountersInWord(s)
    ensures OutboxIn(Step(self, s, e), r) == After(self, r, OutboxIn(s, r), e)
  {
    hide SentTo, DrainStep, Flushed, Working, Read, Advance;
    if e.KeyResponse? {
      DrainMatches(self, CacheStep(self, s, e.peer, e.key), e.peer, e.key, r);
    }
  }

  /** In every run and for every recipient: what waits and what has been sent are what the events alone say. Private
      messages wait, up to 4095 of them; a key response whose keys parse sends what waits. */
  lemma {:induction false} OutboxFollowsEvents(self: Self, states: seq<State>, events: seq<Event>, n: nat, r: Bytes)
    requires Working(self) && Run(self, states, events) && n < |states|
    ensures MessageQueue.Lookup(states[n].queues, r) == OutboxOf(self, r, events[..n]).waiting
    ensures SentTo(states[n].log, r) == OutboxOf(self, r, events[..n]).sent
  {
    hide Working, Step, After;
    if n > 0 {
      OutboxFollowsEvents(self, states, events, n - 1, r);
      QueueConserved(self, states, events, n - 1, r);
      RunStep(self, states, events, n - 1);
      hide Run, SentTo, MessageQueue.Lookup;
      StepMatches(self, states[n - 1], events[n - 1], r);
      assert events[..n][..n - 1] == events[..n - 1];
    }
  }

  // --- A key response ---

  function Plaintexts(log: seq<Popped>): seq<Bytes> {
    seq(|log|, i requires 0 <= i < |log| => log[i].plaintext)
  }

  /** A key response whose keys parse sends everything that waits for the peer, in order, and leaves nothing waiting,
      exactly when all of it can be sent. Keys that do not parse leave queues and log alone. */
  lemma KeyResponseSendsIff(self: Self, s: State, e: Event)
    requires Working(self) && CountersInWord(s) && e.KeyResponse?
    ensures var s', waiting := Step(self, s, e), MessageQueue.Lookup(s.queues, e.peer);
            && s.log <= s'.log
            && (!KeysParse(self, e) ==> s'.log == s.log && s'.queues == s.queues)
            && var added := s'.log[|s.log|..];
            && (KeysParse(self, e) ==>
                  ((&& MessageQueue.Lookup(s'.queues, e.peer) == [] && Plaintexts(added) == waiting
                    && forall i :: 0 <= i < |added| ==> added[i].recipient == e.peer && added[i].wire.Ok?)
                   <==> forall i :: 0 <= i < |waiting| ==> Sendable(self, e.peer, waiting[i])))
  {
    hide DrainFrom, Working, Seal, Advance;
    var s', waiting := Step(self, s, e), MessageQueue.Lookup(s.queues, e.peer);
    var c := CounterOf(s.counters, e.peer);
    if !KeysParse(self, e) || waiting == [] {
      assert s'.log[|s.log|..] == [] && Plaintexts([]) == [];
    } else {
      var d := DrainFrom(self, e.peer, e.key, waiting, c, s.draws);
      assert s'.log[|s.log|..] == d.log;
      DrainSendsIff(self, e.peer, e.key, waiting, c, s.draws);
    }
  }

  lemma DrainSendsIff(self: Self, peer: Bytes, key: Bytes, q: seq<Bytes>, c: nat, draw: nat)
    requires Working(self) && c < U64_LIMIT
    ensures var d := DrainFrom(self, peer, key, q, c, draw);
            (d.left == [] && Plaintexts(d.log) == q && forall i :: 0 <= i < |d.log| ==> d.log[i].recipient == peer && d.log[i].wire.Ok?)
            <==> forall i :: 0 <= i < |q| ==> Sendable(self, peer, q[i])
  {
    DrainEmptiesIff(self, peer, key, q, c, draw);
    DrainInOrder(self, peer, key, q, c, draw);
    LogRecipients(self, peer, key, q, c, draw);
    hide DrainFrom, Seal;
    var d := DrainFrom(self, peer, key, q, c, draw);
    if d.left == [] {
      assert Plaintexts(d.log) == q;
    }
  }

  // --- Nothing is dropped ---

  /** Everything ever queued for `r`. */
  function AskedFor(events: seq<Event>, r: Bytes): seq<Bytes> {
    if events == [] then [] else
    var last := events[|events| - 1];
    AskedFor(events[..|events| - 1], r) + (if Asks(last, r) then [last.payload] else [])
  }

  /** How many were queued for `r` since its last key response whose keys parse. */
  function Since(self: Self, events: seq<Event>, r: Bytes): nat {
    if events == [] then 0 else
    var last := events[|events| - 1];
    if last.KeyResponse? && last.peer == r && KeysParse(self, last) then 0
    else Since(self, events[..|events| - 1], r) + (if Asks(last, r) then 1 else 0)
  }

  lemma {:induction false} FlushedSendsAll(self: Self, r: Bytes, o: Outbox)
    requires forall p :: p in o.waiting ==> Sendable(self, r, p)
    ensures Flushed(self, r, o) == Outbox([], o.sent + o.waiting)
    decreases |o.waiting|
  {
    hide Sendable;
    if o.waiting == [] {
      assert o.sent + [] == o.sent;
    } else {
      FlushedSendsAll(self, r, Outbox(o.waiting[1..], o.sent + [o.waiting[0]]));
      assert o.sent + [o.waiting[0]] + o.waiting[1..] == o.sent + o.waiting;
    }
  }

  /** With payloads that can be sent and at most 4095 of them between two key responses, everything queued is sent, in
      order, or waits. */
  lemma {:induction false} NothingIsDropped(self: Self, r: Bytes, events: seq<Event>)
    requires forall p :: p in AskedFor(events, r) ==> Sendable(self, r, p)
    requires forall k :: 0 <= k <= |events| ==> Since(self, events[..k], r) <= 4095
    ensures var o := OutboxOf(self, r, events); o.sent + o.waiting == AskedFor(events, r) && |o.waiting| <= Since(self, events, r)
  {
    hide Sendable, Flushed;
    if events != [] {
      var n := |events| - 1;
      var front, last := events[..n], events[n];
      forall k | 0 <= k <= n
        ensures Since(self, front[..k], r) <= 4095
      {
        assert front[..k] == events[..k];
      }
      assert Since(self, events[..|events|], r) <= 4095 && events[..|events|] == events;
      NothingIsDropped(self, r, front);
      var o := OutboxOf(self, r, front);
      if Asks(last, r) {
        assert o.sent + (o.waiting + [last.payload]) == o.sent + o.waiting + [last.payload];
      } else if last.KeyResponse? && last.peer == r && KeysParse(self, last) {
        forall p | p in o.waiting
          ensures Sendable(self, r, p)
        {
          assert p in o.sent + o.waiting;
        }
        FlushedSendsAll(self, r, o);
      }
    }
  }

  /** So a key response brings the client up to date: after it, everything queued so far has been sent, in order. */
  lemma KeyResponseCatchesUp(self: Self, states: seq<State>, events: seq<Event>, n: nat)
    requires Working(self) && Run(self, states, events) && n < |events|
    requires events[n].KeyResponse? && KeysParse(self, events[n])
    requires forall p :: p in AskedFor(events[..n], events[n].peer) ==> Sendable(self, events[n].peer, p)
    requires forall k :: 0 <= k <= n ==> Since(self, events[..k], events[n].peer) <= 4095
    ensures var r := events[n].peer;
            SentTo(states[n + 1].log, r) == AskedFor(events[..n], r) && MessageQueue.Lookup(states[n + 1].queues, r) == []
  {
    var r, front := events[n].peer, events[..n];
    OutboxFollowsEvents(self, states, events, n + 1, r);
    hide Working, Sendable, Flushed, SentTo, MessageQueue.Lookup, Run;
    forall k | 0 <= k <= |front|
      ensures Since(self, front[..k], r) <= 4095
    {
      assert front[..k] == events[..k];
    }
    NothingIsDropped(self, r, front);
    var o := OutboxOf(self, r, front);
    forall p | p in o.waiting
      ensures Sendable(self, r, p)
    {
      assert p in o.sent + o.waiting;
    }
    FlushedSendsAll(self, r, o);
    assert events[..n + 1][..n] == front;
  }

  // --- Keys and counters ---

  /** The key that the latest event brought for `peer`: a key response or an arrival, if the bytes make a key. */
  function LatestKey(self: Self, events: seq<Event>, peer: Bytes): Option<Bytes> {
    if events == [] then None else
    match events[|events| - 1]
    case KeyResponse(p, key, _) =>
      if p == peer && self.crypto.parses(key) then Some(key) else LatestKey(self, events[..|events| - 1], peer)
    case Received(sender, _, attached, _) =>
      if sender == peer && self.crypto.parses(attached.dh) then Some(attached.dh)
      else LatestKey(self, events[..|events| - 1], peer)
    case PrivateMessage(_, _) => LatestKey(self, events[..|events| - 1], peer)
  }

  function KeyIn(s: State, peer: Bytes): Option<Bytes> {
    if peer in s.keys then Some(s.keys[peer]) else None
  }

  lemma StepKeys(self: Self, s: State, e: Event, before: seq<Event>, peer: Bytes)
    requires LatestKey(self, before, peer) == KeyIn(s, peer)
    ensures LatestKey(self, before + [e], peer) == KeyIn(Step(self, s, e), peer)
  {
    hide DrainFrom, Read, MessageQueue.Enqueued;
    assert (before + [e])[..|before|] == before;
  }

  /** In every run, the key a client holds for a peer is the one the latest event brought. */
  lemma {:induction false} KeysFollowEvents(self: Self, states: seq<State>, events: seq<Event>, n: nat, peer: Bytes)
    requires Run(self, states, events) && n < |states|
    ensures KeyIn(states[n], peer) == LatestKey(self, events[..n], peer)
  {
    hide Step;
    if n > 0 {
      KeysFollowEvents(self, states, events, n - 1, peer);
      RunStep(self, states, events, n - 1);
      hide Run, LatestKey, KeyIn;
      StepKeys(self, states[n - 1], events[n - 1], events[..n - 1], peer);
      assert events[..n - 1] + [events[n - 1]] == events[..n];
    }
  }

  /** How many arrivals from `peer` were read. */
  function ReadFrom(self: Self, states: seq<State>, events: seq<Event>, n: nat, peer: Bytes): nat
    requires n <= |events| <= |states|
  {
    if n == 0 then 0 else
    ReadFrom(self, states, events, n - 1, peer) + (if IsRead(self, states[n - 1], events[n - 1], peer) then 1 else 0)
  }

  predicate IsRead(self: Self, s: State, e: Event, peer: Bytes) {
    && e.Received? && e.sender == peer
    && Read(self, peer, e.addressed, e.attached, e.payload, CounterOf(s.counters, peer)).Some?
  }

  lemma {:induction false} DrainAdvances(self: Self, r: Bytes, key: Bytes, q: seq<Bytes>, c: nat, draw: nat)
    requires c < U64_LIMIT
    ensures var d := DrainFrom(self, r, key, q, c, draw); d.counter == Advance(c, |SentTo(d.log, r)|)
    decreases |q|
  {
    hide Seal, Advance, SentTo;
    AdvanceAdds(c, 0);
    if q == [] {
      NothingSent(r);
    } else {
      var p := Seal(self, r, key, q[0], c, draw);
      SealKeepsFields(self, r, key, q[0], c, draw);
      SentToOne(p, r);
      AdvanceAdds(c, 1);
      if p.wire.Ok? {
        var rest := DrainFrom(self, r, key, q[1..], Advance(c, 1), draw + 1);
        DrainAdvances(self, r, key, q[1..], Advance(c, 1), draw + 1);
        SentToConcat([p], rest.log, r);
        AdvanceAdds(c, |SentTo(rest.log, r)|);
      }
    }
  }

  lemma AdvanceTwice(a: nat, b: nat)
    ensures Advance(Advance(0, a), b) == Advance(0, a + b)
  {
  }

  lemma DrainCounts(self: Self, s: State, peer: Bytes, key: Bytes, r: Bytes, read: nat)
    requires CountersInWord(s) && CounterOf(s.counters, r) == Advance(0, |SentTo(s.log, r)| + read)
    ensures var s' := DrainStep(self, s, peer, key); CounterOf(s'.counters, r) == Advance(0, |SentTo(s'.log, r)| + read)
  {
    hide SentTo, DrainFrom, Advance;
    var q, c := MessageQueue.Lookup(s.queues, peer), CounterOf(s.counters, peer);
    if q != [] {
      var d := DrainFrom(self, peer, key, q, c, s.draws);
      SentToConcat(s.log, d.log, r);
      if r == peer {
        DrainAdvances(self, r, key, q, c, s.draws);
        AdvanceTwice(|SentTo(s.log, r)| + read, |SentTo(d.log, r)|);
      } else {
        LogRecipients(self, peer, key, q, c, s.draws);
        OthersUnsent(d.log, peer, r);
      }
    }
  }

  lemma ReceiveCounts(self: Self, s: State, e: Event, r: Bytes)
    requires e.Received? && CountersInWord(s)
    ensures var s', c := Step(self, s, e), CounterOf(s.counters, r);
            s'.log == s.log && CounterOf(s'.counters, r) == if IsRead(self, s, e, r) then Advance(c, 1) else c
  {
    hide Advance, CounterProtocol.OpenWith;
  }

  lemma StepCounts(self: Self, s: State, e: Event, r: Bytes, read: nat)
    requires CountersInWord(s) && CounterOf(s.counters, r) == Advance(0, |SentTo(s.log, r)| + read)
    ensures var s' := Step(self, s, e);
            CounterOf(s'.counters, r) == Advance(0, |SentTo(s'.log, r)| + read + (if IsRead(self, s, e, r) then 1 else 0))
  {
    hide SentTo, DrainStep, Advance, Read, ReceiveStep, CountersInWord;
    match e
    case KeyResponse(peer, key, _) =>
      SameCounters(s, CacheStep(self, s, peer, key));
      DrainCounts(self, CacheStep(self, s, peer, key), peer, key, r, read);
    case Received(_, _, _, _) =>
      ReceiveCounts(self, s, e, r);
      AdvanceTwice(|SentTo(s.log, r)| + read, 1);
    case PrivateMessage(_, _) =>
  }

  lemma SameCounters(s: State, s': State)
    requires CountersInWord(s) && s'.counters == s.counters
    ensures CountersInWord(s')
  {
  }

  /** In every run, the counter for a peer is the number of messages sent to it and read from it, in 64 bits. */
  lemma {:induction false} CounterCounts(self: Self, states: seq<State>, events: seq<Event>, n: nat, r: Bytes)
    requires Run(self, states, events) && n < |states|
    ensures CounterOf(states[n].counters, r)
            == Advance(0, |SentTo(states[n].log, r)| + ReadFrom(self, states, events, n, r))
  {
    hide Step, SentTo, Advance, IsRead, AllKept;
    if n == 0 {
      NothingSent(r);
      AdvanceAdds(0, 0);
    } else {
      CounterCounts(self, states, events, n - 1, r);
      QueueConserved(self, states, events, n - 1, r);
      RunStep(self, states, events, n - 1);
      hide Run, CountersInWord, CounterOf;
      StepCounts(self, states[n - 1], events[n - 1], r, ReadFrom(self, states, events, n - 1, r));
    }
  }
}
