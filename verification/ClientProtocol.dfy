/** A client's steps, seen as events of the counter protocol. */
module ClientProtocol {
  import opened Octets
  import opened Identities
  import opened SealedBox
  import opened CounterProtocol
  import opened ClientSession
  import ClientRuns
  import MessageQueue

  /** The counters and keys a client holds are its counters and keys in `w`. */
  ghost predicate Tracks(w: World, name: Name, s: State) {
    && (forall peer :: Counter(w, name, peer) == CounterOf(s.counters, peer))
    && (forall peer :: (name, peer) in w.cache <==> peer in s.keys)
    && (forall peer :: peer in s.keys ==> w.cache[(name, peer)] == s.keys[peer])
  }

  /** Nothing has changed for clients other than `name`. */
  ghost predicate SameForOthers(w: World, w': World, name: Name) {
    && (forall c, peer :: c != name ==> Counter(w', c, peer) == Counter(w, c, peer))
    && (forall c, peer :: c != name ==> ((c, peer) in w'.cache <==> (c, peer) in w.cache))
    && (forall c, peer :: c != name && (c, peer) in w.cache ==> w'.cache[(c, peer)] == w.cache[(c, peer)])
  }

  lemma OthersStillTracked(w: World, w': World, name: Name, c: Name, s: State)
    requires SameForOthers(w, w', name) && c != name && Tracks(w, c, s)
    ensures Tracks(w', c, s)
  {
    forall peer
      ensures Counter(w', c, peer) == CounterOf(s.counters, peer)
    {
      assert Counter(w, c, peer) == CounterOf(s.counters, peer);
    }
  }

  function AfterAll(x: Crypto, w: World, events: seq<Event>): World
    decreases |events|
  {
    if events == [] then w else AfterAll(x, CounterProtocol.Step(x, w, events[0]), events[1..])
  }

  lemma AfterCons(x: Crypto, w: World, e: Event, rest: seq<Event>)
    ensures AfterAll(x, w, [e] + rest) == AfterAll(x, CounterProtocol.Step(x, w, e), rest)
    ensures AfterAll(x, w, [e]) == CounterProtocol.Step(x, w, e)
  {
    hide CounterProtocol.Step;
    assert ([e] + rest)[1..] == rest && [e][1..] == [];
  }

  // --- Draining ---

  /** The sends a drain amounts to: one for each message until one is too large. */
  function DrainSends(self: Self, recipient: Bytes, key: Bytes, queue: seq<Bytes>, counter: nat, draw: nat): seq<Event> {
    if queue == [] || Seal(self, recipient, key, queue[0], counter, draw).wire.Err? then [] else
    [Send(self.name, recipient, queue[0], self.iv(draw))]
    + DrainSends(self, recipient, key, queue[1..], Advance(counter, 1), draw + 1)
  }

  /** The protocol's record of what a client put on the wire. */
  function Recorded(self: Self, key: Bytes, log: seq<Popped>): seq<Entry> {
    if log == [] then [] else
    var p := log[0];
    (if p.wire.Ok? then [Sent(self.name, p.recipient, key, p.counter, p.plaintext, p.ciphertext)] else [])
    + Recorded(self, key, log[1..])
  }

  lemma SendMatchesSeal(self: Self, w: World, recipient: Bytes, plaintext: Bytes, draw: nat)
    requires (self.name, recipient) in w.cache
    ensures var c, key := Counter(w, self.name, recipient), w.cache[(self.name, recipient)];
            var w' := CounterProtocol.Step(self.crypto, w, Send(self.name, recipient, plaintext, self.iv(draw)));
            var p := Seal(self, recipient, key, plaintext, c, draw);
            && Counter(w', self.name, recipient) == Advance(c, 1) && w'.cache == w.cache && w'.accepts == w.accepts
            && w'.log == w.log + [Sent(self.name, p.recipient, key, p.counter, p.plaintext, p.ciphertext)]
            && forall a, b :: (a, b) != (self.name, recipient) ==> Counter(w', a, b) == Counter(w, a, b)
  {
    hide Sealed;
  }

  /** The world after a drain: one counter advanced and the messages that fit recorded, nothing else. */
  ghost predicate Drained(self: Self, w: World, w': World, recipient: Bytes, key: Bytes, d: Drain) {
    && Counter(w', self.name, recipient) == d.counter && w'.cache == w.cache && w'.accepts == w.accepts
    && w'.log == w.log + Recorded(self, key, d.log)
    && forall a, b :: (a, b) != (self.name, recipient) ==> Counter(w', a, b) == Counter(w, a, b)
  }

  /** Every drain, also one that ends on an oversized message, is a run of protocol sends: same counters, same
      ciphertexts, in the same order. */
  lemma {:induction false} DrainIsProtocolSends(self: Self, w: World, recipient: Bytes, queue: seq<Bytes>, draw: nat)
    requires (self.name, recipient) in w.cache
    ensures var c, key := Counter(w, self.name, recipient), w.cache[(self.name, recipient)];
            Drained(self, w, AfterAll(self.crypto, w, DrainSends(self, recipient, key, queue, c, draw)), recipient, key,
                    DrainFrom(self, recipient, key, queue, c, draw))
    decreases |queue|
  {
    hide Seal, CounterProtocol.Step, Counter;
    var c, key := Counter(w, self.name, recipient), w.cache[(self.name, recipient)];
    if queue != [] {
      var p := Seal(self, recipient, key, queue[0], c, draw);
      if p.wire.Ok? {
        var send := Send(self.name, recipient, queue[0], self.iv(draw));
        var w1 := CounterProtocol.Step(self.crypto, w, send);
        SendMatchesSeal(self, w, recipient, queue[0], draw);
        DrainIsProtocolSends(self, w1, recipient, queue[1..], draw + 1);
        var rest := DrainFrom(self, recipient, key, queue[1..], Advance(c, 1), draw + 1);
        var later := DrainSends(self, recipient, key, queue[1..], Advance(c, 1), draw + 1);
        assert ([send] + later)[1..] == later && ([p] + rest.log)[1..] == rest.log;
        var sent := Sent(self.name, p.recipient, key, p.counter, p.plaintext, p.ciphertext);
        assert w.log + [sent] + Recorded(self, key, rest.log) == w.log + ([sent] + Recorded(self, key, rest.log));
      } else {
        assert Recorded(self, key, [p]) == [];
      }
    }
  }

  // --- Every step ---

  function EventsOf(self: Self, s: State, e: ClientRuns.Event): seq<Event> {
    match e
    case PrivateMessage(_, _) => []
    case KeyResponse(peer, key, identity) =>
      [KeyArrives(self.name, peer, key)]
      + (if self.crypto.parses(key) && self.crypto.parses(identity)
         then DrainSends(self, peer, key, MessageQueue.Lookup(s.queues, peer), CounterOf(s.counters, peer), s.draws) else [])
    case Received(sender, addressed, attached, payload) => [Deliver(self.name, sender, addressed, attached, payload)]
  }

  /** The key that a step seals with, and the peer it seals for: those of a key response, the only step that sends. */
  function SealsWith(e: ClientRuns.Event): Bytes {
    if e.KeyResponse? then e.key else []
  }

  ghost predicate SealsFor(e: ClientRuns.Event, log: seq<Popped>) {
    if e.KeyResponse? then forall i :: 0 <= i < |log| ==> log[i].recipient == e.peer else log == []
  }

  /** What a client's step and the events it amounts to have in common. */
  ghost predicate StepsTogether(self: Self, w: World, s: State, e: ClientRuns.Event) {
    var w', s' := AfterAll(self.crypto, w, EventsOf(self, s, e)), ClientRuns.Step(self, s, e);
    && Tracks(w', self.name, s') && SameForOthers(w, w', self.name)
    && s.log <= s'.log && w'.log == w.log + Recorded(self, SealsWith(e), s'.log[|s.log|..])
  }

  /** What a step adds to the log went to the peer whose key it seals with. */
  lemma StepSealsFor(self: Self, s: State, e: ClientRuns.Event)
    requires ClientRuns.CountersInWord(s)
    ensures var s' := ClientRuns.Step(self, s, e); s.log <= s'.log && SealsFor(e, s'.log[|s.log|..])
  {
    hide DrainFrom, Read, MessageQueue.Enqueued;
    var s' := ClientRuns.Step(self, s, e);
    if e.KeyResponse? {
      var q, c := MessageQueue.Lookup(s.queues, e.peer), CounterOf(s.counters, e.peer);
      ClientRuns.LogRecipients(self, e.peer, e.key, q, c, s.draws);
      var d := DrainFrom(self, e.peer, e.key, q, c, s.draws);
      assert s'.log[|s.log|..] == d.log || s'.log[|s.log|..] == [];
    } else {
      assert s'.log[|s.log|..] == [];
    }
  }

  lemma PushStepsTogether(self: Self, w: World, s: State, e: ClientRuns.Event)
    requires Tracks(w, self.name, s) && e.PrivateMessage?
    ensures StepsTogether(self, w, s, e)
  {
    hide MessageQueue.Enqueued, MessageQueue.Lookup;
    var s' := ClientRuns.Step(self, s, e);
    assert s'.log[|s.log|..] == [];
    assert w.log == w.log + Recorded(self, [], s'.log[|s.log|..]);
  }

  lemma CachedTracks(self: Self, w: World, s: State, peer: Name, key: Bytes)
    requires Tracks(w, self.name, s)
    ensures var w' := Cached(self.crypto, w, self.name, peer, key);
            Tracks(w', self.name, CacheStep(self, s, peer, key)) && SameForOthers(w, w', self.name)
            && w'.log == w.log && w'.accepts == w.accepts
  {
    var w', s' := Cached(self.crypto, w, self.name, peer, key), CacheStep(self, s, peer, key);
    forall p
      ensures Counter(w', self.name, p) == CounterOf(s'.counters, p)
    {
      assert Counter(w, self.name, p) == CounterOf(s.counters, p);
    }
  }

  /** An arrival is the protocol's delivery: same counters and keys after it, and accepted with the same plaintext. */
  lemma ReceiveIsDelivery(self: Self, w: World, s: State, sender: Bytes, addressed: Bytes, attached: Keys, payload: Bytes)
    requires Tracks(w, self.name, s)
    ensures var w' := DeliverStep(self.crypto, w, self.name, sender, addressed, attached, payload);
            var c := CounterOf(s.counters, sender);
            var plaintext := Read(self, sender, addressed, attached, payload, c);
            && Tracks(w', self.name, ReceiveStep(self, s, sender, addressed, attached, payload))
            && SameForOthers(w, w', self.name) && w'.log == w.log
            && w'.accepts == w.accepts + (if plaintext.None? then [] else
                 [Accepted(self.name, sender, addressed, attached, c, plaintext.value, payload)])
  {
    hide Opened, OpenWith, Tracks, SameForOthers, Bumped;
    var x, c := self.crypto, CounterOf(s.counters, sender);
    var w1, s1 := Cached(x, w, self.name, sender, attached.dh), CacheStep(self, s, sender, attached.dh);
    CachedTracks(self, w, s, sender, attached.dh);
    TracksCounter(w, self.name, s, sender);
    BumpTracks(w1, self.name, s1, sender);
    BumpKeepsRest(w1, self.name, sender);
    SameForOthersTwice(w, w1, Bumped(w1, self.name, sender), self.name);
    if Read(self, sender, addressed, attached, payload, c).Some? {
      var w2 := Bumped(w1, self.name, sender);
      var w' := DeliverStep(x, w, self.name, sender, addressed, attached, payload);
      SameTracks(w2, w', self.name, s1.(counters := s.counters[sender := Advance(c, 1)]));
      SameSameForOthers(w, w2, w', self.name);
    } else {
      assert w.accepts + [] == w.accepts;
    }
  }

  lemma BumpKeepsRest(w: World, name: Name, peer: Name)
    ensures var w' := Bumped(w, name, peer); w'.log == w.log && w'.accepts == w.accepts && w'.cache == w.cache
  {
  }

  lemma SameTracks(w: World, w': World, name: Name, s: State)
    requires w'.counters == w.counters && w'.cache == w.cache && Tracks(w, name, s)
    ensures Tracks(w', name, s)
  {
    forall peer
      ensures Counter(w', name, peer) == CounterOf(s.counters, peer)
    {
      assert Counter(w, name, peer) == CounterOf(s.counters, peer);
    }
  }

  lemma SameSameForOthers(w: World, w1: World, w': World, name: Name)
    requires w'.counters == w1.counters && w'.cache == w1.cache && SameForOthers(w, w1, name)
    ensures SameForOthers(w, w', name)
  {
    forall c, peer | c != name
      ensures Counter(w', c, peer) == Counter(w, c, peer)
    {
      assert Counter(w1, c, peer) == Counter(w, c, peer);
    }
  }

  lemma BumpTracks(w: World, name: Name, s: State, peer: Name)
    requires Tracks(w, name, s)
    ensures var w', c := Bumped(w, name, peer), CounterOf(s.counters, peer);
            && Tracks(w', name, s.(counters := s.counters[peer := Advance(c, 1)])) && SameForOthers(w, w', name)
            && Tracks(w, name, s.(counters := s.counters[peer := c]))
  {
    var w', c := Bumped(w, name, peer), CounterOf(s.counters, peer);
    assert Counter(w, name, peer) == c;
    forall p
      ensures Counter(w', name, p) == CounterOf(s.counters[peer := Advance(c, 1)], p)
      ensures Counter(w, name, p) == CounterOf(s.counters[peer := c], p)
    {
      assert Counter(w, name, p) == CounterOf(s.counters, p);
    }
  }

  lemma ReceiveStepsTogether(self: Self, w: World, s: State, e: ClientRuns.Event)
    requires Tracks(w, self.name, s) && e.Received?
    ensures StepsTogether(self, w, s, e)
  {
    hide DeliverStep, Tracks, SameForOthers, Read, AfterAll;
    ReceiveIsDelivery(self, w, s, e.sender, e.addressed, e.attached, e.payload);
    var s' := ClientRuns.Step(self, s, e);
    var deliver := Deliver(self.name, e.sender, e.addressed, e.attached, e.payload);
    AfterCons(self.crypto, w, deliver, []);
    assert s'.log[|s.log|..] == [];
    assert w.log == w.log + Recorded(self, [], s'.log[|s.log|..]);
  }

  lemma DrainedTracks(self: Self, w: World, w': World, s: State, peer: Name, key: Bytes)
    requires Tracks(w, self.name, s) && peer in s.keys && s.keys[peer] == key
    requires Drained(self, w, w', peer, key,
                     DrainFrom(self, peer, key, MessageQueue.Lookup(s.queues, peer), CounterOf(s.counters, peer), s.draws))
    ensures var s' := DrainStep(self, s, peer, key);
            && Tracks(w', self.name, s') && SameForOthers(w, w', self.name)
            && s.log <= s'.log && w'.log == w.log + Recorded(self, key, s'.log[|s.log|..])
  {
    hide Recorded, DrainFrom, MessageQueue.Lookup;
    var s' := DrainStep(self, s, peer, key);
    var d := DrainFrom(self, peer, key, MessageQueue.Lookup(s.queues, peer), CounterOf(s.counters, peer), s.draws);
    NothingToDrain(self, peer, key, CounterOf(s.counters, peer), s.draws);
    assert s'.log[|s.log|..] == d.log;
    forall p
      ensures Counter(w', self.name, p) == CounterOf(s'.counters, p)
    {
      assert Counter(w, self.name, p) == CounterOf(s.counters, p);
    }
  }

  lemma NothingToDrain(self: Self, peer: Name, key: Bytes, counter: nat, draw: nat)
    ensures DrainFrom(self, peer, key, [], counter, draw) == Drain([], [], counter)
  {
  }

  lemma KeyStepsTogether(self: Self, w: World, s: State, e: ClientRuns.Event)
    requires Tracks(w, self.name, s) && e.KeyResponse?
    ensures StepsTogether(self, w, s, e)
  {
    hide Tracks, SameForOthers, Drained, DrainStep, DrainSends, Recorded, AfterAll;
    var x, peer, key := self.crypto, e.peer, e.key;
    var w1, s1 := Cached(x, w, self.name, peer, key), CacheStep(self, s, peer, key);
    CachedTracks(self, w, s, peer, key);
    var s' := ClientRuns.Step(self, s, e);
    var arrives := KeyArrives(self.name, peer, key);
    if x.parses(key) && x.parses(e.identity) {
      var q, c := MessageQueue.Lookup(s.queues, peer), CounterOf(s.counters, peer);
      TracksCounter(w1, self.name, s1, peer);
      var sends := DrainSends(self, peer, key, q, c, s.draws);
      AfterCons(x, w, arrives, sends);
      DrainIsProtocolSends(self, w1, peer, q, s.draws);
      var w' := AfterAll(x, w1, sends);
      DrainedTracks(self, w1, w', s1, peer, key);
      SameForOthersTwice(w, w1, w', self.name);
    } else {
      AfterCons(x, w, arrives, []);
      assert [arrives] + [] == [arrives];
      assert s'.log[|s.log|..] == [];
      NothingRecorded(self, key);
      assert w1.log == w.log + Recorded(self, key, s'.log[|s.log|..]);
    }
  }

  lemma TracksCounter(w: World, name: Name, s: State, peer: Name)
    requires Tracks(w, name, s)
    ensures Counter(w, name, peer) == CounterOf(s.counters, peer)
    ensures peer in s.keys ==> (name, peer) in w.cache && w.cache[(name, peer)] == s.keys[peer]
  {
  }

  lemma NothingRecorded(self: Self, key: Bytes)
    ensures Recorded(self, key, []) == []
  {
  }

  lemma SameForOthersTwice(w: World, w1: World, w2: World, name: Name)
    requires SameForOthers(w, w1, name) && SameForOthers(w1, w2, name)
    ensures SameForOthers(w, w2, name)
  {
  }

  /** Every step of a client is a run of protocol events that ends with the same counters and keys, records exactly what
      the client put on the wire, and concerns no other client. */
  lemma StepIsProtocol(self: Self, w: World, s: State, e: ClientRuns.Event)
    requires Tracks(w, self.name, s)
    ensures StepsTogether(self, w, s, e)
  {
    hide StepsTogether;
    match e
    case PrivateMessage(_, _) => PushStepsTogether(self, w, s, e);
    case KeyResponse(_, _, _) => KeyStepsTogether(self, w, s, e);
    case Received(_, _, _, _) => ReceiveStepsTogether(self, w, s, e);
  }
}
