/** A client's private messages. Outgoing ones are queued until the recipient's key arrives, then sealed and sent in
    order; incoming ones are opened under the key they bring and the same per-peer counter. */
module ClientSession {
  import opened Octets
  import opened Identities
  import opened SealedBox
  import Codec
  import opened CounterProtocol
  import MessageQueue

  /** Who the client is, what it encrypts with, and its source of ivs (the n-th draw). */
  datatype Self = Self(crypto: Crypto, name: Bytes, iv: nat -> Bytes)

  /** One message taken off a queue: how it was sealed, and the bytes sent or the error thrown instead. */
  datatype Popped = Popped(recipient: Bytes, counter: nat, plaintext: Bytes, ciphertext: Bytes,
                           wire: Result<Bytes, Codec.CodecError>)

  datatype State = State(queues: map<Bytes, seq<Bytes>>, counters: map<Bytes, nat>, keys: map<Bytes, Bytes>,
                         log: seq<Popped>, draws: nat)

  const FRESH := State(map[], map[], map[], [], 0)

  function CounterOf(counters: map<Bytes, nat>, peer: Bytes): nat {
    if peer in counters then counters[peer] else 0
  }

  /** The key this client shares with the holder of `peerKey`, for messages between it and `peer`. */
  function KeyWith(self: Self, peer: Bytes, peerKey: Bytes): Bytes {
    MessageKey(self.crypto.keys, self.crypto.own(self.name), peerKey, self.name, peer)
  }

  function Seal(self: Self, recipient: Bytes, peerKey: Bytes, plaintext: Bytes, counter: nat, draw: nat): Popped {
    var ciphertext := Sealed(self.crypto.cipher, KeyWith(self, recipient, peerKey), self.iv(draw), counter, plaintext);
    var wire := match Codec.NewMessage(ciphertext, [recipient, self.name], Codec.CIPHER_MESSAGE, 0)
      case Ok(m) => Ok(Codec.Serialize(m))
      case Err(e) => Err(e);
    Popped(recipient, counter, plaintext, ciphertext, wire)
  }

  /** A 64-bit counter after `n` increments. */
  function Advance(counter: nat, n: nat): nat {
    (counter + n) % U64_LIMIT
  }

  lemma AdvanceAdds(counter: nat, n: nat)
    ensures Advance(Advance(counter, 1), n) == Advance(counter, n + 1)
    ensures counter < U64_LIMIT ==> Advance(counter, 0) == counter
    ensures Advance(counter, n) < U64_LIMIT
  {
  }

  /** The drain loop: stops on an empty queue, or when an oversized message makes it throw. */
  datatype Drain = Drain(log: seq<Popped>, left: seq<Bytes>, counter: nat)

  function DrainFrom(self: Self, recipient: Bytes, peerKey: Bytes, queue: seq<Bytes>, counter: nat, draw: nat): Drain {
    if queue == [] then Drain([], [], counter) else
    var p := Seal(self, recipient, peerKey, queue[0], counter, draw);
    if p.wire.Err? then Drain([p], queue[1..], counter) else
    var rest := DrainFrom(self, recipient, peerKey, queue[1..], Advance(counter, 1), draw + 1);
    Drain([p] + rest.log, rest.left, rest.counter)
  }

  function PushStep(s: State, recipient: Bytes, payload: Bytes): State {
    if recipient == [] || payload == [] then s else
    s.(queues := s.queues[recipient := MessageQueue.Enqueued(MessageQueue.Lookup(s.queues, recipient), payload)])
  }

  function DrainStep(self: Self, s: State, peer: Bytes, peerKey: Bytes): State {
    var q := MessageQueue.Lookup(s.queues, peer);
    if q == [] then s else
    var d := DrainFrom(self, peer, peerKey, q, CounterOf(s.counters, peer), s.draws);
    s.(queues := s.queues[peer := d.left], counters := s.counters[peer := d.counter],
       log := s.log + d.log, draws := s.draws + |d.log|)
  }

  /** Bytes that make no key are not cached. */
  function CacheStep(self: Self, s: State, peer: Bytes, key: Bytes): State {
    if self.crypto.parses(key) then s.(keys := s.keys[peer := key]) else s
  }

  /** A key that does not parse ends the handling of a key response before anything is sent. */
  function KeyStep(self: Self, s: State, peer: Bytes, key: Bytes, identity: Bytes): State {
    var s' := CacheStep(self, s, peer, key);
    if self.crypto.parses(key) && self.crypto.parses(identity) then DrainStep(self, s', peer, key) else s'
  }

  /** What an arriving message opens to, under the keys attached to it and the given counter. */
  function Read(self: Self, sender: Bytes, addressed: Bytes, attached: Keys, payload: Bytes, counter: nat): Option<Bytes> {
    if !Vouched(self.crypto, attached) then None else
    var key := OpenWith(self.crypto, self.name, sender, addressed, attached.dh);
    match Opened(self.crypto.cipher, key, payload, counter)
    case Ok(plaintext) => Some(plaintext)
    case Err(_) => None
  }

  /** Every failure leaves the counters reading as before; the attached key is cached all the same. */
  function ReceiveStep(self: Self, s: State, sender: Bytes, addressed: Bytes, attached: Keys, payload: Bytes): State {
    var s' := CacheStep(self, s, sender, attached.dh);
    if !(self.crypto.parses(attached.dh) && self.crypto.parses(attached.identity)) then s' else
    var c := CounterOf(s.counters, sender);
    var c' := if Read(self, sender, addressed, attached, payload, c).Some? then Advance(c, 1) else c;
    s'.(counters := s.counters[sender := c'])
  }

  lemma UnreadableKeys(self: Self, sender: Bytes, addressed: Bytes, attached: Keys, payload: Bytes, counter: nat)
    requires !self.crypto.parses(attached.dh) || !self.crypto.parses(attached.identity)
    ensures Read(self, sender, addressed, attached, payload, counter) == None
  {
  }

  /** Check the signature, derive the key, open; an exception is `None`. */
  method DecryptFor(self: Self, sender: Bytes, addressed: Bytes, attached: Keys, payload: Bytes, counter: nat)
    returns (plaintext: Option<Bytes>)
    requires self.crypto.parses(attached.dh) && self.crypto.parses(attached.identity)
    ensures plaintext == Read(self, sender, addressed, attached, payload, counter)
  {
    hide Opened;
    if !self.crypto.verify(attached.identity, attached.dh, attached.signature) {
      return None;
    }
    var key := OpenWith(self.crypto, self.name, sender, addressed, attached.dh);
    var outcome := Decrypt(self.crypto.cipher, key, payload, counter);
    return if outcome.Ok? then Some(outcome.value) else None;
  }

  /** Derive the key, encrypt, build the cipher message and serialize it. */
  method SealMessage(self: Self, recipient: Bytes, peerKey: Bytes, plaintext: Bytes, counter: nat, draw: nat) returns (p: Popped)
    ensures p == Seal(self, recipient, peerKey, plaintext, counter, draw)
  {
    hide Sealed, Codec.NewMessage, Codec.Serialize;
    var key := KeyWith(self, recipient, peerKey);
    var ciphertext := Encrypt(self.crypto.cipher, key, plaintext, counter, self.iv(draw));
    var m := Codec.NewMessage(ciphertext, [recipient, self.name], Codec.CIPHER_MESSAGE, 0);
    if m.Err? {
      return Popped(recipient, counter, plaintext, ciphertext, Err(m.error));
    }
    var wire := Codec.SerializeMessage(m.value);
    return Popped(recipient, counter, plaintext, ciphertext, Ok(wire));
  }

  class Client {
    const self: Self
    const mq: MessageQueue.Queues
    var counters: map<Bytes, nat>
    var keys: map<Bytes, Bytes>
    var log: seq<Popped>
    var draws: nat

    ghost predicate Valid()
      reads this, mq, mq.Repr()
    {
      mq.Valid() && this !in mq.Repr() && mq !in mq.Repr()
    }

    ghost function Value(): State
      requires Valid()
      reads this, mq, mq.Repr()
    {
      State(mq.Pending(), counters, keys, log, draws)
    }

    constructor (self: Self)
      ensures Valid() && fresh(mq) && fresh(mq.Repr())
      ensures Value() == FRESH && this.self == self
    {
      this.self := self;
      mq := new MessageQueue.Queues();
      counters, keys, log, draws := map[], map[], [], 0;
    }

    /** `/pmess`: queue the payload (after asking for the recipient's key, which is not part of this model). */
    method PrivateMessage(recipient: Bytes, payload: Bytes)
      requires Valid()
      modifies mq, mq.Repr()
      ensures Valid() && fresh(mq.Repr() - old(mq.Repr()))
      ensures Value() == PushStep(old(Value()), recipient, payload)
    {
      if recipient == [] || payload == [] {
        return;
      }
      mq.Push(recipient, payload);
    }

    /** The peer's counter, made zero at first use. */
    method CounterFor(peer: Bytes) returns (counter: nat)
      requires Valid()
      modifies this`counters
      ensures Valid() && counter == CounterOf(old(counters), peer)
      ensures Value() == old(Value()).(counters := old(counters)[peer := counter])
    {
      hide MessageQueue.Queues.Pending, MessageQueue.Queues.Valid;
      if peer !in counters {
        counters := counters[peer := 0];
      }
      return counters[peer];
    }

    /** Seal one queued message under the peer's counter and send it, unless it turns out too large. */
    method SendQueued(peer: Bytes, plaintext: Bytes) returns (ok: bool)
      requires Valid() && peer in keys
      modifies this`counters, this`log, this`draws
      ensures Valid() && Value() == SendOne(self, old(Value()), peer, keys[peer], plaintext)
      ensures ok <==> Seal(self, peer, keys[peer], plaintext, CounterOf(old(counters), peer), old(draws)).wire.Ok?
    {
      hide Seal, Advance, MessageQueue.Queues.Pending, MessageQueue.Queues.Valid;
      var counter := CounterFor(peer);
      hide CounterOf;
      var p := SealMessage(self, peer, keys[peer], plaintext, counter, draws);
      draws, log, ok := draws + 1, log + [p], p.wire.Ok?;
      if ok {
        counters := counters[peer := Advance(counter, 1)];
      }
      assert counters == old(counters)[peer := if ok then Advance(counter, 1) else counter];
    }

    /** Remember a peer's key; false stands for the exception thrown for bytes that make no key. */
    method CachePublicKey(peer: Bytes, key: Bytes, identity: Bytes) returns (ok: bool)
      requires Valid()
      modifies this`keys
      ensures Valid() && Value() == CacheStep(self, old(Value()), peer, key)
      ensures ok <==> self.crypto.parses(key) && self.crypto.parses(identity)
    {
      hide MessageQueue.Queues.Pending, MessageQueue.Queues.Valid;
      if !self.crypto.parses(key) {
        return false;
      }
      keys := keys[peer := key];
      return self.crypto.parses(identity);
    }

    /** A sealed message arrived under the name `sender`, with the sender's keys attached. */
    method ProcessEncryptedMessage(sender: Bytes, recipient: Bytes, attached: Keys, payload: Bytes)
      returns (plaintext: Option<Bytes>)
      requires Valid()
      modifies this`counters, this`keys
      ensures Valid() && Value() == ReceiveStep(self, old(Value()), sender, recipient, attached, payload)
      ensures plaintext == Read(self, sender, recipient, attached, payload, CounterOf(old(counters), sender))
    {
      hide Read, Advance, MessageQueue.Queues.Pending, MessageQueue.Queues.Valid;
      var ok := CachePublicKey(sender, attached.dh, attached.identity);
      if !ok {
        UnreadableKeys(self, sender, recipient, attached, payload, CounterOf(counters, sender));
        return None;
      }
      hide CacheStep;
      var counter := CounterFor(sender);
      plaintext := DecryptFor(self, sender, recipient, attached, payload, counter);
      if plaintext.Some? {
        counters := counters[sender := Advance(counter, 1)];
      }
    }

    /** A key arrived: send everything that waits for that peer. */
    method HandleKeyResponse(peer: Bytes, key: Bytes, identity: Bytes)
      requires Valid()
      modifies this, mq.Repr()
      ensures Valid() && mq.rings == old(mq.rings)
      ensures Value() == KeyStep(self, old(Value()), peer, key, identity)
    {
      hide Seal, DrainStep, SendOne, PutBack, MessageQueue.Lookup, MessageQueue.Queues.Pending, MessageQueue.Queues.Valid;
      var known := CachePublicKey(peer, key, identity);
      if !known {
        return;
      }
      ghost var goal := DrainStep(self, Value(), peer, key);
      ghost var before := Value();
      var pending := mq.FindPending(peer);
      TakenOff(self, before, Value(), peer, key, pending);
      while pending.Some?
        invariant Valid() && mq.rings == old(mq.rings)
        invariant peer in keys && keys[peer] == key
        invariant goal == AfterTaking(self, Value(), peer, key, pending)
        invariant pending.Some? ==> peer in mq.Pending()
        decreases if pending.Some? then |mq.Pending()[peer]| + 1 else 0
      {
        before := Value();
        var ok := SendQueued(peer, pending.value);
        DrainStepUnfolds(self, before, peer, key, pending.value);
        if !ok {
          return;
        }
        SendOneKeepsQueues(self, before, peer, key, pending.value);
        before := Value();
        pending := mq.FindPending(peer);
        TakenOff(self, before, Value(), peer, key, pending);
      }
    }
  }

  function SendOne(self: Self, s: State, peer: Bytes, peerKey: Bytes, plaintext: Bytes): State {
    var c := CounterOf(s.counters, peer);
    var p := Seal(self, peer, peerKey, plaintext, c, s.draws);
    s.(counters := s.counters[peer := if p.wire.Ok? then Advance(c, 1) else c],
       log := s.log + [p], draws := s.draws + 1)
  }

  lemma SendOneKeepsQueues(self: Self, s: State, peer: Bytes, peerKey: Bytes, plaintext: Bytes)
    ensures SendOne(self, s, peer, peerKey, plaintext).queues == s.queues
  {
  }

  function PutBack(s: State, peer: Bytes, first: Bytes): State
    requires peer in s.queues
  {
    s.(queues := s.queues[peer := [first] + s.queues[peer]])
  }

  /** What the drain still has to do once `item` has been taken off the peer's queue. */
  function AfterTaking(self: Self, s: State, peer: Bytes, peerKey: Bytes, item: Option<Bytes>): State {
    if item.Some? && peer in s.queues then DrainStep(self, PutBack(s, peer, item.value), peer, peerKey) else s
  }

  lemma TakenOff(self: Self, s: State, s': State, peer: Bytes, peerKey: Bytes, item: Option<Bytes>)
    requires item.None? <==> MessageQueue.Lookup(s.queues, peer) == []
    requires item.None? ==> s' == s
    requires item.Some? ==> peer in s'.queues && peer in s.queues && s.queues[peer] == [item.value] + s'.queues[peer]
                            && s' == s.(queues := s.queues[peer := s'.queues[peer]])
    ensures DrainStep(self, s, peer, peerKey) == AfterTaking(self, s', peer, peerKey, item)
  {
    if item.Some? {
      assert PutBack(s', peer, item.value).queues == s.queues;
    }
  }

  /** One turn of the loop, with `first` already taken off the queue. */
  lemma DrainStepUnfolds(self: Self, s: State, peer: Bytes, peerKey: Bytes, first: Bytes)
    requires peer in s.queues
    ensures var ok := Seal(self, peer, peerKey, first, CounterOf(s.counters, peer), s.draws).wire.Ok?;
            var s' := SendOne(self, s, peer, peerKey, first);
            DrainStep(self, PutBack(s, peer, first), peer, peerKey) == if ok then DrainStep(self, s', peer, peerKey) else s'
  {
    hide Seal, Advance, DrainFrom, CounterOf;
    var c, q := CounterOf(s.counters, peer), s.queues[peer];
    var p := Seal(self, peer, peerKey, first, c, s.draws);
    DrainFromUnfolds(self, peer, peerKey, first, q, c, s.draws);
    assert s.queues[peer := [first] + q][peer := q] == s.queues;
    var s' := SendOne(self, s, peer, peerKey, first);
    if p.wire.Ok? {
      CounterSet(s.counters, peer, Advance(c, 1));
      var d := DrainFrom(self, peer, peerKey, q, Advance(c, 1), s.draws + 1);
      assert s.log + ([p] + d.log) == s.log + [p] + d.log;
      assert s.counters[peer := Advance(c, 1)][peer := d.counter] == s.counters[peer := d.counter];
      assert s.queues[peer := [first] + q][peer := d.left] == s.queues[peer := d.left];
    }
  }

  lemma CounterSet(counters: map<Bytes, nat>, peer: Bytes, c: nat)
    ensures CounterOf(counters[peer := c], peer) == c
  {
  }

  lemma DrainFromUnfolds(self: Self, peer: Bytes, peerKey: Bytes, first: Bytes, q: seq<Bytes>, c: nat, draw: nat)
    ensures var p := Seal(self, peer, peerKey, first, c, draw);
            var d := DrainFrom(self, peer, peerKey, q, Advance(c, 1), draw + 1);
            && DrainFrom(self, peer, peerKey, [first] + q, c, draw)
               == (if p.wire.Ok? then Drain([p] + d.log, d.left, d.counter) else Drain([p], q, c))
            && (q == [] ==> d == Drain([], [], Advance(c, 1)))
  {
    hide Seal, Advance;
    assert ([first] + q)[1..] == q;
  }

  // --- One drain ---

  /** A drain hands over the queue from the front, under consecutive counters, each message sealed with its own. */
  lemma {:induction false} DrainInOrder(self: Self, recipient: Bytes, peerKey: Bytes, queue: seq<Bytes>, counter: nat, draw: nat)
    requires counter < U64_LIMIT
    ensures var d := DrainFrom(self, recipient, peerKey, queue, counter, draw);
            && |d.log| + |d.left| == |queue|
            && d.left == queue[|d.log|..]
            && (forall i :: 0 <= i < |d.log| ==>
                  d.log[i] == Seal(self, recipient, peerKey, queue[i], Advance(counter, i), draw + i))
  {
    hide Seal, Advance;
    if queue != [] {
      var p := Seal(self, recipient, peerKey, queue[0], counter, draw);
      AdvanceAdds(counter, 0);
      if p.wire.Ok? {
        AdvanceAdds(counter, 1);
        DrainInOrder(self, recipient, peerKey, queue[1..], Advance(counter, 1), draw + 1);
        var d := DrainFrom(self, recipient, peerKey, queue, counter, draw);
        forall i | 0 <= i < |d.log|
          ensures d.log[i] == Seal(self, recipient, peerKey, queue[i], Advance(counter, i), draw + i)
        {
          if i > 0 {
            AdvanceAdds(counter, i - 1);
            assert queue[1..][i - 1] == queue[i];
          }
        }
      }
    }
  }

  /** The bytes a sealed message takes on the wire; AES-GCM adds iv, counter and tag to the plaintext. */
  function CipherWireSize(self: Self, recipient: Bytes, plaintext: Bytes): nat {
    2 + (2 + |recipient|) + (2 + |self.name|) + 4 + IV_LEN + COUNTER_LEN + |plaintext| + TAG_LEN
  }

  lemma SealFailsIffTooLarge(self: Self, recipient: Bytes, peerKey: Bytes, plaintext: Bytes, counter: nat, draw: nat)
    requires Correct(self.crypto.cipher) && |self.iv(draw)| == IV_LEN && counter < U64_LIMIT
    ensures Seal(self, recipient, peerKey, plaintext, counter, draw).wire.Ok? <==> CipherWireSize(self, recipient, plaintext) < U32_LIMIT
  {
    SealedParts(self.crypto.cipher, KeyWith(self, recipient, peerKey), self.iv(draw), counter, plaintext);
    var items: seq<Bytes> := [recipient, self.name];
    var second: seq<Bytes> := items[1..];
    assert second == [self.name] && second[1..] == [];
    assert Codec.ItemsSize(second) == 2 + |self.name|;
    assert Codec.ItemsSize(items) == 2 + |recipient| + (2 + |self.name|);
  }

  /** One drain empties the queue exactly when every message in it fits a frame's length word; only then is every
      message sent. */
  lemma {:induction false} DrainEmptiesIff(self: Self, recipient: Bytes, peerKey: Bytes, queue: seq<Bytes>, counter: nat, draw: nat)
    requires Correct(self.crypto.cipher) && (forall n :: |self.iv(n)| == IV_LEN) && counter < U64_LIMIT
    ensures var d := DrainFrom(self, recipient, peerKey, queue, counter, draw);
            (d.left == [] && forall i :: 0 <= i < |d.log| ==> d.log[i].wire.Ok?)
            <==> forall i :: 0 <= i < |queue| ==> CipherWireSize(self, recipient, queue[i]) < U32_LIMIT
  {
    hide Seal, Advance;
    if queue != [] {
      AdvanceAdds(counter, 1);
      SealFailsIffTooLarge(self, recipient, peerKey, queue[0], counter, draw);
      var d := DrainFrom(self, recipient, peerKey, queue, counter, draw);
      if Seal(self, recipient, peerKey, queue[0], counter, draw).wire.Ok? {
        DrainEmptiesIff(self, recipient, peerKey, queue[1..], Advance(counter, 1), draw + 1);
        var rest := DrainFrom(self, recipient, peerKey, queue[1..], Advance(counter, 1), draw + 1);
        assert forall i :: 0 <= i < |rest.log| ==> d.log[i + 1] == rest.log[i];
        assert forall i :: 0 <= i < |queue| - 1 ==> queue[1..][i] == queue[i + 1];
      } else {
        assert d.log[0].wire.Err?;
      }
    }
  }
}
