/** One private message from the sender's queue, through the server, to the recipient's counter check. */
module PrivateMessagePath {
  import opened Octets
  import opened Identities
  import opened Codec
  import opened SealedBox
  import CounterProtocol
  import ClientRuns
  import ClientSession
  import ServerModel
  import ServerGuarantees

  /** What the drain puts on the wire is, to the server, a cipher message with both names and the sealed body. */
  lemma SealedReachesServer(self: ClientSession.Self, recipient: Bytes, peerKey: Bytes, plaintext: Bytes, counter: nat, draw: nat)
    returns (msg: Message)
    requires ServerModel.Short(recipient) && ServerModel.Short(self.name)
    requires ClientSession.Seal(self, recipient, peerKey, plaintext, counter, draw).wire.Ok?
    ensures var p := ClientSession.Seal(self, recipient, peerKey, plaintext, counter, draw);
            && ServerModel.CommandOfBytes(p.wire.value) == ServerModel.DoCipher(msg)
            && msg.Meta(0) == recipient && msg.Meta(1) == self.name && msg.payload == p.ciphertext
  {
    hide Serialize, Deserialize, Sealed, NewMessage;
    var p := ClientSession.Seal(self, recipient, peerKey, plaintext, counter, draw);
    ServerModel.BuiltMessageDecodes(p.ciphertext, [recipient, self.name], CIPHER_MESSAGE);
    msg := Deserialize(p.wire.value).value;
  }

  /** How a client reads a cipher message off the wire. */
  function ArrivalOf(m: Message): ClientRuns.Event {
    ClientRuns.Received(m.Meta(1), m.Meta(0), Keys(m.Meta(2), m.Meta(3), m.Meta(4)), m.payload)
  }

  /** How a client reads a key reply. */
  function ResponseOf(m: Message): ClientRuns.Event {
    ClientRuns.KeyResponse(m.Meta(1), m.payload, m.Meta(2))
  }

  /** In every run of the server, a key request for a user is answered, to the connection it came from, with what the
      client reads as a key response with that user's name and the keys of their current login. */
  lemma KeyRequestIsAnswered(states: seq<ServerModel.State>, events: seq<ServerModel.Event>, n: nat, name: Name) returns (k: nat)
    requires ServerModel.Run(states, events) && n < |events| && events[n].command == ServerModel.DoGetPub(name)
    requires name != [] && name in states[n].users
    ensures var s, s', keys := states[n], states[n + 1], states[n].users[name];
            && name in s.nameToFd && ServerGuarantees.OpenedBy(states, events, k, n, name, keys, s.nameToFd[name])
            && |s'.outbox| == |s.outbox| + 1 && s'.outbox[|s.outbox|].0 == events[n].fd
            && var r := Deserialize(s'.outbox[|s.outbox|].1);
            && r.Ok? && r.value.header.kind == 0x04 && r.value.Meta(0) == [0x05]
            && ResponseOf(r.value) == ClientRuns.KeyResponse(name, keys.dh, keys.identity)
  {
    hide Deserialize, ServerModel.Run, ServerGuarantees.OpenedBy;
    k := ServerGuarantees.KeyReplyDecodes(states, events, n, name);
  }

  /** The keys the server adds to a forwarded message are `keys`, and with them the message has this size. */
  function ForwardedSize(self: ClientSession.Self, recipient: Bytes, keys: Keys, ciphertext: Bytes): nat {
    WireSize([recipient, self.name, keys.dh, keys.identity, keys.signature], ciphertext)
  }

  /** A message sealed for the recipient's key by a sender who logged in with their own opens at the recipient, read with
      the attached keys, exactly when the recipient has reached the counter it was sealed with. */
  lemma AttachedKeysOpen(self: ClientSession.Self, receiver: ClientSession.Self, keys: Keys, plaintext: Bytes,
                         counter: nat, draw: nat, expected: nat)
    requires CounterProtocol.Ideal(self.crypto) && |self.iv(draw)| == IV_LEN && counter < U64_LIMIT
    requires receiver.crypto == self.crypto
    requires CounterProtocol.Vouched(self.crypto, keys) && keys.dh == self.crypto.own(self.name)
    ensures var p := ClientSession.Seal(self, receiver.name, self.crypto.own(receiver.name), plaintext, counter, draw);
            ClientSession.Read(receiver, self.name, receiver.name, keys, p.ciphertext, expected)
            == if expected == counter then Some(plaintext) else None
  {
    hide Opened, Sealed, NewMessage, Serialize;
    var x := self.crypto;
    var key := ClientSession.KeyWith(self, receiver.name, x.own(receiver.name));
    OpensIffCounterMatches(x.cipher, key, self.iv(draw), counter, plaintext, expected);
    DirectionsShareKey(x.keys, x.own(self.name), x.own(receiver.name), self.name, receiver.name);
    SaltIsSymmetric(self.name, receiver.name);
  }

  /** In a server state where sender and recipient have sessions, the sealed message is forwarded exactly when it still
      fits with the sender's keys added. It then arrives at the recipient's connection with those keys, and is read
      there, to the plaintext, exactly when the recipient's counter for the sender is the one it was sealed with. */
  lemma PrivateMessageArrives(self: ClientSession.Self, receiver: ClientSession.Self, plaintext: Bytes, counter: nat, draw: nat,
                              s: ServerModel.State, fd: int, order: seq<Bytes>, expected: nat)
    requires CounterProtocol.Ideal(self.crypto) && |self.iv(draw)| == IV_LEN && counter < U64_LIMIT
    requires receiver.crypto == self.crypto && ServerModel.Short(receiver.name) && ServerModel.Short(self.name)
    requires ServerModel.Inv(s) && fd in s.fdToName && s.fdToName[fd] == self.name && receiver.name in s.nameToFd
    requires self.name in s.users && CounterProtocol.Vouched(self.crypto, s.users[self.name])
             && s.users[self.name].dh == self.crypto.own(self.name)
    requires ClientSession.Seal(self, receiver.name, self.crypto.own(receiver.name), plaintext, counter, draw).wire.Ok?
    ensures var p := ClientSession.Seal(self, receiver.name, self.crypto.own(receiver.name), plaintext, counter, draw);
            var s' := ServerModel.Step(s, ServerModel.Event(fd, ServerModel.CommandOfBytes(p.wire.value), order));
            var keys := s.users[self.name];
            if ForwardedSize(self, receiver.name, keys, p.ciphertext) >= U32_LIMIT then s' == s
            else
              && |s'.outbox| == |s.outbox| + 1 && s'.outbox[|s.outbox|].0 == s.nameToFd[receiver.name]
              && var r := Deserialize(s'.outbox[|s.outbox|].1);
              && r.Ok? && ArrivalOf(r.value) == ClientRuns.Received(self.name, receiver.name, keys, p.ciphertext)
              && ClientSession.Read(receiver, self.name, receiver.name, keys, p.ciphertext, expected)
                 == if expected == counter then Some(plaintext) else None
  {
    var keys := s.users[self.name];
    AttachedKeysOpen(self, receiver, keys, plaintext, counter, draw, expected);
    var msg := SealedReachesServer(self, receiver.name, self.crypto.own(receiver.name), plaintext, counter, draw);
    hide ServerModel.CommandOfBytes, Serialize, Deserialize, Sealed, ClientSession.Seal, ClientSession.Read,
         CounterProtocol.Ideal, CounterProtocol.Vouched, WireSize;
    ServerGuarantees.CipherForward(s, fd, msg);
  }
}
