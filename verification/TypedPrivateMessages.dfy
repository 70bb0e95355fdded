/** Where queued payloads come from: what a user types always fits a sealed message; a command off the wire may not. */
module TypedPrivateMessages {
  import opened Octets
  import opened Codec
  import opened CommandPatterns
  import opened CommandLine
  import opened CommandMessages
  import opened ClientSession
  import ClientOutbox
  import ClientRuns
  import Framing
  import MessageQueue
  import ServerModel

  const PRIVATE_MESSAGE: byte := 0x08

  /** What a private-message command queues: its first argument's name, and its payload. */
  function QueuedOf(m: Message): ClientRuns.Event {
    ClientRuns.PrivateMessage(m.Meta(1), m.payload)
  }

  /** A private message that a typed command made. */
  ghost predicate Typed(e: ClientRuns.Event) {
    e.PrivateMessage? ==> exists p, m :: FitsMessage(p) && IsCommandMessage(p, m) && e == QueuedOf(m)
  }

  /** A typed `/pmess` queues its text for its recipient. */
  lemma TypedIsQueued(recipient: Bytes, text: Bytes, m: Message)
    requires SpaceFree(recipient) && recipient != [] && Collapse(text) == text
    requires FitsMessage(ParsedLine(Ascii("/pmess") + [SPACE] + recipient + [SPACE] + text))
    requires IsCommandMessage(ParsedLine(Ascii("/pmess") + [SPACE] + recipient + [SPACE] + text), m)
    ensures m.Meta(0) == [PRIVATE_MESSAGE] && QueuedOf(m) == ClientRuns.PrivateMessage(recipient, text) && Typed(QueuedOf(m))
  {
    hide CatalogPattern, ParsedLine, TypeOf, Collapse;
    var e := CATALOG[4];
    CatalogIsRegular(4);
    RegularCompiles(e);
    assert e.words[2] == "{message...}" && e.words[0] == "/pmess" == "/" + e.name;
    MessageIsTail();
    hide Plain, Param, IsTail;
    ThreePartPattern(CatalogPattern(e).tokens, recipient, text);
    ParseRenderedIff(4, [recipient, text]);
    PrivateMessageCode();
  }

  lemma PrivateMessageCode()
    ensures TypeOf(Ascii("pmess")) == PRIVATE_MESSAGE
  {
    TypeFound(4, 0);
  }

  /** A command carries its last argument twice, as an argument and as its payload. */
  lemma PayloadCountsTwice(p: ParsedCommand)
    requires FitsMessage(p)
    ensures 2 * |LastOrEmpty(p.args)| < U32_LIMIT
  {
    if p.args != [] {
      var n := |p.args| - 1;
      var head := [[TypeOf(p.name)]] + p.args[..n];
      assert CommandItems(p) == head + [p.args[n]];
      ItemsSizeSplits(head, [p.args[n]]);
      var none: seq<Bytes> := [];
      assert [p.args[n]][1..] == none;
    }
  }

  /** With 16-bit names, what was typed can be sealed and sent. */
  lemma TypedIsSendable(self: Self, e: ClientRuns.Event)
    requires Typed(e) && e.PrivateMessage? && ServerModel.Short(self.name) && ServerModel.Short(e.recipient)
    ensures ClientRuns.Sendable(self, e.recipient, e.payload)
  {
    hide FitsMessage;
    var p, m :| FitsMessage(p) && IsCommandMessage(p, m) && e == QueuedOf(m);
    PayloadCountsTwice(p);
  }

  lemma {:induction false} AllTypedIsSendable(self: Self, states: seq<State>, events: seq<ClientRuns.Event>, n: nat, r: Bytes)
    requires n <= |events| <= |states| && ServerModel.Short(self.name) && ServerModel.Short(r)
    requires forall i :: 0 <= i < n ==> Typed(events[i])
    ensures forall p :: p in ClientRuns.AllKept(states, events, n, r) ==> ClientRuns.Sendable(self, r, p)
  {
    hide Typed, ClientRuns.Sendable;
    if n > 0 {
      AllTypedIsSendable(self, states, events, n - 1, r);
      if ClientRuns.Kept(states[n - 1], events[n - 1], r) != [] {
        TypedIsSendable(self, events[n - 1]);
      }
    }
  }

  /** In every run in which private messages are typed, per recipient with a 16-bit name: what was queued is what was
      sent, in order, then what still waits. Nothing is lost. */
  lemma TypedRunLosesNothing(self: Self, states: seq<State>, events: seq<ClientRuns.Event>, n: nat, r: Bytes)
    requires ClientRuns.Working(self) && ClientRuns.Run(self, states, events) && n < |states|
    requires ServerModel.Short(self.name) && ServerModel.Short(r) && forall i :: 0 <= i < n ==> Typed(events[i])
    ensures ClientRuns.AllKept(states, events, n, r)
            == ClientRuns.SentTo(states[n].log, r) + MessageQueue.Lookup(states[n].queues, r)
  {
    AllTypedIsSendable(self, states, events, n, r);
    hide Typed, ClientRuns.Run, ClientRuns.Sendable, ClientRuns.HandedOver, ClientRuns.SentTo, ClientRuns.AllKept,
         ClientRuns.Fitting, ClientRuns.Working, MessageQueue.Lookup;
    ClientRuns.QueueConserved(self, states, events, n, r);
    ClientRuns.QueuedIsSentIff(self, states, events, n, r);
    var taken := ClientRuns.HandedOver(states[n].log, r);
    forall p | p in taken
      ensures ClientRuns.Sendable(self, r, p)
    {
      assert p in taken + MessageQueue.Lookup(states[n].queues, r);
    }
  }

  lemma {:induction false} AllAskedIsSendable(self: Self, events: seq<ClientRuns.Event>, r: Bytes)
    requires ServerModel.Short(self.name) && ServerModel.Short(r) && forall i :: 0 <= i < |events| ==> Typed(events[i])
    ensures forall p :: p in ClientOutbox.AskedFor(events, r) ==> ClientRuns.Sendable(self, r, p)
  {
    hide Typed, ClientRuns.Sendable;
    if events != [] {
      var n := |events| - 1;
      AllAskedIsSendable(self, events[..n], r);
      if ClientOutbox.Asks(events[n], r) {
        TypedIsSendable(self, events[n]);
      }
    }
  }

  /** After a key response whose keys parse, everything typed for that peer so far has been sent, in order, if never more
      than 4095 messages waited for such a response. */
  lemma TypedCatchesUp(self: Self, states: seq<State>, events: seq<ClientRuns.Event>, n: nat)
    requires ClientRuns.Working(self) && ClientRuns.Run(self, states, events) && n < |events|
    requires events[n].KeyResponse? && ClientOutbox.KeysParse(self, events[n])
    requires ServerModel.Short(self.name) && ServerModel.Short(events[n].peer) && forall i :: 0 <= i < n ==> Typed(events[i])
    requires forall k :: 0 <= k <= n ==> ClientOutbox.Since(self, events[..k], events[n].peer) <= 4095
    ensures var r := events[n].peer;
            && ClientRuns.SentTo(states[n + 1].log, r) == ClientOutbox.AskedFor(events[..n], r)
            && MessageQueue.Lookup(states[n + 1].queues, r) == []
  {
    hide Typed, ClientRuns.Sendable, ClientRuns.SentTo, MessageQueue.Lookup, ClientOutbox.AskedFor;
    AllAskedIsSendable(self, events[..n], events[n].peer);
    ClientOutbox.KeyResponseCatchesUp(self, states, events, n);
  }

  /** A command off the wire carries its payload once: one that fits a frame and decodes can be too large to send. */
  lemma OversizedCanArrive(self: Self, r: Bytes) returns (payload: Bytes)
    requires ServerModel.Short(r)
    ensures !ClientRuns.Sendable(self, r, payload)
    ensures var m := NewMessage(payload, [[PRIVATE_MESSAGE], r], COMMAND, 0);
            && m.Ok? && |Serialize(m.value)| <= Framing.MAX_FRAME
            && var d := Deserialize(Serialize(m.value));
               d.Ok? && d.value.header.kind == COMMAND && d.value.Meta(0) == [PRIVATE_MESSAGE]
               && QueuedOf(d.value) == ClientRuns.PrivateMessage(r, payload)
  {
    hide Serialize, Deserialize;
    payload := seq(U32_LIMIT - 30 - |r|, _ => 0);
    var items: seq<Bytes> := [[PRIVATE_MESSAGE], r];
    assert items[1..] == [r] && [r][1..] == [];
    assert ItemsSize([r]) == 2 + |r| && ItemsSize(items) == 5 + |r|;
    var m := NewMessage(payload, items, COMMAND, 0);
    ServerModel.BuiltMessageDecodes(payload, items, COMMAND);
    LengthIsEncodedLength(m.value);
  }
}
