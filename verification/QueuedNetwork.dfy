/** Clients with queues on one network: from the payload a user queues to the plaintext another client accepts. */
module QueuedNetwork {
  import opened Octets
  import opened Identities
  import opened SealedBox
  import opened CounterProtocol
  import opened CounterGuarantees
  import opened ClientSession
  import opened ClientProtocol
  import ClientRuns
  import MessageQueue

  datatype System = System(clients: map<Name, State>, world: World)

  const QUIET := System(map[], START)

  function ClientOf(sys: System, c: Name): State {
    if c in sys.clients then sys.clients[c] else FRESH
  }

  /** A client steps, or somebody outside seals a message with a key of their own. */
  datatype Action = Local(client: Name, event: ClientRuns.Event) | Outside(crafted: Event)

  /** The primitives and each client's source of ivs. */
  datatype Setup = Setup(crypto: Crypto, ivs: Name -> nat -> Bytes)
  {
    function Self(c: Name): Self {
      ClientSession.Self(crypto, c, ivs(c))
    }
  }

  function NetworkStep(u: Setup, sys: System, act: Action): System {
    match act
    case Local(c, e) =>
      System(sys.clients[c := ClientRuns.Step(u.Self(c), ClientOf(sys, c), e)],
             AfterAll(u.crypto, sys.world, EventsOf(u.Self(c), ClientOf(sys, c), e)))
    case Outside(e) => sys.(world := CounterProtocol.Step(u.crypto, sys.world, e))
  }

  ghost predicate CanHappen(u: Setup, sys: System, act: Action) {
    match act
    case Local(c, e) =>
      e.Received? ==> Unforged(u.crypto, sys.world, Deliver(c, e.sender, e.addressed, e.attached, e.payload))
    case Outside(e) => e.Craft? && Possible(u.crypto, sys.world, e)
  }

  /** The number of protocol events an action amounts to. */
  function Cost(u: Setup, sys: System, act: Action): nat {
    match act
    case Local(c, e) => |EventsOf(u.Self(c), ClientOf(sys, c), e)|
    case Outside(_) => 1
  }

  function Spent(u: Setup, systems: seq<System>, acts: seq<Action>, n: nat): nat
    requires n <= |acts| <= |systems|
  {
    if n == 0 then 0 else Spent(u, systems, acts, n - 1) + Cost(u, systems[n - 1], acts[n - 1])
  }

  ghost predicate Ready(u: Setup) {
    Ideal(u.crypto) && forall c :: ClientRuns.Working(u.Self(c))
  }

  ghost predicate NetworkRun(u: Setup, systems: seq<System>, acts: seq<Action>) {
    && Ready(u) && |systems| == |acts| + 1 && systems[0] == QUIET
    && forall i :: 0 <= i < |acts| ==>
         CanHappen(u, systems[i], acts[i]) && systems[i + 1] == NetworkStep(u, systems[i], acts[i])
  }

  lemma RunStep(u: Setup, systems: seq<System>, acts: seq<Action>, i: nat)
    requires NetworkRun(u, systems, acts) && i < |acts|
    ensures CanHappen(u, systems[i], acts[i]) && systems[i + 1] == NetworkStep(u, systems[i], acts[i])
  {
  }

  // --- The protocol invariant ---

  /** Key arrivals and sends with a proper iv can happen in any world. */
  ghost predicate Harmless(e: Event) {
    e.KeyArrives? || (e.Send? && |e.iv| == IV_LEN)
  }

  lemma {:induction false} AfterAllKeepsInv(x: Crypto, w: World, m: nat, events: seq<Event>)
    requires Ideal(x) && Inv(x, w, m) && m + |events| < U64_LIMIT
    requires forall i :: 0 <= i < |events| ==> Harmless(events[i])
    ensures Inv(x, AfterAll(x, w, events), m + |events|)
    decreases |events|
  {
    hide Inv, CounterProtocol.Step, Ideal;
    if events != [] {
      assert Harmless(events[0]);
      StepKeepsInv(x, w, m, events[0]);
      AfterAllKeepsInv(x, CounterProtocol.Step(x, w, events[0]), m + 1, events[1..]);
    }
  }

  lemma {:induction false} SendsAreHarmless(self: Self, peer: Bytes, key: Bytes, queue: seq<Bytes>, counter: nat, draw: nat, i: nat)
    requires ClientRuns.Working(self) && i < |DrainSends(self, peer, key, queue, counter, draw)|
    ensures var e := DrainSends(self, peer, key, queue, counter, draw)[i]; e.Send? && |e.iv| == IV_LEN
    decreases i
  {
    hide Seal, Advance;
    if i > 0 {
      SendsAreHarmless(self, peer, key, queue[1..], Advance(counter, 1), draw + 1, i - 1);
    }
  }

  lemma LocalKeepsInv(u: Setup, sys: System, act: Action, m: nat)
    requires Ready(u) && act.Local? && CanHappen(u, sys, act)
    requires Inv(u.crypto, sys.world, m) && m + Cost(u, sys, act) < U64_LIMIT
    ensures Inv(u.crypto, NetworkStep(u, sys, act).world, m + Cost(u, sys, act))
  {
    hide Inv, ClientRuns.Step, DrainSends, CounterProtocol.Step, Ideal, ClientRuns.Working;
    var self, s := u.Self(act.client), ClientOf(sys, act.client);
    var events := EventsOf(self, s, act.event);
    if act.event.Received? {
      AfterCons(u.crypto, sys.world, events[0], []);
      StepKeepsInv(u.crypto, sys.world, m, events[0]);
    } else {
      forall i | 0 <= i < |events|
        ensures Harmless(events[i])
      {
        if i > 0 {
          var e := act.event;
          var q, c := MessageQueue.Lookup(s.queues, e.peer), CounterOf(s.counters, e.peer);
          SendsAreHarmless(self, e.peer, e.key, q, c, s.draws, i - 1);
        }
      }
      AfterAllKeepsInv(u.crypto, sys.world, m, events);
    }
  }

  // --- The log of the network is what the clients put on the wire ---

  /** What `a` sent to `b`, oldest first. */
  function LogTo(log: seq<Entry>, a: Name, b: Name): seq<Bytes> {
    if log == [] then [] else
    var last := log[|log| - 1];
    var before := LogTo(log[..|log| - 1], a, b);
    if last.Sent? && last.from == a && last.to == b then before + [last.plaintext] else before
  }

  lemma {:induction false} LogToConcat(log: seq<Entry>, more: seq<Entry>, a: Name, b: Name)
    ensures LogTo(log + more, a, b) == LogTo(log, a, b) + LogTo(more, a, b)
  {
    if more == [] {
      assert log + more == log;
    } else {
      var n := |more| - 1;
      assert (log + more)[..|log| + n] == log + more[..n];
      LogToConcat(log, more[..n], a, b);
    }
  }

  lemma {:induction false} RecordedIsSent(self: Self, key: Bytes, log: seq<Popped>, a: Name, b: Name)
    ensures LogTo(Recorded(self, key, log), a, b) == if a == self.name then ClientRuns.SentTo(log, b) else []
  {
    if log != [] {
      var first, rest := log[..1], log[1..];
      assert log == first + rest && first == [log[0]];
      RecordedIsSent(self, key, rest, a, b);
      var p := log[0];
      var sent := if p.wire.Ok? then [Sent(self.name, p.recipient, key, p.counter, p.plaintext, p.ciphertext)] else [];
      LogToConcat(sent, Recorded(self, key, rest), a, b);
      ClientRuns.SentToConcat(first, rest, b);
    }
  }

  ghost predicate ClientOk(u: Setup, sys: System, c: Name) {
    var s := ClientOf(sys, c);
    && Tracks(sys.world, c, s) && ClientRuns.CountersInWord(s) && ClientRuns.LogOk(u.Self(c), s.log)
    && forall b :: LogTo(sys.world.log, c, b) == ClientRuns.SentTo(s.log, b)
  }

  ghost predicate NetworkInv(u: Setup, sys: System, m: nat) {
    Inv(u.crypto, sys.world, m) && forall c :: ClientOk(u, sys, c)
  }

  lemma SteppingClientOk(u: Setup, sys: System, act: Action)
    requires Ready(u) && act.Local? && ClientOk(u, sys, act.client)
    ensures ClientOk(u, NetworkStep(u, sys, act), act.client)
  {
    hide EventsOf, ClientRuns.Step, LogTo, ClientRuns.SentTo, ClientRuns.LogOk, ClientRuns.CountersInWord, Tracks, Recorded,
         ClientRuns.Working, Ideal, SameForOthers;
    var c, self, s := act.client, u.Self(act.client), ClientOf(sys, act.client);
    assert ClientRuns.Working(self);
    StepIsProtocol(self, sys.world, s, act.event);
    ClientRuns.StepConserves(self, s, act.event, []);
    ClientRuns.StepKeepsLogOk(self, s, act.event);
    var s', w' := ClientRuns.Step(self, s, act.event), NetworkStep(u, sys, act).world;
    var added := s'.log[|s.log|..];
    var key := SealsWith(act.event);
    assert s'.log == s.log + added;
    forall b
      ensures LogTo(w'.log, c, b) == ClientRuns.SentTo(s'.log, b)
    {
      LogToConcat(sys.world.log, Recorded(self, key, added), c, b);
      RecordedIsSent(self, key, added, c, b);
      ClientRuns.SentToConcat(s.log, added, b);
    }
  }

  lemma OtherClientOk(u: Setup, sys: System, act: Action, d: Name)
    requires Ready(u) && act.Local? && d != act.client && ClientOk(u, sys, act.client) && ClientOk(u, sys, d)
    ensures ClientOk(u, NetworkStep(u, sys, act), d)
  {
    hide EventsOf, ClientRuns.Step, LogTo, ClientRuns.SentTo, ClientRuns.LogOk, ClientRuns.CountersInWord, Tracks, Recorded,
         ClientRuns.Working, Ideal, SameForOthers;
    var self, s := u.Self(act.client), ClientOf(sys, act.client);
    StepIsProtocol(self, sys.world, s, act.event);
    var w' := NetworkStep(u, sys, act).world;
    OthersStillTracked(sys.world, w', act.client, d, ClientOf(sys, d));
    var added := ClientRuns.Step(self, s, act.event).log[|s.log|..];
    var key := SealsWith(act.event);
    forall b
      ensures LogTo(w'.log, d, b) == LogTo(sys.world.log, d, b)
    {
      LogToConcat(sys.world.log, Recorded(self, key, added), d, b);
      RecordedIsSent(self, key, added, d, b);
      assert LogTo(sys.world.log, d, b) + [] == LogTo(sys.world.log, d, b);
    }
  }

  lemma OutsideKeepsClientOk(u: Setup, sys: System, act: Action, c: Name)
    requires act.Outside? && CanHappen(u, sys, act) && ClientOk(u, sys, c)
    ensures ClientOk(u, NetworkStep(u, sys, act), c)
  {
    hide Sealed, MessageKey, LogTo, ClientRuns.SentTo, ClientRuns.LogOk, ClientRuns.CountersInWord, Tracks;
    var w' := NetworkStep(u, sys, act).world;
    SameTracks(sys.world, w', c, ClientOf(sys, c));
    forall b
      ensures LogTo(w'.log, c, b) == LogTo(sys.world.log, c, b)
    {
      CraftedIsNotSent(sys.world.log, w'.log[|sys.world.log|], c, b);
    }
  }

  lemma CraftedIsNotSent(log: seq<Entry>, e: Entry, a: Name, b: Name)
    requires e.Crafted?
    ensures LogTo(log + [e], a, b) == LogTo(log, a, b)
  {
    assert (log + [e])[..|log|] == log;
  }

  lemma NetworkStepKeepsInv(u: Setup, sys: System, act: Action, m: nat)
    requires Ready(u) && CanHappen(u, sys, act) && NetworkInv(u, sys, m) && m + Cost(u, sys, act) < U64_LIMIT
    ensures NetworkInv(u, NetworkStep(u, sys, act), m + Cost(u, sys, act))
  {
    hide Inv, ClientOk, Ready, ClientRuns.Step, EventsOf, CounterProtocol.Step;
    if act.Local? {
      LocalKeepsInv(u, sys, act, m);
    } else {
      OutsideKeepsInv(u, sys, act, m);
    }
    var sys' := NetworkStep(u, sys, act);
    forall c
      ensures ClientOk(u, sys', c)
    {
      if act.Outside? {
        OutsideKeepsClientOk(u, sys, act, c);
      } else if c == act.client {
        SteppingClientOk(u, sys, act);
      } else {
        OtherClientOk(u, sys, act, c);
      }
    }
  }

  lemma OutsideKeepsInv(u: Setup, sys: System, act: Action, m: nat)
    requires Ready(u) && act.Outside? && CanHappen(u, sys, act)
    requires Inv(u.crypto, sys.world, m) && m + 1 < U64_LIMIT
    ensures Inv(u.crypto, NetworkStep(u, sys, act).world, m + 1)
  {
    hide Inv, CounterProtocol.Step, Possible;
    StepKeepsInv(u.crypto, sys.world, m, act.crafted);
  }

  /** In every run of the network: the protocol's invariant holds, each client's counters and keys are its counters and
      keys in the protocol, and the protocol's log of what a client sent is the client's own. */
  lemma {:induction false} NetworkRunKeepsInv(u: Setup, systems: seq<System>, acts: seq<Action>, n: nat)
    requires NetworkRun(u, systems, acts) && n < |systems| && Spent(u, systems, acts, n) < U64_LIMIT
    ensures NetworkInv(u, systems[n], Spent(u, systems, acts, n))
  {
    hide NetworkInv, CanHappen, NetworkStep, Ready, Cost;
    if n == 0 {
      QuietIsOk(u);
    } else {
      RunStep(u, systems, acts, n - 1);
      NetworkRunKeepsInv(u, systems, acts, n - 1);
      NetworkStepKeepsInv(u, systems[n - 1], acts[n - 1], Spent(u, systems, acts, n - 1));
    }
  }

  lemma QuietIsOk(u: Setup)
    ensures NetworkInv(u, QUIET, 0)
  {
  }

  // --- From the queue to the other end ---

  /** The payloads that `a` queued for `b`, without those a full ring dropped. */
  function Queued(systems: seq<System>, acts: seq<Action>, n: nat, a: Name, b: Name): seq<Bytes>
    requires n <= |acts| <= |systems|
  {
    if n == 0 then [] else
    Queued(systems, acts, n - 1, a, b)
    + (if acts[n - 1].Local? && acts[n - 1].client == a
       then ClientRuns.Kept(ClientOf(systems[n - 1], a), acts[n - 1].event, b) else [])
  }

  /** `xs` is an in-order, duplicate-free subsequence of `ys`, `f` giving the places. */
  ghost predicate Embeds(xs: seq<Bytes>, ys: seq<Bytes>, f: seq<nat>) {
    && |f| == |xs|
    && (forall k :: 0 <= k < |xs| ==> f[k] < |ys| && ys[f[k]] == xs[k])
    && (forall k, l :: 0 <= k < l < |f| ==> f[k] < f[l])
  }

  lemma EmbedsCompose(xs: seq<Bytes>, ys: seq<Bytes>, zs: seq<Bytes>, f: seq<nat>, g: seq<nat>) returns (h: seq<nat>)
    requires Embeds(xs, ys, f) && Embeds(ys, zs, g)
    ensures Embeds(xs, zs, h)
  {
    h := seq(|f|, k requires 0 <= k < |f| => g[f[k]]);
  }

  lemma {:induction false} FittingEmbeds(self: Self, r: Name, payloads: seq<Bytes>) returns (f: seq<nat>)
    ensures Embeds(ClientRuns.Fitting(self, r, payloads), payloads, f)
  {
    if payloads == [] {
      f := [];
    } else {
      var n := |payloads| - 1;
      f := FittingEmbeds(self, r, payloads[..n]);
      if ClientRuns.Sendable(self, r, payloads[n]) {
        f := f + [n];
      }
    }
  }

  /** The place of entry `i` among what `a` sent to `b`. */
  function Rank(log: seq<Entry>, a: Name, b: Name, i: nat): nat
    requires i <= |log|
  {
    |LogTo(log[..i], a, b)|
  }

  lemma RankFinds(log: seq<Entry>, a: Name, b: Name, i: nat)
    requires i < |log| && FromTo(log[i], a, b)
    ensures Rank(log, a, b, i) < |LogTo(log, a, b)| && LogTo(log, a, b)[Rank(log, a, b, i)] == log[i].plaintext
  {
    assert log == log[..i] + log[i..] && log[i..] == [log[i]] + log[i + 1..];
    LogToConcat(log[..i], log[i..], a, b);
    LogToConcat([log[i]], log[i + 1..], a, b);
    assert [log[i]][..0] == [];
  }

  lemma RankRises(log: seq<Entry>, a: Name, b: Name, i: nat, j: nat)
    requires i < j <= |log| && FromTo(log[i], a, b)
    ensures Rank(log, a, b, i) < Rank(log, a, b, j)
  {
    RankFinds(log[..j], a, b, i);
    assert log[..j][..i] == log[..i];
  }

  function Plaintexts(got: seq<Accepted>): seq<Bytes> {
    seq(|got|, k requires 0 <= k < |got| => got[k].plaintext)
  }

  lemma OriginEmbeds(w: World, a: Name, b: Name, got: seq<Accepted>, origin: seq<nat>) returns (f: seq<nat>)
    requires InOrderFrom(w, a, b, got, origin)
    ensures Embeds(Plaintexts(got), LogTo(w.log, a, b), f)
  {
    hide LogTo, Rank;
    f := seq(|origin|, k requires 0 <= k < |origin| => Rank(w.log, a, b, origin[k]));
    forall k | 0 <= k < |got|
      ensures f[k] < |LogTo(w.log, a, b)| && LogTo(w.log, a, b)[f[k]] == got[k].plaintext
    {
      RankFinds(w.log, a, b, origin[k]);
    }
    forall k, l | 0 <= k < l < |f|
      ensures f[k] < f[l]
    {
      RankRises(w.log, a, b, origin[k], origin[l]);
    }
  }

  lemma {:induction false} QueuedIsConserved(u: Setup, systems: seq<System>, acts: seq<Action>, n: nat, a: Name, b: Name)
    requires NetworkRun(u, systems, acts) && n < |systems| && Spent(u, systems, acts, n) < U64_LIMIT
    ensures var s := ClientOf(systems[n], a);
            Queued(systems, acts, n, a, b) == ClientRuns.HandedOver(s.log, b) + MessageQueue.Lookup(s.queues, b)
  {
    hide ClientRuns.HandedOver, ClientRuns.Kept, ClientRuns.Step, EventsOf, CounterProtocol.Step, MessageQueue.Lookup;
    if n == 0 {
      ClientRuns.NothingYet(b);
    } else {
      RunStep(u, systems, acts, n - 1);
      NetworkRunKeepsInv(u, systems, acts, n - 1);
      QueuedIsConserved(u, systems, acts, n - 1, a, b);
      hide NetworkRun, Ready, CanHappen, Inv;
      var act, before := acts[n - 1], ClientOf(systems[n - 1], a);
      assert ClientOk(u, systems[n - 1], a);
      if act.Local? && act.client == a {
        ClientRuns.StepConserves(u.Self(a), before, act.event, b);
      } else {
        assert ClientOf(systems[n], a) == before;
      }
    }
  }

  /** What a client has sent embeds in what its user queued. */
  lemma SentEmbeds(u: Setup, systems: seq<System>, acts: seq<Action>, n: nat, a: Name, b: Name, got: seq<Accepted>, places: seq<nat>)
    returns (origin: seq<nat>)
    requires NetworkRun(u, systems, acts) && n < |systems| && Spent(u, systems, acts, n) < U64_LIMIT
    requires InOrderFrom(systems[n].world, a, b, got, places)
    ensures Embeds(Plaintexts(got), Queued(systems, acts, n, a, b), origin)
  {
    NetworkRunKeepsInv(u, systems, acts, n);
    QueuedIsConserved(u, systems, acts, n, a, b);
    assert ClientOk(u, systems[n], a);
    hide Embeds, Plaintexts, Queued, LogTo, Inv, Ideal, Tracks, InOrderFrom,
         ClientRuns.HandedOver, ClientRuns.SentTo, ClientRuns.LogOk, ClientRuns.Fitting, ClientRuns.CountersInWord;
    var w, self, s := systems[n].world, u.Self(a), ClientOf(systems[n], a);
    var f := OriginEmbeds(w, a, b, got, places);
    var taken := ClientRuns.HandedOver(s.log, b);
    ClientRuns.SentIsFitting(self, s.log, b);
    var g := FittingEmbeds(self, b, taken);
    var h := EmbedsCompose(Plaintexts(got), LogTo(w.log, a, b), taken, f, g);
    EmbedsInMore(Plaintexts(got), taken, MessageQueue.Lookup(s.queues, b), h);
    origin := h;
  }

  /** In every run of clients with queues on one network, whatever keys anyone was handed: what `b` accepts from `a`,
      addressed to it and with `a`'s own key attached, is an in-order, duplicate-free subsequence of the payloads `a`
      queued for `b`, if the two names settle their salt. */
  lemma AddressedWasQueued(u: Setup, systems: seq<System>, acts: seq<Action>, n: nat, a: Name, b: Name)
    returns (origin: seq<nat>)
    requires NetworkRun(u, systems, acts) && n < |systems| && Spent(u, systems, acts, n) < U64_LIMIT
    requires Settled(b, a, b)
    ensures Embeds(Plaintexts(AddressedTo(AcceptedFrom(systems[n].world.accepts, b, a, u.crypto.own(a)), b)),
                   Queued(systems, acts, n, a, b), origin)
  {
    NetworkRunKeepsInv(u, systems, acts, n);
    hide Embeds, Plaintexts, AcceptedFrom, AddressedTo, Queued, Inv, Ideal, Settled, InOrderFrom, ClientOk;
    var places := SettledInOrder(u.crypto, systems[n].world, Spent(u, systems, acts, n), a, b);
    var got := AddressedTo(AcceptedFrom(systems[n].world.accepts, b, a, u.crypto.own(a)), b);
    origin := SentEmbeds(u, systems, acts, n, a, b, got, places);
  }

  /** In every run in which the key responses are genuine, whatever is attached to arrivals: what `b` accepts from `a`
      with `a`'s own key attached is an in-order, duplicate-free subsequence of the payloads `a` queued for `b`. */
  lemma AcceptedWasQueued(u: Setup, systems: seq<System>, acts: seq<Action>, n: nat, a: Name, b: Name)
    returns (origin: seq<nat>)
    requires NetworkRun(u, systems, acts) && n < |systems| && Spent(u, systems, acts, n) < U64_LIMIT
    requires forall i :: 0 <= i < n ==> AnswersGenuinely(u, acts[i])
    ensures Embeds(Plaintexts(AcceptedFrom(systems[n].world.accepts, b, a, u.crypto.own(a))),
                   Queued(systems, acts, n, a, b), origin)
  {
    NetworkRunKeepsInv(u, systems, acts, n);
    GenuineResponsesSuffice(u, systems, acts, n);
    hide Embeds, Plaintexts, AcceptedFrom, Queued, Inv, Ideal, GenuineSends, InOrderFrom, ClientOk, AnswersGenuinely;
    var places := GenuineInOrder(u.crypto, systems[n].world, Spent(u, systems, acts, n), a, b);
    var got := AcceptedFrom(systems[n].world.accepts, b, a, u.crypto.own(a));
    origin := SentEmbeds(u, systems, acts, n, a, b, got, places);
  }

  lemma EmbedsInMore(xs: seq<Bytes>, ys: seq<Bytes>, more: seq<Bytes>, f: seq<nat>)
    requires Embeds(xs, ys, f)
    ensures Embeds(xs, ys + more, f)
  {
  }

  // --- Genuine key responses ---

  /** A key response hands out the key of the name it is for. Nothing is asked of the keys attached to arrivals. */
  predicate AnswersGenuinely(u: Setup, act: Action) {
    act.Local? && act.event.KeyResponse? ==> act.event.key == u.crypto.own(act.event.peer)
  }

  lemma {:induction false} RecordedIsGenuine(self: Self, key: Bytes, peer: Name, log: seq<Popped>, i: nat)
    requires i < |Recorded(self, key, log)| && key == self.crypto.own(peer)
    requires forall k :: 0 <= k < |log| ==> log[k].recipient == peer
    ensures var e := Recorded(self, key, log)[i]; e.Sent? && e.key == self.crypto.own(e.to)
  {
    var skipped := if log[0].wire.Ok? then 1 else 0;
    if i >= skipped {
      RecordedIsGenuine(self, key, peer, log[1..], i - skipped);
    }
  }

  lemma LocalKeepsSendsGenuine(u: Setup, sys: System, act: Action)
    requires act.Local? && AnswersGenuinely(u, act) && ClientOk(u, sys, act.client) && GenuineSends(u.crypto, sys.world)
    ensures GenuineSends(u.crypto, NetworkStep(u, sys, act).world)
  {
    hide EventsOf, ClientRuns.Step, LogTo, ClientRuns.SentTo, ClientRuns.LogOk, ClientRuns.CountersInWord, Tracks, SameForOthers;
    var self, s, e := u.Self(act.client), ClientOf(sys, act.client), act.event;
    StepIsProtocol(self, sys.world, s, e);
    StepSealsFor(self, s, e);
    var added := ClientRuns.Step(self, s, e).log[|s.log|..];
    var sent := Recorded(self, SealsWith(e), added);
    var w' := NetworkStep(u, sys, act).world;
    forall i | 0 <= i < |w'.log| && w'.log[i].Sent?
      ensures w'.log[i].key == u.crypto.own(w'.log[i].to)
    {
      if i >= |sys.world.log| {
        RecordedIsGenuine(self, SealsWith(e), e.peer, added, i - |sys.world.log|);
      }
    }
  }

  lemma OutsideKeepsSendsGenuine(u: Setup, sys: System, act: Action)
    requires act.Outside? && CanHappen(u, sys, act) && GenuineSends(u.crypto, sys.world)
    ensures GenuineSends(u.crypto, NetworkStep(u, sys, act).world)
  {
    hide Sealed, MessageKey;
  }

  /** Clients seal for genuine keys if the key responses are genuine: a drain seals with the key of the response that
      set it off, whatever arrivals have put in the cache. */
  lemma {:induction false} GenuineResponsesSuffice(u: Setup, systems: seq<System>, acts: seq<Action>, n: nat)
    requires NetworkRun(u, systems, acts) && n < |systems| && Spent(u, systems, acts, n) < U64_LIMIT
    requires forall i :: 0 <= i < n ==> AnswersGenuinely(u, acts[i])
    ensures GenuineSends(u.crypto, systems[n].world)
  {
    if n > 0 {
      RunStep(u, systems, acts, n - 1);
      NetworkRunKeepsInv(u, systems, acts, n - 1);
      assert ClientOk(u, systems[n - 1], if acts[n - 1].Local? then acts[n - 1].client else []);
      GenuineResponsesSuffice(u, systems, acts, n - 1);
      hide NetworkRun, CanHappen, NetworkStep, ClientOk, GenuineSends, AnswersGenuinely, Inv;
      if acts[n - 1].Local? {
        LocalKeepsSendsGenuine(u, systems[n - 1], acts[n - 1]);
      } else {
        OutsideKeepsSendsGenuine(u, systems[n - 1], acts[n - 1]);
      }
    }
  }
}
