/** Any number of clients exchanging sealed messages over a network that may lose, repeat, reorder, alter, misroute and
    relabel them, and on which anyone may seal messages with keys of their own.

    A client keeps one counter per peer name, used for what it sends to that peer and for what it accepts from it, and
    a cache of peers' public keys. A delivered message brings the key it is to be opened with: the claimed sender's
    name only selects the counter and the salt. */
module CounterProtocol {
  import opened Octets
  import opened Identities
  import opened SealedBox

  /** The primitives (`parses` says which bytes make a public key, `verify` checks a signature under an identity key),
      and the public key that each client running this code was started with. */
  datatype Crypto = Crypto(cipher: Cipher, keys: KeySchedule, parses: Bytes -> bool,
                           verify: (Bytes, Bytes, Bytes) -> bool, own: Name -> Bytes)

  ghost predicate Ideal(x: Crypto) {
    && Correct(x.cipher) && Sound(x.keys)
    && (forall a :: x.parses(x.own(a)))
    && (forall a, b :: x.own(a) == x.own(b) ==> a == b)
  }

  /** The keys attached to a message parse and their signature holds. */
  predicate Vouched(x: Crypto, keys: Keys) {
    x.parses(keys.dh) && x.parses(keys.identity) && x.verify(keys.identity, keys.dh, keys.signature)
  }

  /** A key that belongs to no client running this code. */
  ghost predicate Foreign(x: Crypto, key: Bytes) {
    forall n :: x.own(n) != key
  }

  /** Everything ever sealed: by a client for a peer, under the key it had cached, or by somebody else at will. */
  datatype Entry =
    | Sent(from: Name, to: Name, key: Bytes, counter: nat, plaintext: Bytes, wire: Bytes)
    | Crafted(holder: Bytes, key: Bytes, names: (Name, Name), counter: nat, plaintext: Bytes, wire: Bytes)

  function Holder(x: Crypto, e: Entry): Bytes {
    match e case Sent(from, _, _, _, _, _) => x.own(from) case Crafted(holder, _, _, _, _, _) => holder
  }

  function KeyOf(x: Crypto, e: Entry): Bytes {
    match e
    case Sent(from, to, key, _, _, _) => MessageKey(x.keys, x.own(from), key, from, to)
    case Crafted(holder, key, names, _, _, _) => MessageKey(x.keys, holder, key, names.0, names.1)
  }

  /** `attached` are the keys that came with the message, `addressed` is the recipient's name as the message gives it. */
  datatype Accepted = Accepted(at: Name, from: Name, addressed: Name, attached: Keys, counter: nat, plaintext: Bytes, wire: Bytes)

  datatype World = World(counters: map<(Name, Name), nat>, cache: map<(Name, Name), Bytes>,
                         log: seq<Entry>, accepts: seq<Accepted>)

  /** `Send` covers private messages and file chunks. */
  datatype Event =
    | KeyArrives(at: Name, peer: Name, key: Bytes)
    | Send(from: Name, to: Name, plaintext: Bytes, iv: Bytes)
    | Craft(holder: Bytes, key: Bytes, names: (Name, Name), counter: nat, plaintext: Bytes, iv: Bytes)
    | Deliver(at: Name, claimed: Name, addressed: Name, attached: Keys, wire: Bytes)

  const START := World(map[], map[], [], [])

  /** A missing counter reads as zero. */
  function Counter(w: World, owner: Name, peer: Name): nat {
    if (owner, peer) in w.counters then w.counters[(owner, peer)] else 0
  }

  function Bumped(w: World, owner: Name, peer: Name): World {
    w.(counters := w.counters[(owner, peer) := (Counter(w, owner, peer) + 1) % U64_LIMIT])
  }

  /** Bytes that make no key are not cached. */
  function Cached(x: Crypto, w: World, owner: Name, peer: Name, key: Bytes): World {
    if x.parses(key) then w.(cache := w.cache[(owner, peer) := key]) else w
  }

  function SealedEntry(x: Crypto, w: World, from: Name, to: Name, key: Bytes, plaintext: Bytes, iv: Bytes): Entry {
    var n := Counter(w, from, to);
    Sent(from, to, key, n, plaintext, Sealed(x.cipher, MessageKey(x.keys, x.own(from), key, from, to), iv, n, plaintext))
  }

  /** Without a cached key nothing is sent. */
  function SendStep(x: Crypto, w: World, from: Name, to: Name, plaintext: Bytes, iv: Bytes): World {
    if (from, to) !in w.cache then w else
    Bumped(w, from, to).(log := w.log + [SealedEntry(x, w, from, to, w.cache[(from, to)], plaintext, iv)])
  }

  function CraftStep(x: Crypto, w: World, e: Event): World
    requires e.Craft?
  {
    var wire := Sealed(x.cipher, MessageKey(x.keys, e.holder, e.key, e.names.0, e.names.1), e.iv, e.counter, e.plaintext);
    w.(log := w.log + [Crafted(e.holder, e.key, e.names, e.counter, e.plaintext, wire)])
  }

  function OpenWith(x: Crypto, at: Name, claimed: Name, addressed: Name, key: Bytes): Bytes {
    MessageKey(x.keys, x.own(at), key, claimed, addressed)
  }

  /** Cache the attached key; check the attached keys and their signature; open under the attached
      key and the counter kept for the claimed name; advance that counter on success only. */
  function DeliverStep(x: Crypto, w: World, at: Name, claimed: Name, addressed: Name, attached: Keys, wire: Bytes): World {
    var w' := Cached(x, w, at, claimed, attached.dh);
    if !Vouched(x, attached) then w' else
    var n := Counter(w, at, claimed);
    match Opened(x.cipher, OpenWith(x, at, claimed, addressed, attached.dh), wire, n)
    case Err(_) => w'
    case Ok(plaintext) =>
      Bumped(w', at, claimed).(accepts := w.accepts + [Accepted(at, claimed, addressed, attached, n, plaintext, wire)])
  }

  function Step(x: Crypto, w: World, e: Event): World {
    match e
    case KeyArrives(at, peer, key) => Cached(x, w, at, peer, key)
    case Send(from, to, plaintext, iv) => SendStep(x, w, from, to, plaintext, iv)
    case Craft(_, _, _, _, _, _) => CraftStep(x, w, e)
    case Deliver(at, claimed, addressed, attached, wire) => DeliverStep(x, w, at, claimed, addressed, attached, wire)
  }

  /** The authenticity AES-GCM promises: what opens under a key was sealed under that key before. */
  ghost predicate Unforged(x: Crypto, w: World, e: Event) {
    e.Deliver? && |e.wire| >= IV_LEN + COUNTER_LEN + TAG_LEN
    && Authenticated(x.cipher, OpenWith(x, e.at, e.claimed, e.addressed, e.attached.dh), e.wire).Some? ==>
      exists i :: 0 <= i < |w.log| && w.log[i].wire == e.wire
                  && KeyOf(x, w.log[i]) == OpenWith(x, e.at, e.claimed, e.addressed, e.attached.dh)
  }

  /** What can happen: clients draw 12-byte ivs, and others hold only keys of their own. */
  ghost predicate Possible(x: Crypto, w: World, e: Event) {
    && Unforged(x, w, e)
    && (e.Send? ==> |e.iv| == IV_LEN)
    && (e.Craft? ==> |e.iv| == IV_LEN && e.counter < U64_LIMIT && Foreign(x, e.holder))
  }

  ghost predicate Run(x: Crypto, worlds: seq<World>, events: seq<Event>) {
    && Ideal(x) && |worlds| == |events| + 1 && worlds[0] == START
    && forall i :: 0 <= i < |events| ==> Possible(x, worlds[i], events[i]) && worlds[i + 1] == Step(x, worlds[i], events[i])
  }

  // --- The invariant ---

  /** An entry's wire carries its counter and opens under its key; no crafted entry is sealed with a client's key. */
  ghost predicate EntryOk(x: Crypto, e: Entry) {
    && |e.wire| >= IV_LEN + COUNTER_LEN + TAG_LEN
    && CarriedCounter(e.wire) == e.counter
    && Authenticated(x.cipher, KeyOf(x, e), e.wire) == Some(e.plaintext)
    && (e.Crafted? ==> Foreign(x, e.holder))
  }

  ghost predicate SamePair(d: Entry, e: Entry) {
    d.Sent? && e.Sent? && d.from == e.from && d.to == e.to
  }

  ghost predicate LogOrdered(x: Crypto, w: World) {
    && (forall i :: 0 <= i < |w.log| ==> EntryOk(x, w.log[i]))
    && (forall i :: 0 <= i < |w.log| && w.log[i].Sent? ==> w.log[i].counter < Counter(w, w.log[i].from, w.log[i].to))
    && (forall i, j :: 0 <= i < j < |w.log| && SamePair(w.log[i], w.log[j]) ==> w.log[i].counter < w.log[j].counter)
  }

  /** Entry `i` is what was accepted: same bytes, counter and plaintext, sealed under the key it was opened with. */
  ghost predicate Origin(x: Crypto, w: World, i: int, a: Accepted) {
    && 0 <= i < |w.log| && w.log[i].wire == a.wire && w.log[i].counter == a.counter && w.log[i].plaintext == a.plaintext
    && KeyOf(x, w.log[i]) == OpenWith(x, a.at, a.from, a.addressed, a.attached.dh)
  }

  ghost predicate AcceptOk(x: Crypto, w: World, a: Accepted) {
    Vouched(x, a.attached) && a.counter < Counter(w, a.at, a.from) && exists i :: Origin(x, w, i, a)
  }

  ghost predicate AcceptsRise(accepts: seq<Accepted>) {
    forall k, l :: 0 <= k < l < |accepts| && accepts[k].at == accepts[l].at && accepts[k].from == accepts[l].from
      ==> accepts[k].counter < accepts[l].counter
  }

  ghost predicate AcceptsOrdered(x: Crypto, w: World) {
    AcceptsRise(w.accepts) && forall k :: 0 <= k < |w.accepts| ==> AcceptOk(x, w, w.accepts[k])
  }

  /** The one counter is spent once: a client never sends to and accepts from a peer under the same value. */
  ghost predicate SpentOnce(log: seq<Entry>, accepts: seq<Accepted>) {
    forall i, k :: 0 <= i < |log| && 0 <= k < |accepts| && log[i].Sent?
                   && log[i].from == accepts[k].at && log[i].to == accepts[k].from
      ==> log[i].counter != accepts[k].counter
  }

  ghost predicate CountersBelow(w: World, n: nat) {
    forall a, b :: Counter(w, a, b) <= n
  }

  ghost predicate Inv(x: Crypto, w: World, n: nat) {
    LogOrdered(x, w) && AcceptsOrdered(x, w) && SpentOnce(w.log, w.accepts) && CountersBelow(w, n)
  }

  lemma BumpedCounters(w: World, owner: Name, peer: Name)
    requires Counter(w, owner, peer) + 1 < U64_LIMIT
    ensures forall a, b :: Counter(Bumped(w, owner, peer), a, b)
              == Counter(w, a, b) + (if a == owner && b == peer then 1 else 0)
  {
  }

  /** An accept keeps its origin and stays behind its counter as the log and the counters grow. */
  lemma AcceptOkKept(x: Crypto, w: World, w': World, a: Accepted)
    requires AcceptOk(x, w, a) && w.log <= w'.log && Counter(w', a.at, a.from) >= Counter(w, a.at, a.from)
    ensures AcceptOk(x, w', a)
  {
    hide KeyOf, OpenWith;
    var i :| Origin(x, w, i, a);
    assert Origin(x, w', i, a);
  }

  lemma AcceptsKept(x: Crypto, w: World, w': World)
    requires AcceptsOrdered(x, w) && w.log <= w'.log && w'.accepts == w.accepts
    requires forall a, b :: Counter(w', a, b) >= Counter(w, a, b)
    ensures AcceptsOrdered(x, w')
  {
    hide AcceptOk;
    forall k | 0 <= k < |w'.accepts|
      ensures AcceptOk(x, w', w'.accepts[k])
    {
      AcceptOkKept(x, w, w', w.accepts[k]);
    }
  }

  lemma CacheKeepsInv(x: Crypto, w: World, n: nat, at: Name, peer: Name, key: Bytes)
    requires Inv(x, w, n)
    ensures Inv(x, Cached(x, w, at, peer, key), n)
  {
    hide EntryOk, AcceptsOrdered, SpentOnce;
    var w' := Cached(x, w, at, peer, key);
    assert forall a, b :: Counter(w', a, b) == Counter(w, a, b);
    AcceptsKept(x, w, w');
  }

  lemma AcceptIsBehind(x: Crypto, w: World, a: Accepted)
    requires AcceptOk(x, w, a)
    ensures a.counter < Counter(w, a.at, a.from)
  {
  }

  lemma AddSentKeepsInv(x: Crypto, w: World, n: nat, e: Entry)
    requires Inv(x, w, n) && n + 1 < U64_LIMIT && e.Sent? && EntryOk(x, e) && e.counter == Counter(w, e.from, e.to)
    ensures Inv(x, Bumped(w, e.from, e.to).(log := w.log + [e]), n + 1)
  {
    hide EntryOk, AcceptOk;
    var w' := Bumped(w, e.from, e.to).(log := w.log + [e]);
    BumpedCounters(w, e.from, e.to);
    assert forall a, b :: Counter(w', a, b) == Counter(Bumped(w, e.from, e.to), a, b);
    AcceptsKept(x, w, w');
    forall k | 0 <= k < |w.accepts| && e.from == w.accepts[k].at && e.to == w.accepts[k].from
      ensures e.counter != w.accepts[k].counter
    {
      AcceptIsBehind(x, w, w.accepts[k]);
    }
    hide AcceptsOrdered;
  }

  lemma AddCraftedKeepsInv(x: Crypto, w: World, n: nat, e: Entry)
    requires Inv(x, w, n) && e.Crafted? && EntryOk(x, e)
    ensures Inv(x, w.(log := w.log + [e]), n)
  {
    hide EntryOk, AcceptsOrdered;
    var w' := w.(log := w.log + [e]);
    assert forall a, b :: Counter(w', a, b) == Counter(w, a, b);
    AcceptsKept(x, w, w');
  }

  /** Adding an accept that has an origin keeps the invariant: own entries for that peer have smaller counters. */
  lemma AddAcceptKeepsInv(x: Crypto, w: World, n: nat, got: Accepted, o: nat)
    requires Inv(x, w, n) && n + 1 < U64_LIMIT
    requires got.counter == Counter(w, got.at, got.from) && Origin(x, w, o, got) && Vouched(x, got.attached)
    ensures Inv(x, Bumped(w, got.at, got.from).(accepts := w.accepts + [got]), n + 1)
  {
    hide EntryOk, Origin;
    var w' := Bumped(w, got.at, got.from).(accepts := w.accepts + [got]);
    BumpedCounters(w, got.at, got.from);
    assert forall a, b :: Counter(w', a, b) == Counter(Bumped(w, got.at, got.from), a, b);
    AcceptKeepsOrder(x, w, w', got, o);
    hide AcceptsOrdered;
  }

  lemma AcceptKeepsOrder(x: Crypto, w: World, w': World, got: Accepted, o: nat)
    requires AcceptsOrdered(x, w) && Origin(x, w, o, got) && got.counter == Counter(w, got.at, got.from)
    requires Vouched(x, got.attached) && w'.log == w.log && w'.accepts == w.accepts + [got]
    requires forall a, b :: Counter(w', a, b) == Counter(w, a, b) + (if a == got.at && b == got.from then 1 else 0)
    ensures AcceptsOrdered(x, w')
  {
    assert Origin(x, w', o, got);
    assert AcceptOk(x, w', got);
    hide AcceptOk, Origin;
    forall k | 0 <= k < |w'.accepts|
      ensures AcceptOk(x, w', w'.accepts[k])
    {
      if k < |w.accepts| {
        AcceptOkKept(x, w, w', w.accepts[k]);
      }
    }
    forall k | 0 <= k < |w.accepts| && w.accepts[k].at == got.at && w.accepts[k].from == got.from
      ensures w.accepts[k].counter < got.counter
    {
      AcceptIsBehind(x, w, w.accepts[k]);
    }
  }

  lemma SendKeepsInv(x: Crypto, w: World, n: nat, e: Event)
    requires Ideal(x) && Inv(x, w, n) && n + 1 < U64_LIMIT && e.Send? && |e.iv| == IV_LEN
    ensures Inv(x, Step(x, w, e), n + 1)
  {
    hide CarriedCounter, Authenticated, MessageKey, Sealed;
    if (e.from, e.to) in w.cache {
      var key := w.cache[(e.from, e.to)];
      SealedParts(x.cipher, MessageKey(x.keys, x.own(e.from), key, e.from, e.to), e.iv, Counter(w, e.from, e.to), e.plaintext);
      AddSentKeepsInv(x, w, n, SealedEntry(x, w, e.from, e.to, key, e.plaintext, e.iv));
    }
  }

  lemma CraftKeepsInv(x: Crypto, w: World, n: nat, e: Event)
    requires Ideal(x) && Inv(x, w, n) && e.Craft? && Possible(x, w, e)
    ensures Inv(x, Step(x, w, e), n)
  {
    hide CarriedCounter, Authenticated, MessageKey, Sealed;
    var key := MessageKey(x.keys, e.holder, e.key, e.names.0, e.names.1);
    SealedParts(x.cipher, key, e.iv, e.counter, e.plaintext);
    AddCraftedKeepsInv(x, w, n, Crafted(e.holder, e.key, e.names, e.counter, e.plaintext,
                                        Sealed(x.cipher, key, e.iv, e.counter, e.plaintext)));
  }

  lemma LogIsSound(x: Crypto, w: World, i: nat)
    requires LogOrdered(x, w) && i < |w.log|
    ensures EntryOk(x, w.log[i])
  {
  }

  lemma DeliverKeepsInv(x: Crypto, w: World, n: nat, e: Event)
    requires Inv(x, w, n) && n + 1 < U64_LIMIT && e.Deliver? && Unforged(x, w, e)
    ensures Inv(x, Step(x, w, e), n + 1)
  {
    hide KeyOf, MessageKey, LogOrdered, AcceptsOrdered, SpentOnce, CountersBelow;
    var w1 := Cached(x, w, e.at, e.claimed, e.attached.dh);
    CacheKeepsInv(x, w, n, e.at, e.claimed, e.attached.dh);
    InvGrows(x, w1, n);
    var c := Counter(w, e.at, e.claimed);
    if Vouched(x, e.attached) {
      match Opened(x.cipher, OpenWith(x, e.at, e.claimed, e.addressed, e.attached.dh), e.wire, c)
      case Err(_) =>
      case Ok(plaintext) =>
        var i :| 0 <= i < |w.log| && w.log[i].wire == e.wire
                 && KeyOf(x, w.log[i]) == OpenWith(x, e.at, e.claimed, e.addressed, e.attached.dh);
        LogIsSound(x, w, i);
        AddAcceptKeepsInv(x, w1, n, Accepted(e.at, e.claimed, e.addressed, e.attached, c, plaintext, e.wire), i);
    }
  }

  lemma StepKeepsInv(x: Crypto, w: World, n: nat, e: Event)
    requires Ideal(x) && Inv(x, w, n) && n + 1 < U64_LIMIT && Possible(x, w, e)
    ensures Inv(x, Step(x, w, e), n + 1)
  {
    hide Inv, SendStep, CraftStep, DeliverStep;
    match e
    case KeyArrives(at, peer, key) => CacheKeepsInv(x, w, n, at, peer, key); InvGrows(x, Step(x, w, e), n);
    case Send(_, _, _, _) => SendKeepsInv(x, w, n, e);
    case Craft(_, _, _, _, _, _) => CraftKeepsInv(x, w, n, e); InvGrows(x, Step(x, w, e), n);
    case Deliver(_, _, _, _, _) => DeliverKeepsInv(x, w, n, e);
  }

  lemma InvGrows(x: Crypto, w: World, n: nat)
    requires Inv(x, w, n)
    ensures Inv(x, w, n + 1)
  {
    hide LogOrdered, AcceptsOrdered, SpentOnce;
  }

  lemma {:induction false} RunKeepsInv(x: Crypto, worlds: seq<World>, events: seq<Event>, n: nat)
    requires Run(x, worlds, events) && n < |worlds| && n < U64_LIMIT
    ensures Inv(x, worlds[n], n)
  {
    if n > 0 {
      hide Inv, Step, Possible;
      RunKeepsInv(x, worlds, events, n - 1);
      StepKeepsInv(x, worlds[n - 1], n - 1, events[n - 1]);
    }
  }
}
