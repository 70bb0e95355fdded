/** What the counter protocol guarantees in every run, and what it guarantees only for genuine keys. */
module CounterGuarantees {
  import opened Octets
  import opened Identities
  import opened SealedBox
  import opened CounterProtocol

  // --- Who sealed what was accepted ---

  /** The two ends of the key an accepted message was opened with are the two ends of the key it was sealed with. */
  lemma OriginPair(x: Crypto, w: World, i: nat, a: Accepted)
    requires Ideal(x) && Origin(x, w, i, a)
    ensures (Holder(x, w.log[i]) == a.attached.dh && w.log[i].key == x.own(a.at))
            || (Holder(x, w.log[i]) == x.own(a.at) && w.log[i].key == a.attached.dh)
  {
  }

  /** In every run, whatever is accepted was sealed, with that counter and plaintext, by the holder of the key attached
      to it for the accepting client's key, or by the accepting client itself for the attached key. */
  lemma AcceptedWasSealedByKeyHolder(x: Crypto, worlds: seq<World>, events: seq<Event>, n: nat, k: nat) returns (i: nat)
    requires Run(x, worlds, events) && n < |worlds| && n < U64_LIMIT && k < |worlds[n].accepts|
    ensures var w, a := worlds[n], worlds[n].accepts[k];
            && Vouched(x, a.attached) && Origin(x, w, i, a)
            && ((Holder(x, w.log[i]) == a.attached.dh && w.log[i].key == x.own(a.at))
                || (Holder(x, w.log[i]) == x.own(a.at) && w.log[i].key == a.attached.dh))
  {
    RunKeepsInv(x, worlds, events, n);
    assert AcceptOk(x, worlds[n], worlds[n].accepts[k]);
    hide Origin;
    i :| Origin(x, worlds[n], i, worlds[n].accepts[k]);
    OriginPair(x, worlds[n], i, worlds[n].accepts[k]);
  }

  /** If the attached key is a client's, then that client or the accepting one sent the message by running this code. */
  lemma ClientKeyMeansClientSent(x: Crypto, w: World, n: nat, a: Accepted, i: nat, owner: Name)
    requires Ideal(x) && Inv(x, w, n) && Origin(x, w, i, a) && a.attached.dh == x.own(owner)
    ensures w.log[i].Sent? && (w.log[i].from == owner || w.log[i].from == a.at)
  {
    OriginPair(x, w, i, a);
    assert EntryOk(x, w.log[i]);
  }

  // --- Whether it was the claimed sender ---

  ghost predicate FromTo(e: Entry, a: Name, b: Name) {
    e.Sent? && e.from == a && e.to == b
  }

  /** What was accepted was sent to this client by the sender it claims. */
  ghost predicate HasSender(x: Crypto, w: World, a: Accepted) {
    exists i :: Origin(x, w, i, a) && FromTo(w.log[i], a.from, a.at)
  }

  /** The message is addressed to its reader by the right name, and next to either of the two names its salt leaves only
      the other. All of this can be read off the message. */
  predicate Settled(at: Name, from: Name, addressed: Name) {
    addressed == at && FixesPeer(from, at) && FixesPeer(at, from)
  }

  lemma SettledIff(at: Name, from: Name, addressed: Name)
    ensures Settled(at, from, addressed)
            <==> && (forall z :: Salt(from, z) == Salt(from, addressed) ==> z == at)
                 && (forall z :: Salt(at, z) == Salt(from, addressed) ==> z == from)
  {
    hide Salt, FixesPeer;
    FixesPeerIff(from, at);
    FixesPeerIff(at, from);
    SaltIsSymmetric(at, from);
    if forall z :: Salt(from, z) == Salt(from, addressed) ==> z == at {
      assert Salt(from, addressed) == Salt(from, addressed);
    }
  }

  /** A salt with one cut settles every message between its two names. */
  lemma OneCutSettles(at: Name, from: Name)
    requires CutsOnce(from, at)
    ensures Settled(at, from, at)
  {
    SaltDeterminesIff(from, at);
    DeterminedPairIsFixed(from, at);
  }

  /** What is opened was sealed with the same salt. */
  lemma OriginSalt(x: Crypto, w: World, i: nat, a: Accepted)
    requires Ideal(x) && Origin(x, w, i, a) && w.log[i].Sent?
    ensures Salt(w.log[i].from, w.log[i].to) == Salt(a.from, a.addressed)
  {
    hide Salt;
  }

  lemma SettledOrigin(x: Crypto, w: World, n: nat, a: Accepted, i: nat)
    requires Ideal(x) && Inv(x, w, n) && Origin(x, w, i, a) && a in w.accepts
    requires a.attached.dh == x.own(a.from) && Settled(a.at, a.from, a.addressed)
    ensures FromTo(w.log[i], a.from, a.at)
  {
    ClientKeyMeansClientSent(x, w, n, a, i, a.from);
    OriginSalt(x, w, i, a);
    SettledIff(a.at, a.from, a.addressed);
    hide Salt, Settled, LogOrdered, AcceptsOrdered, KeyOf, OpenWith, Ideal;
  }

  /** A right sender shows its own key. */
  lemma SenderShowsKey(x: Crypto, w: World, n: nat, k: nat)
    requires Ideal(x) && Inv(x, w, n) && k < |w.accepts| && HasSender(x, w, w.accepts[k])
    ensures w.accepts[k].attached.dh == x.own(w.accepts[k].from)
  {
    var a := w.accepts[k];
    var i :| Origin(x, w, i, a) && FromTo(w.log[i], a.from, a.at);
    OriginPair(x, w, i, a);
    hide LogOrdered, AcceptsOrdered, KeyOf, OpenWith;
  }

  /** An accepted message that came from the claimed sender has that sender's key attached; and when the names settle
      it, having that key attached is enough. */
  lemma AcceptedFromClaimedIff(x: Crypto, w: World, n: nat, k: nat)
    requires Ideal(x) && Inv(x, w, n) && k < |w.accepts|
    ensures var a := w.accepts[k];
            && (HasSender(x, w, a) ==> a.attached.dh == x.own(a.from))
            && (Settled(a.at, a.from, a.addressed) ==> (HasSender(x, w, a) <==> a.attached.dh == x.own(a.from)))
  {
    var a := w.accepts[k];
    if HasSender(x, w, a) {
      SenderShowsKey(x, w, n, k);
    } else if a.attached.dh == x.own(a.from) && Settled(a.at, a.from, a.addressed) {
      assert AcceptOk(x, w, a);
      var i :| Origin(x, w, i, a);
      SettledOrigin(x, w, n, a, i);
    }
  }

  ghost predicate Labelled(a: Accepted, at: Name, from: Name, addressed: Name, attached: Keys) {
    a.at == at && a.from == from && a.addressed == addressed && a.attached == attached
  }

  /** Whatever is accepted under these labels, in whatever run, was sent by the claimed sender to its reader. */
  ghost predicate SenderIsRight(x: Crypto, at: Name, from: Name, addressed: Name, attached: Keys) {
    forall worlds: seq<World>, events: seq<Event>, n: nat, k: nat
      | Run(x, worlds, events) && n < |worlds| && n < U64_LIMIT && k < |worlds[n].accepts|
        && Labelled(worlds[n].accepts[k], at, from, addressed, attached) ::
      HasSender(x, worlds[n], worlds[n].accepts[k])
  }

  /** With the claimed sender's key attached, the sender is right in every run exactly when the names settle it. */
  lemma SenderIsRightIff(x: Crypto, at: Name, from: Name, addressed: Name, attached: Keys)
    requires Ideal(x) && Vouched(x, attached) && attached.dh == x.own(from)
    ensures SenderIsRight(x, at, from, addressed, attached) <==> Settled(at, from, addressed)
  {
    hide Settled, Run, HasSender, Ideal, Vouched, Salt;
    if Settled(at, from, addressed) {
      forall worlds: seq<World>, events: seq<Event>, n: nat, k: nat
        | Run(x, worlds, events) && n < |worlds| && n < U64_LIMIT && k < |worlds[n].accepts|
          && Labelled(worlds[n].accepts[k], at, from, addressed, attached)
        ensures HasSender(x, worlds[n], worlds[n].accepts[k])
      {
        RunKeepsInv(x, worlds, events, n);
        AcceptedFromClaimedIff(x, worlds[n], n, k);
      }
    } else {
      SettledIff(at, from, addressed);
      var iv: Bytes := seq(IV_LEN, _ => 0);
      if z :| Salt(from, z) == Salt(from, addressed) && z != at {
        var worlds, events := MisdirectedIsAccepted(x, at, from, z, addressed, attached, [], iv);
      } else {
        var z :| Salt(at, z) == Salt(from, addressed) && z != from;
        var worlds, events := ReflectedIsAccepted(x, at, from, z, addressed, attached, [], iv);
      }
    }
  }

  /** The first way to be wrong: `from` was told that `at`'s key is `z`'s, and sent to `z`. What it sent is accepted at
      `at` under `from`'s name, with `from`'s own key attached. */
  lemma MisdirectedIsAccepted(x: Crypto, at: Name, from: Name, z: Name, addressed: Name, attached: Keys, plaintext: Bytes, iv: Bytes)
    returns (worlds: seq<World>, events: seq<Event>)
    requires Ideal(x) && Vouched(x, attached) && attached.dh == x.own(from) && |iv| == IV_LEN
    requires z != at && Salt(from, z) == Salt(from, addressed)
    ensures Run(x, worlds, events) && |worlds| == 4 && |worlds[3].accepts| == 1
    ensures Labelled(worlds[3].accepts[0], at, from, addressed, attached) && worlds[3].accepts[0].plaintext == plaintext
    ensures !HasSender(x, worlds[3], worlds[3].accepts[0])
  {
    worlds, events := TakenElsewhere(x, at, from, addressed, attached, from, z, x.own(at), plaintext, iv);
  }

  /** The second way: `at` was told that `from`'s key is `z`'s, and sent to `z`. Its own message comes back to it under
      `from`'s name. */
  lemma ReflectedIsAccepted(x: Crypto, at: Name, from: Name, z: Name, addressed: Name, attached: Keys, plaintext: Bytes, iv: Bytes)
    returns (worlds: seq<World>, events: seq<Event>)
    requires Ideal(x) && Vouched(x, attached) && attached.dh == x.own(from) && |iv| == IV_LEN
    requires z != from && Salt(at, z) == Salt(from, addressed)
    ensures Run(x, worlds, events) && |worlds| == 4 && |worlds[3].accepts| == 1
    ensures Labelled(worlds[3].accepts[0], at, from, addressed, attached) && worlds[3].accepts[0].plaintext == plaintext
    ensures |worlds[3].log| == 1 && FromTo(worlds[3].log[0], at, z)
    ensures !HasSender(x, worlds[3], worlds[3].accepts[0])
  {
    worlds, events := TakenElsewhere(x, at, from, addressed, attached, at, z, x.own(from), plaintext, iv);
  }

  /** `sender` seals one message to `z` under the key it holds for `z`, and `at` opens it under the name `from`. */
  lemma TakenElsewhere(x: Crypto, at: Name, from: Name, addressed: Name, attached: Keys,
                       sender: Name, z: Name, key: Bytes, plaintext: Bytes, iv: Bytes)
    returns (worlds: seq<World>, events: seq<Event>)
    requires Ideal(x) && Vouched(x, attached) && |iv| == IV_LEN && x.parses(key) && (sender, z) != (at, from)
    requires MessageKey(x.keys, x.own(sender), key, sender, z) == OpenWith(x, at, from, addressed, attached.dh)
    ensures Run(x, worlds, events) && |worlds| == 4 && |worlds[3].accepts| == 1
    ensures Labelled(worlds[3].accepts[0], at, from, addressed, attached) && worlds[3].accepts[0].plaintext == plaintext
    ensures |worlds[3].log| == 1 && FromTo(worlds[3].log[0], sender, z)
  {
    hide MessageKey, OpenWith, Sealed, Opened;
    var arrives, send := KeyArrives(sender, z, key), Send(sender, z, plaintext, iv);
    var w1 := Step(x, START, arrives);
    var w2 := Step(x, w1, send);
    var shared := OpenWith(x, at, from, addressed, attached.dh);
    var wire := Sealed(x.cipher, shared, iv, 0, plaintext);
    assert w2.log == [Sent(sender, z, key, 0, plaintext, wire)];
    OpensIffCounterMatches(x.cipher, shared, iv, 0, plaintext, 0);
    var deliver := Deliver(at, from, addressed, attached, wire);
    assert KeyOf(x, w2.log[0]) == shared;
    assert Counter(w2, at, from) == 0;
    worlds, events := [START, w1, w2, Step(x, w2, deliver)], [arrives, send, deliver];
  }

  // --- When clients sealed for genuine keys ---

  /** Every message a client sent was sealed for the recipient's own key. */
  ghost predicate GenuineSends(x: Crypto, w: World) {
    forall i :: 0 <= i < |w.log| && w.log[i].Sent? ==> w.log[i].key == x.own(w.log[i].to)
  }

  /** Then the attached key alone decides, whatever the names. */
  lemma GenuineOrigin(x: Crypto, w: World, n: nat, a: Accepted, i: nat)
    requires Ideal(x) && Inv(x, w, n) && GenuineSends(x, w) && Origin(x, w, i, a) && a.attached.dh == x.own(a.from)
    requires a in w.accepts
    ensures FromTo(w.log[i], a.from, a.at)
  {
    hide EntryOk, KeyOf, OpenWith;
    ClientKeyMeansClientSent(x, w, n, a, i, a.from);
    OriginPair(x, w, i, a);
  }

  // --- Order ---

  /** What `b` has accepted under the name `a` with the key `key` attached, oldest first. */
  function AcceptedFrom(accepts: seq<Accepted>, b: Name, a: Name, key: Bytes): (r: seq<Accepted>)
    ensures forall k :: 0 <= k < |r| ==> r[k] in accepts && r[k].at == b && r[k].from == a && r[k].attached.dh == key
  {
    if accepts == [] then [] else
    var last := accepts[|accepts| - 1];
    var before := AcceptedFrom(accepts[..|accepts| - 1], b, a, key);
    if last.at == b && last.from == a && last.attached.dh == key then before + [last] else before
  }

  ghost predicate CountersRise(r: seq<Accepted>) {
    forall k, l :: 0 <= k < l < |r| ==> r[k].counter < r[l].counter
  }

  lemma {:induction false} AcceptedCountersRise(accepts: seq<Accepted>, b: Name, a: Name, key: Bytes)
    requires AcceptsRise(accepts)
    ensures CountersRise(AcceptedFrom(accepts, b, a, key))
  {
    if accepts != [] {
      var front := accepts[..|accepts| - 1];
      assert AcceptsRise(front);
      AcceptedCountersRise(front, b, a, key);
      var r, last := AcceptedFrom(front, b, a, key), accepts[|accepts| - 1];
      if last.at == b && last.from == a {
        forall k | 0 <= k < |r|
          ensures r[k].counter < last.counter
        {
          assert r[k] in front;
          var j :| 0 <= j < |front| && front[j] == r[k];
          assert accepts[j] == r[k];
        }
      }
    }
  }

  lemma CountersRiseFrom(x: Crypto, w: World, b: Name, a: Name, key: Bytes)
    requires AcceptsOrdered(x, w)
    ensures CountersRise(AcceptedFrom(w.accepts, b, a, key))
  {
    hide AcceptOk;
    AcceptedCountersRise(w.accepts, b, a, key);
  }

  /** `origin` lists places in the log, rising strictly, of messages from `a` to `b` with the plaintexts of `got`. */
  ghost predicate InOrderFrom(w: World, a: Name, b: Name, got: seq<Accepted>, origin: seq<nat>) {
    && |origin| == |got|
    && (forall k :: 0 <= k < |got| ==>
          origin[k] < |w.log| && FromTo(w.log[origin[k]], a, b) && w.log[origin[k]].plaintext == got[k].plaintext)
    && (forall k, l :: 0 <= k < l < |origin| ==> origin[k] < origin[l])
  }

  lemma OriginFollowsCounter(x: Crypto, w: World, i: nat, j: nat, a: Accepted, b: Accepted)
    requires LogOrdered(x, w) && Origin(x, w, i, a) && Origin(x, w, j, b) && a.counter < b.counter
    requires FromTo(w.log[i], a.from, a.at) && FromTo(w.log[j], a.from, a.at)
    ensures i < j
  {
    hide EntryOk, KeyOf;
    assert SamePair(w.log[j], w.log[i]);
  }

  /** Accepted messages with rising counters that all came from `a` did so in order. */
  lemma OriginsRise(x: Crypto, w: World, a: Name, b: Name, got: seq<Accepted>) returns (origin: seq<nat>)
    requires LogOrdered(x, w) && CountersRise(got)
    requires forall k :: 0 <= k < |got| ==> got[k].from == a && got[k].at == b && HasSender(x, w, got[k])
    ensures InOrderFrom(w, a, b, got, origin)
  {
    hide LogOrdered, KeyOf, OpenWith;
    origin := [];
    while |origin| < |got|
      invariant |origin| <= |got|
      invariant forall k :: 0 <= k < |origin| ==>
                  && Origin(x, w, origin[k], got[k]) && FromTo(w.log[origin[k]], a, b)
                  && w.log[origin[k]].plaintext == got[k].plaintext
    {
      var g := got[|origin|];
      var i :| Origin(x, w, i, g) && FromTo(w.log[i], g.from, g.at);
      origin := origin + [i];
    }
    forall k, l | 0 <= k < l < |origin|
      ensures origin[k] < origin[l]
    {
      OriginFollowsCounter(x, w, origin[k], origin[l], got[k], got[l]);
    }
  }

  /** Of these, those that name `b` as their recipient. */
  function AddressedTo(got: seq<Accepted>, b: Name): (r: seq<Accepted>)
    ensures forall k :: 0 <= k < |r| ==> r[k] in got && r[k].addressed == b
  {
    if got == [] then [] else
    var last := got[|got| - 1];
    var before := AddressedTo(got[..|got| - 1], b);
    if last.addressed == b then before + [last] else before
  }

  lemma {:induction false} AddressedCountersRise(got: seq<Accepted>, b: Name)
    requires CountersRise(got)
    ensures CountersRise(AddressedTo(got, b))
  {
    if got != [] {
      var n := |got| - 1;
      AddressedCountersRise(got[..n], b);
      var r := AddressedTo(got[..n], b);
      forall k | 0 <= k < |r|
        ensures r[k].counter < got[n].counter
      {
        assert r[k] in got[..n];
        var j :| 0 <= j < n && got[j] == r[k];
      }
    }
  }

  lemma SettledHasSender(x: Crypto, w: World, n: nat, a: Accepted)
    requires Ideal(x) && Inv(x, w, n) && a in w.accepts
    requires a.attached.dh == x.own(a.from) && Settled(a.at, a.from, a.addressed)
    ensures HasSender(x, w, a)
  {
    hide Settled, HasSender, Ideal, Inv;
    var k :| 0 <= k < |w.accepts| && w.accepts[k] == a;
    AcceptedFromClaimedIff(x, w, n, k);
  }

  /** In every run: what `b` accepted from `a`, addressed to it and with `a`'s own key attached, is an in-order,
      duplicate-free subsequence of what `a` sent to `b`, if the two names settle their salt. */
  lemma AcceptedIsInOrderSubsequence(x: Crypto, worlds: seq<World>, events: seq<Event>, n: nat, a: Name, b: Name)
    returns (origin: seq<nat>)
    requires Run(x, worlds, events) && n < |worlds| && n < U64_LIMIT && Settled(b, a, b)
    ensures InOrderFrom(worlds[n], a, b, AddressedTo(AcceptedFrom(worlds[n].accepts, b, a, x.own(a)), b), origin)
  {
    RunKeepsInv(x, worlds, events, n);
    origin := SettledInOrder(x, worlds[n], n, a, b);
  }

  lemma SettledInOrder(x: Crypto, w: World, n: nat, a: Name, b: Name) returns (origin: seq<nat>)
    requires Ideal(x) && Inv(x, w, n) && Settled(b, a, b)
    ensures InOrderFrom(w, a, b, AddressedTo(AcceptedFrom(w.accepts, b, a, x.own(a)), b), origin)
  {
    hide Settled, HasSender, Ideal, LogOrdered, AcceptsOrdered, SpentOnce, CountersBelow, InOrderFrom;
    var all := AcceptedFrom(w.accepts, b, a, x.own(a));
    CountersRiseFrom(x, w, b, a, x.own(a));
    AddressedCountersRise(all, b);
    var got := AddressedTo(all, b);
    forall k | 0 <= k < |got|
      ensures got[k].from == a && got[k].at == b && HasSender(x, w, got[k])
    {
      assert got[k] in all;
      SettledHasSender(x, w, n, got[k]);
    }
    hide AcceptedFrom, AddressedTo, CountersRise;
    origin := OriginsRise(x, w, a, b, got);
  }

  lemma GenuineHasSender(x: Crypto, w: World, n: nat, a: Accepted)
    requires Ideal(x) && Inv(x, w, n) && GenuineSends(x, w) && a in w.accepts && a.attached.dh == x.own(a.from)
    ensures HasSender(x, w, a)
  {
    hide GenuineSends, Ideal, LogOrdered, SpentOnce;
    var j :| 0 <= j < |w.accepts| && w.accepts[j] == a;
    assert AcceptOk(x, w, w.accepts[j]);
    var i :| Origin(x, w, i, a);
    GenuineOrigin(x, w, n, a, i);
  }

  /** Where clients sealed for genuine keys the same holds of everything accepted under `a`'s own key, whatever the
      names and whomever it is addressed to. */
  lemma GenuineInOrder(x: Crypto, w: World, n: nat, a: Name, b: Name) returns (origin: seq<nat>)
    requires Ideal(x) && Inv(x, w, n) && GenuineSends(x, w)
    ensures InOrderFrom(w, a, b, AcceptedFrom(w.accepts, b, a, x.own(a)), origin)
  {
    hide GenuineSends, HasSender, Ideal, LogOrdered, AcceptsOrdered, SpentOnce, CountersBelow, InOrderFrom;
    CountersRiseFrom(x, w, b, a, x.own(a));
    var got := AcceptedFrom(w.accepts, b, a, x.own(a));
    forall k | 0 <= k < |got|
      ensures HasSender(x, w, got[k])
    {
      GenuineHasSender(x, w, n, got[k]);
    }
    hide AcceptedFrom, CountersRise;
    origin := OriginsRise(x, w, a, b, got);
  }

  // --- Genuine keys ---

  /** Every key a client is handed for a name is that name's. */
  predicate HandsGenuineKey(x: Crypto, e: Event) {
    && (e.KeyArrives? ==> e.key == x.own(e.peer))
    && (e.Deliver? ==> e.attached.dh == x.own(e.claimed))
  }

  ghost predicate GenuineCache(x: Crypto, w: World) {
    forall p :: p in w.cache ==> w.cache[p] == x.own(p.1)
  }

  ghost predicate GenuineAccepts(x: Crypto, w: World) {
    forall k :: 0 <= k < |w.accepts| ==> w.accepts[k].attached.dh == x.own(w.accepts[k].from)
  }

  lemma StepKeepsGenuine(x: Crypto, w: World, e: Event)
    requires GenuineCache(x, w) && GenuineSends(x, w) && GenuineAccepts(x, w) && HandsGenuineKey(x, e)
    ensures var w' := Step(x, w, e); GenuineCache(x, w') && GenuineSends(x, w') && GenuineAccepts(x, w')
  {
    hide Opened, Sealed, OpenWith;
  }

  /** When only genuine keys are handed out, caches, sends and accepts are genuine throughout, so every accepted
      message was sent by the sender it claims, to this client, in order and without duplicates. */
  lemma {:induction false} GenuineKeysStayGenuine(x: Crypto, worlds: seq<World>, events: seq<Event>, n: nat)
    requires Run(x, worlds, events) && n < |worlds|
    requires forall i :: 0 <= i < n ==> HandsGenuineKey(x, events[i])
    ensures GenuineCache(x, worlds[n]) && GenuineSends(x, worlds[n]) && GenuineAccepts(x, worlds[n])
  {
    if n > 0 {
      GenuineKeysStayGenuine(x, worlds, events, n - 1);
      hide Step, Possible, GenuineCache, GenuineSends, GenuineAccepts, HandsGenuineKey;
      StepKeepsGenuine(x, worlds[n - 1], events[n - 1]);
    }
  }

  /** A key that is not the claimed sender's is taken at its word: for every message, every two names and every key
      that belongs to no client, there is a run in which `b` accepts the message as `a`'s although no client has sent
      anything. */
  lemma ForeignKeyIsAccepted(x: Crypto, a: Name, b: Name, keys: Keys, plaintext: Bytes, iv: Bytes)
    returns (worlds: seq<World>, events: seq<Event>)
    requires Ideal(x) && Foreign(x, keys.dh) && Vouched(x, keys) && |iv| == IV_LEN
    ensures Run(x, worlds, events) && |worlds| == 3
    ensures |worlds[2].accepts| == 1 && worlds[2].accepts[0].at == b && worlds[2].accepts[0].from == a
            && worlds[2].accepts[0].plaintext == plaintext
    ensures forall i :: 0 <= i < |worlds[2].log| ==> !worlds[2].log[i].Sent?
  {
    var craft := Craft(keys.dh, x.own(b), (a, b), 0, plaintext, iv);
    var w1 := Step(x, START, craft);
    var wire := w1.log[0].wire;
    var deliver := Deliver(b, a, b, keys, wire);
    var key := MessageKey(x.keys, keys.dh, x.own(b), a, b);
    assert key == OpenWith(x, b, a, b, keys.dh);
    OpensIffCounterMatches(x.cipher, key, iv, 0, plaintext, 0);
    worlds, events := [START, w1, Step(x, w1, deliver)], [craft, deliver];
    assert KeyOf(x, w1.log[0]) == key;
  }

  // --- One's own messages ---

  /** Nothing a client accepts under a peer's name is a copy of its own message to that peer. */
  lemma NeverAcceptsOwn(x: Crypto, worlds: seq<World>, events: seq<Event>, n: nat, k: nat, i: nat)
    requires Run(x, worlds, events) && n < |worlds| && n < U64_LIMIT
    requires k < |worlds[n].accepts| && i < |worlds[n].log|
    requires FromTo(worlds[n].log[i], worlds[n].accepts[k].at, worlds[n].accepts[k].from)
    ensures worlds[n].log[i].wire != worlds[n].accepts[k].wire
  {
    RunKeepsInv(x, worlds, events, n);
    var w := worlds[n];
    assert AcceptOk(x, w, w.accepts[k]);
    var j :| Origin(x, w, j, w.accepts[k]);
    assert EntryOk(x, w.log[j]) && EntryOk(x, w.log[i]);
  }

  /** Only the counter stops it: brought back under the peer's name and key, a client's own message authenticates, and
      is refused for its counter in every later state. */
  lemma OwnMessageFailsOnlyOnCounter(x: Crypto, worlds: seq<World>, events: seq<Event>, n: nat, i: nat)
    requires Run(x, worlds, events) && n < |worlds| && n < U64_LIMIT
    requires i < |worlds[n].log| && worlds[n].log[i].Sent? && worlds[n].log[i].key == x.own(worlds[n].log[i].to)
    ensures var e := worlds[n].log[i];
            var key := OpenWith(x, e.from, e.to, e.from, x.own(e.to));
            && |e.wire| >= IV_LEN + COUNTER_LEN + TAG_LEN
            && Authenticated(x.cipher, key, e.wire) == Some(e.plaintext)
            && Opened(x.cipher, key, e.wire, Counter(worlds[n], e.from, e.to)) == Err(CounterMismatch)
  {
    RunKeepsInv(x, worlds, events, n);
    var e := worlds[n].log[i];
    assert EntryOk(x, e);
    SaltIsSymmetric(e.from, e.to);
  }

  // --- The assumptions can be met ---

  /** Two byte strings in one, so that both can be recovered. */
  function Pack(a: Bytes, b: Bytes): Bytes {
    seq(|a|, _ => 1) + ([0] + (a + b))
  }

  lemma PackIsInjective(a: Bytes, b: Bytes, c: Bytes, d: Bytes)
    requires Pack(a, b) == Pack(c, d)
    ensures a == c && b == d
  {
    PackMark(a, b);
    PackMark(c, d);
    assert |a| == |c|;
    assert Pack(a, b)[|a| + 1..] == a + b && Pack(c, d)[|c| + 1..] == c + d;
    assert (a + b)[..|a|] == a && (c + d)[..|c|] == c && (a + b)[|a|..] == b && (c + d)[|c|..] == d;
  }

  /** The first zero marks the length of the first part. */
  lemma PackMark(a: Bytes, b: Bytes)
    ensures |Pack(a, b)| > |a| && Pack(a, b)[|a|] == 0 && forall i :: 0 <= i < |a| ==> Pack(a, b)[i] == 1
  {
  }

  function Agreed(a: Bytes, b: Bytes): Bytes {
    if Less(a, b) then Pack(a, b) else Pack(b, a)
  }

  const TOY := Crypto(
    Cipher((_, _, _, plaintext: Bytes) => (plaintext, seq(TAG_LEN, _ => 0)), (_, _, _, body: Bytes, _) => Some(body)),
    KeySchedule((a: Bytes, b: Bytes) => Agreed(a, b), (a: Bytes, b: Bytes) => Pack(a, b)),
    (_: Bytes) => true, (_, _, _) => true, (n: Name) => [0] + n)

  /** There are primitives that satisfy everything assumed of them, and keys that belong to no client. */
  lemma AssumptionsCanBeMet()
    ensures Ideal(TOY) && Foreign(TOY, [1]) && Vouched(TOY, Keys([1], [], []))
  {
    forall a, b
      ensures Agreed(a, b) == Agreed(b, a)
    {
      LessIsTotal(a, b);
    }
    forall a, b, s, c, d, t | TOY.keys.derive(TOY.keys.secret(a, b), s) == TOY.keys.derive(TOY.keys.secret(c, d), t)
      ensures s == t && ((a == c && b == d) || (a == d && b == c))
    {
      ToyKeysDiffer(a, b, s, c, d, t);
    }
    hide Pack, Agreed;
    assert Correct(TOY.cipher);
    assert Sound(TOY.keys);
    forall m, n | TOY.own(m) == TOY.own(n)
      ensures m == n
    {
      assert TOY.own(m)[1..] == m && TOY.own(n)[1..] == n;
    }
    forall n
      ensures TOY.own(n) != [1]
    {
      assert TOY.own(n)[0] == 0;
    }
  }

  lemma ToyKeysDiffer(a: Bytes, b: Bytes, s: Bytes, c: Bytes, d: Bytes, t: Bytes)
    requires Pack(Agreed(a, b), s) == Pack(Agreed(c, d), t)
    ensures s == t && ((a == c && b == d) || (a == d && b == c))
  {
    hide Pack, Less;
    PackIsInjective(Agreed(a, b), s, Agreed(c, d), t);
    var (p, q) := if Less(a, b) then (a, b) else (b, a);
    var (u, v) := if Less(c, d) then (c, d) else (d, c);
    PackIsInjective(p, q, u, v);
  }
}
