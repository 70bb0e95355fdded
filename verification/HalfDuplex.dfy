/** Two clients joined by lossless first-in first-out channels. The shared counter delivers everything exactly when
    the two never talk across each other. */
module HalfDuplex {
  import opened Octets
  import opened Identities
  import opened SealedBox
  import opened CounterProtocol

  /** The two ends are `true` and `false`; `inbox` holds what is on its way to each. */
  datatype Line = Line(world: World, inboxTrue: seq<Entry>, inboxFalse: seq<Entry>, rejected: nat)
  {
    function Inbox(end: bool): seq<Entry> {
      if end then inboxTrue else inboxFalse
    }

    function WithInbox(end: bool, q: seq<Entry>): Line {
      if end then this.(inboxTrue := q) else this.(inboxFalse := q)
    }
  }

  datatype Names = Names(whenTrue: Name, whenFalse: Name, keysTrue: Keys, keysFalse: Keys)
  {
    function Of(end: bool): Name {
      if end then whenTrue else whenFalse
    }

    function KeysOf(end: bool): Keys {
      if end then keysTrue else keysFalse
    }
  }

  /** Two clients that present their own keys. */
  ghost predicate Genuine(x: Crypto, names: Names) {
    && names.whenTrue != names.whenFalse
    && (forall end :: Vouched(x, names.KeysOf(end)) && names.KeysOf(end).dh == x.own(names.Of(end)))
  }

  /** Each has been told the other's key. */
  function Begin(x: Crypto, names: Names): Line {
    Line(START.(cache := map[(names.whenTrue, names.whenFalse) := x.own(names.whenFalse),
                             (names.whenFalse, names.whenTrue) := x.own(names.whenTrue)]), [], [], 0)
  }

  datatype Talk = Say(end: bool, plaintext: Bytes, iv: Bytes) | Hear(end: bool)

  function CounterAt(names: Names, l: Line, end: bool): nat {
    Counter(l.world, names.Of(end), names.Of(!end))
  }

  predicate Possible(l: Line, e: Talk) {
    match e
    case Say(_, _, iv) => |iv| == IV_LEN
    case Hear(end) => l.Inbox(end) != []
  }

  /** Send into the peer's inbox; or process the oldest arrival and count it as rejected if it is not accepted. */
  function Step(x: Crypto, names: Names, l: Line, e: Talk): Line
    requires Possible(l, e)
  {
    match e
    case Say(end, plaintext, iv) =>
      var w := CounterProtocol.Step(x, l.world, Send(names.Of(end), names.Of(!end), plaintext, iv));
      l.(world := w).WithInbox(!end, l.Inbox(!end) + w.log[|l.world.log|..])
    case Hear(end) =>
      var q := l.Inbox(end);
      var w := CounterProtocol.Step(x, l.world, Deliver(names.Of(end), names.Of(!end), names.Of(end), names.KeysOf(!end), q[0].wire));
      var lost := if |w.accepts| == |l.world.accepts| then 1 else 0;
      l.(world := w, rejected := l.rejected + lost).WithInbox(end, q[1..])
  }

  ghost predicate Run(x: Crypto, names: Names, lines: seq<Line>, talk: seq<Talk>) {
    && Ideal(x) && Genuine(x, names)
    && |talk| < U64_LIMIT && |lines| == |talk| + 1 && lines[0] == Begin(x, names)
    && forall i :: 0 <= i < |talk| ==> Possible(lines[i], talk[i]) && lines[i + 1] == Step(x, names, lines[i], talk[i])
  }

  /** Nobody speaks while something is still on its way to them. */
  predicate TakesTurns(l: Line, e: Talk) {
    e.Say? ==> l.Inbox(e.end) == []
  }

  ghost predicate HalfDuplexUpTo(lines: seq<Line>, talk: seq<Talk>, n: nat)
    requires |lines| == |talk| + 1 && n <= |talk|
  {
    forall i :: 0 <= i < n ==> TakesTurns(lines[i], talk[i])
  }

  // --- What holds on every run ---

  /** The key under which `end` is sent to. */
  function Key(x: Crypto, names: Names, end: bool): Bytes {
    MessageKey(x.keys, x.own(names.Of(!end)), x.own(names.Of(end)), names.Of(!end), names.Of(end))
  }

  ghost predicate Carried(x: Crypto, names: Names, end: bool, s: Entry) {
    s.Sent? && s.counter < U64_LIMIT
    && exists iv :: |iv| == IV_LEN && s.wire == Sealed(x.cipher, Key(x, names, end), iv, s.counter, s.plaintext)
  }

  ghost predicate Sane(x: Crypto, names: Names, l: Line, n: nat) {
    && (forall end, i {:trigger l.Inbox(end)[i]} :: 0 <= i < |l.Inbox(end)| ==> Carried(x, names, end, l.Inbox(end)[i]))
    && (forall end :: CounterAt(names, l, end) <= n && KnowsPeer(x, names, l, end))
  }

  ghost predicate KnowsPeer(x: Crypto, names: Names, l: Line, end: bool) {
    var p := (names.Of(end), names.Of(!end));
    p in l.world.cache && l.world.cache[p] == x.own(p.1)
  }

  function Taken(names: Names, end: bool, s: Entry): Accepted {
    Accepted(names.Of(end), names.Of(!end), names.Of(end), names.KeysOf(!end), s.counter, s.plaintext, s.wire)
  }

  /** An arrival is accepted exactly when it carries the counter its reader has reached. */
  lemma HearMeaning(x: Crypto, names: Names, l: Line, end: bool, n: nat)
    requires Ideal(x) && Genuine(x, names) && Sane(x, names, l, n) && l.Inbox(end) != []
    ensures var s := l.Inbox(end)[0];
            var w := Step(x, names, l, Hear(end)).world;
            if s.counter == CounterAt(names, l, end) then
              w == Bumped(l.world, names.Of(end), names.Of(!end)).(accepts := l.world.accepts + [Taken(names, end, s)])
            else w == l.world
  {
    hide Opened, OpenWith, Ideal;
    var at, peer := names.Of(end), names.Of(!end);
    CarriedOpens(x, names, end, l.Inbox(end)[0], CounterAt(names, l, end));
    KnownKeyStays(x, names, l, end);
    assert Vouched(x, names.KeysOf(!end));
  }

  lemma CarriedOpens(x: Crypto, names: Names, end: bool, s: Entry, counter: nat)
    requires Ideal(x) && Genuine(x, names) && Carried(x, names, end, s)
    ensures Opened(x.cipher, OpenWith(x, names.Of(end), names.Of(!end), names.Of(end), names.KeysOf(!end).dh), s.wire, counter)
            == if s.counter == counter then Ok(s.plaintext) else Err(CounterMismatch)
  {
    hide Opened, Sealed;
    var key := Key(x, names, end);
    var iv :| |iv| == IV_LEN && s.wire == Sealed(x.cipher, key, iv, s.counter, s.plaintext);
    OpensIffCounterMatches(x.cipher, key, iv, s.counter, s.plaintext, counter);
    assert OpenWith(x, names.Of(end), names.Of(!end), names.Of(end), names.KeysOf(!end).dh) == key;
  }

  lemma KnownKeyStays(x: Crypto, names: Names, l: Line, end: bool)
    requires Genuine(x, names) && KnowsPeer(x, names, l, end)
    ensures Cached(x, l.world, names.Of(end), names.Of(!end), names.KeysOf(!end).dh) == l.world
  {
  }

  lemma SayMeaning(x: Crypto, names: Names, l: Line, e: Talk, n: nat)
    requires Ideal(x) && Genuine(x, names) && Sane(x, names, l, n) && n < U64_LIMIT && e.Say? && |e.iv| == IV_LEN
    ensures var w := Step(x, names, l, e).world;
            var s := SealedEntry(x, l.world, names.Of(e.end), names.Of(!e.end), x.own(names.Of(!e.end)), e.plaintext, e.iv);
            && w == Bumped(l.world, names.Of(e.end), names.Of(!e.end)).(log := l.world.log + [s])
            && Step(x, names, l, e) == l.(world := w).WithInbox(!e.end, l.Inbox(!e.end) + [s])
            && Carried(x, names, !e.end, s)
  {
    hide Sealed, MessageKey;
    assert KnowsPeer(x, names, l, e.end);
    assert CounterAt(names, l, e.end) <= n;
    var s := SealedEntry(x, l.world, names.Of(e.end), names.Of(!e.end), x.own(names.Of(!e.end)), e.plaintext, e.iv);
    assert (l.world.log + [s])[|l.world.log|..] == [s];
  }

  /** One step, seen from the outside: queues, counters and the number of rejections. */
  lemma StepMeaning(x: Crypto, names: Names, l: Line, e: Talk, n: nat)
    requires Ideal(x) && Genuine(x, names) && Sane(x, names, l, n) && n + 1 < U64_LIMIT && Possible(l, e)
    ensures var l' := Step(x, names, l, e);
            var c, c' := CounterAt(names, l, e.end), CounterAt(names, l', e.end);
            && CounterAt(names, l', !e.end) == CounterAt(names, l, !e.end)
            && l'.world.cache == l.world.cache
            && (e.Say? ==>
                  && c' == c + 1 && l'.rejected == l.rejected && l'.Inbox(e.end) == l.Inbox(e.end)
                  && |l'.Inbox(!e.end)| == |l.Inbox(!e.end)| + 1
                  && l'.Inbox(!e.end)[..|l.Inbox(!e.end)|] == l.Inbox(!e.end)
                  && l'.Inbox(!e.end)[|l.Inbox(!e.end)|].counter == c
                  && Carried(x, names, !e.end, l'.Inbox(!e.end)[|l.Inbox(!e.end)|]))
            && (e.Hear? ==>
                  && l'.Inbox(e.end) == l.Inbox(e.end)[1..] && l'.Inbox(!e.end) == l.Inbox(!e.end)
                  && (if l.Inbox(e.end)[0].counter == c then c' == c + 1 && l'.rejected == l.rejected
                      else c' == c && l'.rejected == l.rejected + 1))
  {
    assert CounterAt(names, l, e.end) <= n;
    BumpedCounters(l.world, names.Of(e.end), names.Of(!e.end));
    if e.Hear? {
      HearMeaning(x, names, l, e.end, n);
    } else {
      SayMeaning(x, names, l, e, n);
    }
    hide Sealed, MessageKey, DeliverStep, SendStep, Carried;
  }

  /** One step, seen in the logs. */
  lemma StepLogs(x: Crypto, names: Names, l: Line, e: Talk, n: nat)
    requires Ideal(x) && Genuine(x, names) && Sane(x, names, l, n) && n < U64_LIMIT && Possible(l, e)
    ensures var w, l' := l.world, Step(x, names, l, e);
            var w' := l'.world;
            && (e.Say? ==> w'.accepts == w.accepts && |w'.log| == |w.log| + 1 && w'.log[..|w.log|] == w.log
                           && l'.Inbox(!e.end) == l.Inbox(!e.end) + [w'.log[|w.log|]]
                           && w'.log[|w.log|].Sent? && w'.log[|w.log|].from == names.Of(e.end) && w'.log[|w.log|].to == names.Of(!e.end))
            && (e.Hear? ==>
                  var s := l.Inbox(e.end)[0];
                  && w'.log == w.log
                  && w'.accepts == if s.counter == CounterAt(names, l, e.end)
                                   then w.accepts + [Taken(names, e.end, s)]
                                   else w.accepts)
  {
    if e.Hear? {
      HearMeaning(x, names, l, e.end, n);
    } else {
      SayMeaning(x, names, l, e, n);
    }
    hide Sealed, MessageKey, DeliverStep, SendStep, Carried;
  }

  /** Sent is accepted, rejected or in flight. */
  ghost predicate Tallied(l: Line) {
    |l.world.log| == |l.world.accepts| + l.rejected + |l.inboxTrue| + |l.inboxFalse|
  }

  lemma {:induction false} RunIsTallied(x: Crypto, names: Names, lines: seq<Line>, talk: seq<Talk>, n: nat)
    requires Run(x, names, lines, talk) && n < |lines|
    ensures Tallied(lines[n])
  {
    if n > 0 {
      RunIsTallied(x, names, lines, talk, n - 1);
      RunIsSane(x, names, lines, talk, n - 1);
      StepKeepsTally(x, names, lines[n - 1], talk[n - 1], n - 1);
    }
  }

  lemma StepKeepsTally(x: Crypto, names: Names, l: Line, e: Talk, n: nat)
    requires Ideal(x) && Genuine(x, names) && Sane(x, names, l, n) && n + 1 < U64_LIMIT && Possible(l, e)
    requires Tallied(l)
    ensures Tallied(Step(x, names, l, e))
  {
    hide Step, Carried;
    StepMeaning(x, names, l, e, n);
    StepLogs(x, names, l, e, n);
    var l' := Step(x, names, l, e);
    assert |l'.inboxTrue| + |l'.inboxFalse| == |l'.Inbox(e.end)| + |l'.Inbox(!e.end)|;
  }

  lemma StepKeepsSane(x: Crypto, names: Names, l: Line, e: Talk, n: nat)
    requires Ideal(x) && Genuine(x, names) && Sane(x, names, l, n) && n + 1 < U64_LIMIT && Possible(l, e)
    ensures Sane(x, names, Step(x, names, l, e), n + 1)
  {
    hide Step, Carried;
    var l' := Step(x, names, l, e);
    StepMeaning(x, names, l, e, n);
    forall end, i | 0 <= i < |l'.Inbox(end)|
      ensures Carried(x, names, end, l'.Inbox(end)[i])
    {
      if e.Say? && end == !e.end {
        if i < |l.Inbox(end)| {
          assert l'.Inbox(end)[i] == l.Inbox(end)[i];
        }
      } else if e.Hear? && end == e.end {
        assert l'.Inbox(end)[i] == l.Inbox(end)[i + 1];
      }
    }
  }

  lemma {:induction false} RunIsSane(x: Crypto, names: Names, lines: seq<Line>, talk: seq<Talk>, n: nat)
    requires Run(x, names, lines, talk) && n < |lines|
    ensures Sane(x, names, lines[n], n)
  {
    if n > 0 {
      RunIsSane(x, names, lines, talk, n - 1);
      StepKeepsSane(x, names, lines[n - 1], talk[n - 1], n - 1);
    }
  }

  // --- Taking turns delivers everything ---

  /** One direction at most is in flight, its messages carry the reader's next counters in order, and the speaker is
      ahead of the reader by exactly the number in flight. */
  ghost predicate InStep(names: Names, l: Line) {
    && l.rejected == 0
    && CounterAt(names, l, true) + |l.inboxTrue| == CounterAt(names, l, false) + |l.inboxFalse|
    && (l.inboxTrue == [] || l.inboxFalse == [])
    && (forall end, i {:trigger l.Inbox(end)[i]} :: 0 <= i < |l.Inbox(end)| ==>
          l.Inbox(end)[i].counter == CounterAt(names, l, end) + i)
  }

  ghost predicate Matches(a: Accepted, s: Entry) {
    s.Sent? && a.from == s.from && a.at == s.to && a.counter == s.counter && a.plaintext == s.plaintext
  }

  /** What was accepted is what was sent, in the order of sending over both directions; the rest is in flight. */
  ghost predicate UpToDate(names: Names, l: Line) {
    var done := |l.world.accepts|;
    && done <= |l.world.log|
    && l.world.log[done..] == l.inboxTrue + l.inboxFalse
    && (forall k :: 0 <= k < done ==> Matches(l.world.accepts[k], l.world.log[k]))
    && (forall end, i {:trigger l.Inbox(end)[i]} :: 0 <= i < |l.Inbox(end)| ==>
          l.Inbox(end)[i].Sent? && l.Inbox(end)[i].from == names.Of(!end) && l.Inbox(end)[i].to == names.Of(end))
  }

  lemma InFlight(l: Line, end: bool)
    requires l.Inbox(!end) == []
    ensures l.inboxTrue + l.inboxFalse == l.Inbox(end)
  {
  }

  lemma SayKeepsUpToDate(names: Names, l: Line, l': Line, end: bool, s: Entry)
    requires UpToDate(names, l) && l.Inbox(end) == []
    requires l'.world.accepts == l.world.accepts && l'.world.log == l.world.log + [s]
    requires l'.Inbox(end) == [] && l'.Inbox(!end) == l.Inbox(!end) + [s]
    requires s.Sent? && s.from == names.Of(end) && s.to == names.Of(!end)
    ensures UpToDate(names, l')
  {
    InFlight(l, !end);
    InFlight(l', !end);
    var done := |l.world.accepts|;
    assert l'.world.log[done..] == l.world.log[done..] + [s];
  }

  lemma HearKeepsUpToDate(names: Names, l: Line, l': Line, end: bool)
    requires UpToDate(names, l) && l.Inbox(end) != [] && l.Inbox(!end) == []
    requires l'.world.log == l.world.log && l'.Inbox(!end) == [] && l'.Inbox(end) == l.Inbox(end)[1..]
    requires var s := l.Inbox(end)[0];
             l'.world.accepts == l.world.accepts + [Taken(names, end, s)]
    ensures UpToDate(names, l')
  {
    InFlight(l, end);
    InFlight(l', end);
    var sends, done := l.world.log, |l.world.accepts|;
    assert l.Inbox(end)[0] == sends[done];
    assert sends[done + 1..] == sends[done..][1..];
    forall i | 0 <= i < |l'.Inbox(end)|
      ensures l'.Inbox(end)[i] == l.Inbox(end)[i + 1]
    {
    }
  }

  lemma StepKeepsUpToDate(x: Crypto, names: Names, l: Line, e: Talk, n: nat)
    requires Ideal(x) && Genuine(x, names) && Sane(x, names, l, n) && n + 1 < U64_LIMIT && Possible(l, e)
    requires InStep(names, l) && TakesTurns(l, e) && UpToDate(names, l)
    ensures UpToDate(names, Step(x, names, l, e))
  {
    hide Step, Carried, UpToDate;
    var l' := Step(x, names, l, e);
    assert l.Inbox(e.end) == [] || l.Inbox(!e.end) == [];
    assert e.Hear? ==> l.Inbox(e.end)[0].counter == CounterAt(names, l, e.end);
    StepMeaning(x, names, l, e, n);
    StepLogs(x, names, l, e, n);
    hide InStep, Sane, Genuine, Ideal;
    if e.Say? {
      assert l'.world.log == l.world.log + [l'.world.log[|l.world.log|]];
      SayKeepsUpToDate(names, l, l', e.end, l'.world.log[|l.world.log|]);
    } else {
      HearKeepsUpToDate(names, l, l', e.end);
    }
  }

  lemma StepKeepsInStep(x: Crypto, names: Names, l: Line, e: Talk, n: nat)
    requires Ideal(x) && Genuine(x, names) && Sane(x, names, l, n) && n + 1 < U64_LIMIT && Possible(l, e)
    requires InStep(names, l) && TakesTurns(l, e)
    ensures InStep(names, Step(x, names, l, e))
  {
    hide Step, Carried;
    var l' := Step(x, names, l, e);
    StepMeaning(x, names, l, e, n);
    assert l.Inbox(e.end) == [] || l.Inbox(!e.end) == [];
    forall end, i | 0 <= i < |l'.Inbox(end)|
      ensures l'.Inbox(end)[i].counter == CounterAt(names, l', end) + i
    {
      if e.Say? && end == !e.end {
        if i < |l.Inbox(end)| {
          assert l'.Inbox(end)[i] == l.Inbox(end)[i];
        }
      } else if e.Hear? && end == e.end {
        assert l'.Inbox(end)[i] == l.Inbox(end)[i + 1];
      }
    }
  }

  /** While the two take turns, everything is accepted in the order it was sent, and in every state the speaker's
      counter is the reader's plus the number of messages in flight. */
  lemma {:induction false} TurnsKeepInStep(x: Crypto, names: Names, lines: seq<Line>, talk: seq<Talk>, n: nat)
    requires Run(x, names, lines, talk) && n <= |talk| && HalfDuplexUpTo(lines, talk, n)
    ensures InStep(names, lines[n]) && UpToDate(names, lines[n])
  {
    if n > 0 {
      TurnsKeepInStep(x, names, lines, talk, n - 1);
      RunIsSane(x, names, lines, talk, n - 1);
      StepKeepsInStep(x, names, lines[n - 1], talk[n - 1], n - 1);
      StepKeepsUpToDate(x, names, lines[n - 1], talk[n - 1], n - 1);
    }
  }

  // --- Talking across each other loses ---

  /** Something has been rejected, or waits at an end whose counter has passed it and so will be. */
  ghost predicate Doomed(names: Names, l: Line) {
    l.rejected > 0 || exists end, i :: 0 <= i < |l.Inbox(end)| && l.Inbox(end)[i].counter < CounterAt(names, l, end)
  }

  lemma CrossingDooms(x: Crypto, names: Names, l: Line, e: Talk, n: nat)
    requires Ideal(x) && Genuine(x, names) && Sane(x, names, l, n) && n + 1 < U64_LIMIT && Possible(l, e)
    requires InStep(names, l) && !TakesTurns(l, e)
    ensures Doomed(names, Step(x, names, l, e))
  {
    hide Step, Carried;
    StepMeaning(x, names, l, e, n);
    var l' := Step(x, names, l, e);
    assert l'.Inbox(e.end)[0].counter < CounterAt(names, l', e.end);
  }

  lemma DoomPersists(x: Crypto, names: Names, l: Line, e: Talk, n: nat)
    requires Ideal(x) && Genuine(x, names) && Sane(x, names, l, n) && n + 1 < U64_LIMIT && Possible(l, e)
    requires Doomed(names, l)
    ensures Doomed(names, Step(x, names, l, e))
  {
    hide Step, Carried;
    StepMeaning(x, names, l, e, n);
    hide Sane, Genuine, Ideal;
    var l' := Step(x, names, l, e);
    if l.rejected == 0 {
      var end, i :| 0 <= i < |l.Inbox(end)| && l.Inbox(end)[i].counter < CounterAt(names, l, end);
      if e.Hear? && end == e.end {
        if i > 0 {
          assert l'.Inbox(end)[i - 1] == l.Inbox(end)[i];
        }
      } else {
        assert l'.Inbox(end)[i] == l.Inbox(end)[i];
      }
    }
  }

  lemma {:induction false} DoomedFrom(x: Crypto, names: Names, lines: seq<Line>, talk: seq<Talk>, m: nat, n: nat)
    requires Run(x, names, lines, talk) && m <= n < |lines| && Doomed(names, lines[m])
    ensures Doomed(names, lines[n])
    decreases n - m
  {
    hide Step, Sane, Doomed;
    if m < n {
      DoomedFrom(x, names, lines, talk, m, n - 1);
      RunIsSane(x, names, lines, talk, n - 1);
      DoomPersists(x, names, lines[n - 1], talk[n - 1], n - 1);
    }
  }

  lemma {:induction false} FirstCrossing(lines: seq<Line>, talk: seq<Talk>, n: nat) returns (i: nat)
    requires |lines| == |talk| + 1 && n <= |talk| && !HalfDuplexUpTo(lines, talk, n)
    ensures i < n && !TakesTurns(lines[i], talk[i]) && HalfDuplexUpTo(lines, talk, i)
  {
    if HalfDuplexUpTo(lines, talk, n - 1) {
      i := n - 1;
    } else {
      i := FirstCrossing(lines, talk, n - 1);
    }
  }

  /** On every run that ends with nothing in flight: every message sent was accepted if and only if nobody ever spoke
      while something was on its way to them. */
  lemma AllAcceptedIffHalfDuplex(x: Crypto, names: Names, lines: seq<Line>, talk: seq<Talk>)
    requires Run(x, names, lines, talk)
    requires lines[|talk|].inboxTrue == [] && lines[|talk|].inboxFalse == []
    ensures |lines[|talk|].world.accepts| == |lines[|talk|].world.log| <==> HalfDuplexUpTo(lines, talk, |talk|)
  {
    RunIsTallied(x, names, lines, talk, |talk|);
    if HalfDuplexUpTo(lines, talk, |talk|) {
      TurnsKeepInStep(x, names, lines, talk, |talk|);
    } else {
      var i := FirstCrossing(lines, talk, |talk|);
      TurnsKeepInStep(x, names, lines, talk, i);
      RunIsSane(x, names, lines, talk, i);
      CrossingDooms(x, names, lines[i], talk[i], i);
      DoomedFrom(x, names, lines, talk, i + 1, |talk|);
    }
  }

  /** One message each way, crossing: both are rejected, whatever they say and whoever the two are. */
  lemma CrossingLosesBoth(x: Crypto, names: Names, p: Bytes, q: Bytes, iv: Bytes, jv: Bytes)
    returns (lines: seq<Line>, talk: seq<Talk>)
    requires Ideal(x) && Genuine(x, names) && |iv| == IV_LEN && |jv| == IV_LEN
    ensures Run(x, names, lines, talk) && talk == [Say(true, p, iv), Say(false, q, jv), Hear(true), Hear(false)]
    ensures lines[4].rejected == 2 && lines[4].inboxTrue == [] && lines[4].inboxFalse == []
  {
    hide Step, Sane, Ideal, Genuine;
    talk := [Say(true, p, iv), Say(false, q, jv), Hear(true), Hear(false)];
    BeginIsSane(x, names);
    var l := Begin(x, names);
    var l1 := OneMore(x, names, l, talk[0], 0);
    var l2 := OneMore(x, names, l1, talk[1], 1);
    var l3 := OneMore(x, names, l2, talk[2], 2);
    var l4 := OneMore(x, names, l3, talk[3], 3);
    lines := [l, l1, l2, l3, l4];
  }

  lemma BeginIsSane(x: Crypto, names: Names)
    requires Genuine(x, names)
    ensures Sane(x, names, Begin(x, names), 0)
    ensures forall end :: CounterAt(names, Begin(x, names), end) == 0 && Begin(x, names).Inbox(end) == []
  {
  }

  /** `StepMeaning` and `StepKeepsSane` as one move. */
  lemma OneMore(x: Crypto, names: Names, l: Line, e: Talk, n: nat) returns (l': Line)
    requires Ideal(x) && Genuine(x, names) && Sane(x, names, l, n) && n + 1 < U64_LIMIT && Possible(l, e)
    ensures l' == Step(x, names, l, e) && Sane(x, names, l', n + 1)
    ensures CounterAt(names, l', !e.end) == CounterAt(names, l, !e.end)
    ensures e.Say? ==>
              && CounterAt(names, l', e.end) == CounterAt(names, l, e.end) + 1 && l'.rejected == l.rejected
              && l'.Inbox(e.end) == l.Inbox(e.end) && |l'.Inbox(!e.end)| == |l.Inbox(!e.end)| + 1
              && l'.Inbox(!e.end)[|l.Inbox(!e.end)|].counter == CounterAt(names, l, e.end)
    ensures e.Hear? && l.Inbox(e.end)[0].counter != CounterAt(names, l, e.end) ==>
              && CounterAt(names, l', e.end) == CounterAt(names, l, e.end) && l'.rejected == l.rejected + 1
              && l'.Inbox(e.end) == l.Inbox(e.end)[1..] && l'.Inbox(!e.end) == l.Inbox(!e.end)
  {
    hide Step, Sane;
    l' := Step(x, names, l, e);
    StepMeaning(x, names, l, e, n);
    StepKeepsSane(x, names, l, e, n);
  }
}
