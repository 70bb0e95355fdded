/** What clients can rely on in every run of the server. */
module ServerGuarantees {
  import opened Octets
  import opened Identities
  import opened Codec
  import opened ServerModel

  /** A connection with a session always belongs to a registered user, so a sender is never found missing. */
  lemma SenderIsRegistered(states: seq<State>, events: seq<Event>, n: nat, fd: int)
    requires Run(states, events) && n < |states| && fd in states[n].fdToName
    ensures states[n].fdToName[fd] in states[n].users
  {
    RunKeepsInv(states, events, n);
  }

  /** The ready-made replies are what serializing their text gives, and decode to it. */
  lemma CannedIsSerializedText(text: string)
    requires |text| < 256
    ensures NewMessage(Ascii(text), [], TEXT, 0).Ok?
    ensures Canned(text) == Serialize(NewMessage(Ascii(text), [], TEXT, 0).value)
    ensures Deserialize(Canned(text)).Ok? && Deserialize(Canned(text)).value.payload == Ascii(text)
    ensures Deserialize(Canned(text)).value.header.kind == 0x00
  {
    var m := NewMessage(Ascii(text), [], TEXT, 0).value;
    assert EncodeU32(|text|) == [0, 0, 0, |text|];
    assert EncodeTail([], Ascii(text)) == EncodeU32(|text|) + Ascii(text);
    assert Serialize(m) == Canned(text);
    hide Serialize, Deserialize, Canned;
    BuiltMessageDecodes(Ascii(text), [], TEXT);
  }

  // --- Group messages ---

  lemma {:induction false} CopiesToAll(nameToFd: map<Name, int>, order: seq<Name>, bytes: Bytes)
    requires forall i :: 0 <= i < |order| ==> order[i] in nameToFd
    ensures var copies := Copies(nameToFd, order, bytes);
            |copies| == |order| && forall i :: 0 <= i < |order| ==> copies[i] == (nameToFd[order[i]], bytes)
  {
    if order != [] {
      CopiesToAll(nameToFd, order[..|order| - 1], bytes);
    }
  }

  /** Exactly one copy per member: pairwise different connections, each a member's, and each member's among them. */
  ghost predicate OneCopyEach(s: State, members: set<Name>, bytes: Bytes, sent: seq<(int, Bytes)>) {
    && (forall i :: 0 <= i < |sent| ==>
          sent[i].1 == bytes && sent[i].0 in s.fdToName && s.fdToName[sent[i].0] in members)
    && (forall i, j :: 0 <= i < j < |sent| ==> sent[i].0 != sent[j].0)
    && (forall m :: m in members ==> m in s.nameToFd && exists i :: 0 <= i < |sent| && sent[i].0 == s.nameToFd[m])
  }

  lemma CopiesAreOneEach(s: State, members: set<Name>, order: seq<Name>, bytes: Bytes)
    requires SessionsInverse(s) && members <= s.nameToFd.Keys && Enumerates(order, members)
    ensures OneCopyEach(s, members, bytes, Copies(s.nameToFd, order, bytes))
  {
    forall i | 0 <= i < |order|
      ensures order[i] in members && order[i] in s.nameToFd
    {
      assert order[i] in order;
    }
    CopiesToAll(s.nameToFd, order, bytes);
    hide Copies;
    var sent := Copies(s.nameToFd, order, bytes);
    forall m | m in members
      ensures m in s.nameToFd && exists i :: 0 <= i < |sent| && sent[i].0 == s.nameToFd[m]
    {
      assert m in order;
      var k :| 0 <= k < |order| && order[k] == m;
      assert sent[k].0 == s.nameToFd[m];
    }
    forall i, j | 0 <= i < j < |sent|
      ensures sent[i].0 != sent[j].0
    {
      assert s.fdToName[sent[i].0] == order[i] && s.fdToName[sent[j].0] == order[j];
    }
  }

  /** In every run, an accepted group message adds to the outbox exactly one copy per member of the room, none to
      anybody else, and none is skipped for lack of a session. */
  lemma GroupMessageReachesEachMemberOnce(states: seq<State>, events: seq<Event>, n: nat)
    requires Run(states, events) && n < |events| && events[n].command.DoSend?
    requires AcceptsGroupMessage(states[n], events[n].fd, events[n].command.chat)
    ensures var s, s', c := states[n], states[n + 1], events[n].command;
            && s.outbox <= s'.outbox
            && OneCopyEach(s, s.rooms[c.chat].members, Serialize(c.message), s'.outbox[|s.outbox|..])
  {
    hide OneCopyEach, Canned, Serialize, Copies;
    RunKeepsInv(states, events, n);
    var s, e := states[n], events[n];
    assert Possible(s, e) && states[n + 1] == Step(s, e);
    CopiesAreOneEach(s, s.rooms[e.command.chat].members, e.order, Serialize(e.command.message));
    var sent := Copies(s.nameToFd, e.order, Serialize(e.command.message));
    assert states[n + 1].outbox == s.outbox + sent;
    assert states[n + 1].outbox[|s.outbox|..] == sent;
  }

  // --- Sessions come and go ---

  /** A login that succeeds, followed by an exit, restores everything but the sent bytes. */
  lemma LoginThenExitRestores(states: seq<State>, events: seq<Event>, n: nat, fd: int, name: Name, keys: Keys)
    requires Run(states, events) && n < |states|
    requires fd !in states[n].fdToName && name !in states[n].users
    ensures var s := states[n];
            var s' := Exit(Login(s, fd, name, keys), fd);
            && s'.users == s.users && s'.rooms == s.rooms && s'.fdToName == s.fdToName && s'.nameToFd == s.nameToFd
  {
    RunKeepsInv(states, events, n);
    hide Run, Greeting, Canned;
    var s := states[n];
    var bound := Bind(s.(users := s.users[name := keys]), fd, name);
    SendMessageKeeps(bound, fd, Greeting(name), [], TEXT);
    hide SendMessage;
    assert s.users[name := keys] - {name} == s.users;
    assert s.nameToFd[name := fd] - {name} == s.nameToFd;
    assert s.fdToName[fd := name] - {fd} == s.fdToName;
    forall c | c in s.rooms
      ensures s.rooms[c].members - {name} == s.rooms[c].members
    {
    }
    assert Without(s.rooms, name) == s.rooms;
  }

  /** Whatever happened before, an exit leaves the name in no user, session or room, touches no other name, and a
      second exit changes nothing. */
  lemma ExitErases(states: seq<State>, events: seq<Event>, n: nat, fd: int)
    requires Run(states, events) && n < |states| && fd in states[n].fdToName
    ensures var s := states[n];
            var name, s' := s.fdToName[fd], Exit(s, fd);
            && name !in s'.users && name !in s'.nameToFd && fd !in s'.fdToName
            && s'.rooms.Keys == s.rooms.Keys
            && (forall c :: c in s.rooms ==> s'.rooms[c] == s.rooms[c].(members := s.rooms[c].members - {name}))
            && (forall other :: other in s.users && other != name ==>
                  other in s'.users && s'.users[other] == s.users[other]
                  && other in s'.nameToFd && s'.nameToFd[other] == s.nameToFd[other])
            && s'.outbox == s.outbox && Exit(s', fd) == s'
  {
    RunKeepsInv(states, events, n);
  }

  /** The unused `disconnect_username` keeps the session maps inverse and in step with the users, but keeps every
      member a user exactly when the name is in no room. */
  lemma DisconnectKeepsMembersIff(s: State, name: Name)
    requires Inv(s) && name in s.nameToFd
    ensures SessionsInverse(Disconnect(s, name)) && UsersAreBound(Disconnect(s, name))
    ensures MembersAreUsers(Disconnect(s, name)) <==> forall c :: c in s.rooms ==> name !in s.rooms[c].members
  {
    UnbindKeepsInverse(s, s.nameToFd[name]);
    var s' := Disconnect(s, name);
    if c :| c in s.rooms && name in s.rooms[c].members {
      assert !(s'.rooms[c].members <= s'.users.Keys);
    }
  }

  /** A login and a room: from the state they lead to, disconnecting the name leaves a stranger in the room. */
  lemma DisconnectCanStrandAMember(fd: int, name: Name, keys: Keys, chat: Name) returns (states: seq<State>, events: seq<Event>)
    requires Fits(DoLogin(name, keys)) && Short(chat) && chat != []
    ensures Run(states, events) && events == [Event(fd, DoLogin(name, keys), []), Event(fd, DoCreate(chat), [])]
    ensures name in states[2].nameToFd && !MembersAreUsers(Disconnect(states[2], name))
  {
    hide Greeting, Created, Canned, FromWire, SendMessage;
    events := [Event(fd, DoLogin(name, keys), []), Event(fd, DoCreate(chat), [])];
    LoginIsFromWire(name, keys);
    CreateIsFromWire(chat);
    var bound := Bind(START.(users := START.users[name := keys]), fd, name);
    SendMessageKeeps(bound, fd, Greeting(name), [], TEXT);
    var s1 := Step(START, events[0]);
    SendMessageKeeps(s1.(rooms := s1.rooms[chat := Room({name}, [])]), fd, Created(chat), [], TEXT);
    var s2 := Step(s1, events[1]);
    states := [START, s1, s2];
    assert name in s2.rooms[chat].members;
    RunKeepsInv(states, events, 2);
    DisconnectKeepsMembersIff(s2, name);
  }

  // --- Keys ---

  /** A step keeps a user's keys and connection for as long as the user stays; only a successful login adds one. */
  lemma StepKeepsUser(s: State, e: Event, name: Name)
    requires Inv(s) && name in Step(s, e).users
    ensures name in s.users ==>
              Step(s, e).users[name] == s.users[name] &&
              (name in Step(s, e).nameToFd ==> Step(s, e).nameToFd[name] == s.nameToFd[name])
    ensures name !in s.users ==>
              e.command == DoLogin(name, Step(s, e).users[name]) && e.fd !in s.fdToName
              && name in Step(s, e).nameToFd && Step(s, e).nameToFd[name] == e.fd
  {
    hide CreateRoom, JoinRoom, SendGroupMessage, SendPubkey, DeliverCipher, ForwardFile, AnswerSendFile, Canned, Greeting;
    match e.command
    case DoLogin(n, keys) =>
      SendMessageKeeps(Bind(s.(users := s.users[n := keys]), e.fd, n), e.fd, Greeting(n), [], TEXT);
      hide SendMessage;
    case DoExit =>
    case DoCreate(chat) => RoomSteps(s, e.fd, chat, EMPTY_MESSAGE, []);
    case DoJoin(chat) => RoomSteps(s, e.fd, chat, EMPTY_MESSAGE, []);
    case DoSend(chat, m) => RoomSteps(s, e.fd, chat, m, e.order);
    case DoGetPub(n) => ReplySteps(s, e.fd, n, EMPTY_MESSAGE);
    case DoCipher(m) => ReplySteps(s, e.fd, [], m);
    case DoForward(m) => ReplySteps(s, e.fd, [], m);
    case DoSendFile(n, _) => ReplySteps(s, e.fd, n, EMPTY_MESSAGE);
    case DoNothing =>
  }

  /** The keys stored for a user are those of the login that opened the session the user has had ever since. */
  ghost predicate OpenedBy(states: seq<State>, events: seq<Event>, k: nat, n: nat, name: Name, keys: Keys, fd: int)
    requires |states| == |events| + 1
  {
    && k < n < |states|
    && events[k].command == DoLogin(name, keys) && events[k].fd == fd
    && name !in states[k].users && fd !in states[k].fdToName
    && forall j :: k < j <= n ==>
         name in states[j].users && states[j].users[name] == keys && name in states[j].nameToFd && states[j].nameToFd[name] == fd
  }

  lemma OpenedStaysOpen(states: seq<State>, events: seq<Event>, k: nat, n: nat, name: Name, keys: Keys, fd: int)
    requires |states| == |events| + 1 && 0 < n < |states| && OpenedBy(states, events, k, n - 1, name, keys, fd)
    requires name in states[n].users && states[n].users[name] == keys
    requires name in states[n].nameToFd && states[n].nameToFd[name] == fd
    ensures OpenedBy(states, events, k, n, name, keys, fd)
  {
  }

  lemma OpenedNow(states: seq<State>, events: seq<Event>, n: nat, name: Name, keys: Keys, fd: int)
    requires |states| == |events| + 1 && 0 < n < |states|
    requires events[n - 1].command == DoLogin(name, keys) && events[n - 1].fd == fd
    requires name !in states[n - 1].users && fd !in states[n - 1].fdToName
    requires name in states[n].users && states[n].users[name] == keys
    requires name in states[n].nameToFd && states[n].nameToFd[name] == fd
    ensures OpenedBy(states, events, n - 1, n, name, keys, fd)
  {
  }

  lemma {:induction false} KeysComeFromCurrentLogin(states: seq<State>, events: seq<Event>, n: nat, name: Name) returns (k: nat)
    requires Run(states, events) && n < |states| && name in states[n].users
    ensures name in states[n].nameToFd
    ensures OpenedBy(states, events, k, n, name, states[n].users[name], states[n].nameToFd[name])
  {
    hide Step, Possible, FromWire, OpenedBy;
    RunKeepsInv(states, events, n);
    assert n > 0;
    RunKeepsInv(states, events, n - 1);
    assert states[n] == Step(states[n - 1], events[n - 1]);
    StepKeepsUser(states[n - 1], events[n - 1], name);
    if name in states[n - 1].users {
      k := KeysComeFromCurrentLogin(states, events, n - 1, name);
      OpenedStaysOpen(states, events, k, n, name, states[n].users[name], states[n].nameToFd[name]);
    } else {
      k := n - 1;
      OpenedNow(states, events, n, name, states[n].users[name], states[n].nameToFd[name]);
    }
  }

  /** Every key reply in every run decodes to exactly the keys of the login behind the user's current session. */
  lemma KeyReplyDecodes(states: seq<State>, events: seq<Event>, n: nat, name: Name) returns (k: nat)
    requires Run(states, events) && n < |events| && events[n].command == DoGetPub(name)
    requires name != [] && name in states[n].users
    ensures var keys := states[n].users[name];
            var s, s' := states[n], states[n + 1];
            && name in s.nameToFd && OpenedBy(states, events, k, n, name, keys, s.nameToFd[name])
            && |s'.outbox| == |s.outbox| + 1 && s'.outbox[|s.outbox|].0 == events[n].fd
            && var r := Deserialize(s'.outbox[|s.outbox|].1);
               r.Ok? && r.value.header.kind == RESPONSE && r.value.payload == keys.dh
               && r.value.metadata == [[GET_PUBKEY], name, keys.identity, keys.signature]
  {
    k := KeysComeFromCurrentLogin(states, events, n, name);
    RunKeepsInv(states, events, n);
    FromWireFits(events[n].command);
    assert states[n + 1] == Step(states[n], events[n]);
    hide Run, Inv;
    PubkeyReply(states[n], events[n].fd, name);
  }

  lemma PubkeyReply(s: State, fd: int, name: Name)
    requires KeysFit(s) && Short(name) && name != [] && name in s.users
    ensures var keys, s' := s.users[name], SendPubkey(s, fd, name);
            && |s'.outbox| == |s.outbox| + 1 && s'.outbox[|s.outbox|].0 == fd
            && var r := Deserialize(s'.outbox[|s.outbox|].1);
               r.Ok? && r.value.header.kind == RESPONSE && r.value.payload == keys.dh
               && r.value.metadata == [[GET_PUBKEY], name, keys.identity, keys.signature]
  {
    hide Serialize, Deserialize, Canned, ItemsSize;
    var keys := s.users[name];
    var items := [[GET_PUBKEY], name, keys.identity, keys.signature];
    ItemsSizeBound(items);
    BuiltMessageDecodes(keys.dh, items, RESPONSE);
  }

  /** Every cipher message forwarded in every run goes to the recipient's connection and decodes to the sender's
      payload, the two names as given, and the keys of the login behind the sender's current session; it is forwarded
      exactly when adding those keys keeps it within a 32-bit length. */
  lemma ForwardedCipherDecodes(states: seq<State>, events: seq<Event>, n: nat) returns (k: nat)
    requires Run(states, events) && n < |events| && events[n].command.DoCipher?
    requires events[n].fd in states[n].fdToName && events[n].command.msg.Meta(0) in states[n].nameToFd
    ensures var s, s', fd, msg := states[n], states[n + 1], events[n].fd, events[n].command.msg;
            var name := s.fdToName[fd];
            && name in s.users
            && var keys := s.users[name];
               var items := [msg.Meta(0), msg.Meta(1), keys.dh, keys.identity, keys.signature];
            && OpenedBy(states, events, k, n, name, keys, fd)
            && (WireSize(items, msg.payload) >= U32_LIMIT ==> s' == s)
            && (WireSize(items, msg.payload) < U32_LIMIT ==>
                  && |s'.outbox| == |s.outbox| + 1 && s'.outbox[|s.outbox|].0 == s.nameToFd[msg.Meta(0)]
                  && var r := Deserialize(s'.outbox[|s.outbox|].1);
                     r.Ok? && r.value.header.kind == CIPHER_MESSAGE && r.value.payload == msg.payload && r.value.metadata == items)
  {
    SenderIsRegistered(states, events, n, events[n].fd);
    var name := states[n].fdToName[events[n].fd];
    k := KeysComeFromCurrentLogin(states, events, n, name);
    RunKeepsInv(states, events, n);
    FromWireFits(events[n].command);
    assert states[n + 1] == Step(states[n], events[n]);
    assert states[n].nameToFd[name] == events[n].fd;
    hide Run, Inv;
    CipherForward(states[n], events[n].fd, events[n].command.msg);
  }

  lemma CipherForward(s: State, fd: int, msg: Message)
    requires KeysFit(s) && Fits(DoCipher(msg)) && fd in s.fdToName && msg.Meta(0) in s.nameToFd && s.fdToName[fd] in s.users
    ensures var s' := DeliverCipher(s, fd, msg);
            var keys := s.users[s.fdToName[fd]];
            var items := [msg.Meta(0), msg.Meta(1), keys.dh, keys.identity, keys.signature];
            && (WireSize(items, msg.payload) >= U32_LIMIT ==> s' == s)
            && (WireSize(items, msg.payload) < U32_LIMIT ==>
                  && |s'.outbox| == |s.outbox| + 1 && s'.outbox[|s.outbox|].0 == s.nameToFd[msg.Meta(0)]
                  && var r := Deserialize(s'.outbox[|s.outbox|].1);
                     r.Ok? && r.value.header.kind == CIPHER_MESSAGE && r.value.payload == msg.payload && r.value.metadata == items)
  {
    hide Serialize, Deserialize, Canned, ItemsSize;
    var keys := s.users[s.fdToName[fd]];
    var items := [msg.Meta(0), msg.Meta(1), keys.dh, keys.identity, keys.signature];
    if WireSize(items, msg.payload) < U32_LIMIT {
      BuiltMessageDecodes(msg.payload, items, CIPHER_MESSAGE);
    }
  }

  /** A file message reaches its recipient's connection, and says there what it said here exactly when it respects the
      widths of the format it goes out in. */
  lemma ForwardedFileDecodes(s: State, fd: int, msg: Message)
    requires msg.Sized() && msg.Meta(0) in s.nameToFd
    ensures var s' := ForwardFile(s, fd, msg);
            && |s'.outbox| == |s.outbox| + 1 && s'.outbox[|s.outbox|].0 == s.nameToFd[msg.Meta(0)]
            && var r := Deserialize(s'.outbox[|s.outbox|].1);
               r.Ok? && msg.SameContent(r.value) <==> msg.Encodable()
  {
    hide Serialize, Deserialize;
    RoundTripIffEncodable(msg);
  }

  /** The start, every chunk and the end of a file, off the wire, are forwarded as they were sent. */
  lemma FileMessagesAreForwarded(m: Message) returns (d: Message)
    requires m.Sized() && m.Encodable() && (m.header.kind == 0x05 || m.header.kind == 0x06 || m.header.kind == 0x07)
    ensures CommandOfBytes(Serialize(m)) == DoForward(d) && m.SameContent(d)
  {
    hide Serialize, Deserialize;
    RoundTrip(m, []);
    assert Serialize(m) + [] == Serialize(m);
    d := Deserialize(Serialize(m)).value;
  }

  /** Bytes make the server act only if they decode to a cipher message, a file message, or one of seven commands. */
  lemma OnlyTheseAct(raw: Bytes)
    requires CommandOfBytes(raw) != DoNothing
    ensures Deserialize(raw).Ok?
    ensures var m := Deserialize(raw).value;
            || m.header.kind in {0x03, 0x05, 0x06, 0x07}
            || (m.header.kind == 0x01 && m.Meta(0) != []
                && m.Meta(0)[0] in {0x01, 0x02, 0x03, 0x04, 0x05, 0x09, 0xFE})
  {
    hide Deserialize, NewMessage;
  }
}
