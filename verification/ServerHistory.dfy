/** The server state explained by what happened before: who is registered, which rooms there are, who is in a room and
    what a room has seen follow from the logins, exits, entries and posts of the run. Whether an event is one of these is
    read off the state it met. */
module ServerHistory {
  import opened Octets
  import opened Identities
  import opened Codec
  import opened ServerModel
  import ServerGuarantees

  /** A login that takes: the connection has no session and the name is free. */
  ghost predicate LogsIn(s: State, e: Event, name: Name) {
    e.command.DoLogin? && e.command.name == name && e.fd !in s.fdToName && name !in s.users
  }

  ghost predicate LogsOut(s: State, e: Event, name: Name) {
    e.command.DoExit? && e.fd in s.fdToName && s.fdToName[e.fd] == name
  }

  /** `name` creates a room that is new, or joins one that is there. */
  ghost predicate Enters(s: State, e: Event, chat: Name, name: Name) {
    && e.fd in s.fdToName && s.fdToName[e.fd] == name && chat != []
    && ((e.command == DoCreate(chat) && chat !in s.rooms) || (e.command == DoJoin(chat) && chat in s.rooms))
  }

  ghost predicate IsMember(s: State, chat: Name, name: Name) {
    chat in s.rooms && name in s.rooms[chat].members
  }

  function History(s: State, chat: Name): seq<Message> {
    if chat in s.rooms then s.rooms[chat].history else []
  }

  /** The message an event adds to a room: that of a member's group send. */
  function Posted(s: State, e: Event, chat: Name): seq<Message> {
    if e.command.DoSend? && e.command.chat == chat && AcceptsGroupMessage(s, e.fd, chat) then [e.command.message] else []
  }

  // --- One step ---

  lemma StepUsers(s: State, e: Event, name: Name)
    requires Inv(s)
    ensures name in Step(s, e).users <==> LogsIn(s, e, name) || (name in s.users && !LogsOut(s, e, name))
  {
    hide Canned, Greeting, CreateRoom, JoinRoom, SendGroupMessage, SendPubkey, DeliverCipher, ForwardFile, AnswerSendFile;
    match e.command
    case DoLogin(n, keys) =>
      SendMessageKeeps(Bind(s.(users := s.users[n := keys]), e.fd, n), e.fd, Greeting(n), [], TEXT);
    case DoCreate(chat) => RoomSteps(s, e.fd, chat, EMPTY_MESSAGE, []);
    case DoJoin(chat) => RoomSteps(s, e.fd, chat, EMPTY_MESSAGE, []);
    case DoSend(chat, m) => RoomSteps(s, e.fd, chat, m, e.order);
    case DoGetPub(n) => ReplySteps(s, e.fd, n, EMPTY_MESSAGE);
    case DoCipher(m) => ReplySteps(s, e.fd, [], m);
    case DoForward(m) => ReplySteps(s, e.fd, [], m);
    case DoSendFile(n, _) => ReplySteps(s, e.fd, n, EMPTY_MESSAGE);
    case DoExit =>
    case DoNothing =>
  }

  lemma StepMembers(s: State, e: Event, chat: Name, name: Name)
    ensures IsMember(Step(s, e), chat, name) <==> Enters(s, e, chat, name) || (IsMember(s, chat, name) && !LogsOut(s, e, name))
  {
    hide Canned, Greeting, Joined, Created, Serialize, NewMessage, SendPubkey, DeliverCipher, ForwardFile, AnswerSendFile, Copies;
    match e.command
    case DoGetPub(n) => ReplySteps(s, e.fd, n, EMPTY_MESSAGE);
    case DoCipher(m) => ReplySteps(s, e.fd, [], m);
    case DoForward(m) => ReplySteps(s, e.fd, [], m);
    case DoSendFile(n, _) => ReplySteps(s, e.fd, n, EMPTY_MESSAGE);
    case _ =>
  }

  lemma StepHistory(s: State, e: Event, chat: Name)
    ensures History(Step(s, e), chat) == History(s, chat) + Posted(s, e, chat)
  {
    hide Canned, Greeting, Joined, Created, Serialize, NewMessage, SendPubkey, DeliverCipher, ForwardFile, AnswerSendFile, Copies;
    match e.command
    case DoGetPub(n) => ReplySteps(s, e.fd, n, EMPTY_MESSAGE);
    case DoCipher(m) => ReplySteps(s, e.fd, [], m);
    case DoForward(m) => ReplySteps(s, e.fd, [], m);
    case DoSendFile(n, _) => ReplySteps(s, e.fd, n, EMPTY_MESSAGE);
    case _ =>
  }

  // --- Every run ---

  /** For each event: is it a login, an exit, an entry into `chat`, of `name`? */
  ghost function Logins(states: seq<State>, events: seq<Event>, name: Name): seq<bool>
    requires |events| <= |states|
  {
    seq(|events|, i requires 0 <= i < |events| => LogsIn(states[i], events[i], name))
  }

  ghost function Exits(states: seq<State>, events: seq<Event>, name: Name): seq<bool>
    requires |events| <= |states|
  {
    seq(|events|, i requires 0 <= i < |events| => LogsOut(states[i], events[i], name))
  }

  ghost function Entries(states: seq<State>, events: seq<Event>, chat: Name, name: Name): seq<bool>
    requires |events| <= |states|
  {
    seq(|events|, i requires 0 <= i < |events| => Enters(states[i], events[i], chat, name))
  }

  ghost predicate StartedSince(start: seq<bool>, stop: seq<bool>, k: nat, n: nat)
    requires n <= |start| == |stop|
  {
    k < n && start[k] && forall j :: k < j < n ==> !stop[j]
  }

  /** A flag that a step sets on `start`, clears on `stop` and keeps otherwise, is on exactly when there was a start
      and no stop since. */
  lemma {:induction false} OnIffStartedSince(start: seq<bool>, stop: seq<bool>, on: seq<bool>, n: nat)
    requires n <= |start| == |stop| && |on| == |start| + 1 && !on[0]
    requires forall i :: 0 <= i < |start| ==> (on[i + 1] <==> start[i] || (on[i] && !stop[i]))
    ensures on[n] <==> exists k :: StartedSince(start, stop, k, n)
  {
    if n > 0 {
      OnIffStartedSince(start, stop, on, n - 1);
      if start[n - 1] {
        assert StartedSince(start, stop, n - 1, n);
      } else if on[n - 1] && !stop[n - 1] {
        var k :| StartedSince(start, stop, k, n - 1);
        assert StartedSince(start, stop, k, n);
      } else if k :| StartedSince(start, stop, k, n) {
        assert StartedSince(start, stop, k, n - 1) || stop[n - 1];
      }
    }
  }

  lemma RunStep(states: seq<State>, events: seq<Event>, i: nat)
    requires Run(states, events) && i < |events|
    ensures states[i + 1] == Step(states[i], events[i])
  {
  }

  /** A name is registered exactly when it has logged in and not out since. */
  lemma RegisteredIffLoggedIn(states: seq<State>, events: seq<Event>, n: nat, name: Name)
    requires Run(states, events) && n <= |events|
    ensures name in states[n].users
            <==> exists k :: StartedSince(Logins(states, events, name), Exits(states, events, name), k, n)
  {
    hide Step, LogsIn, LogsOut, Inv, StartedSince;
    var on := seq(|states|, i requires 0 <= i < |states| => name in states[i].users);
    var start, stop := Logins(states, events, name), Exits(states, events, name);
    forall i | 0 <= i < |events|
      ensures on[i + 1] <==> start[i] || (on[i] && !stop[i])
    {
      RunKeepsInv(states, events, i);
      RunStep(states, events, i);
      StepUsers(states[i], events[i], name);
    }
    OnIffStartedSince(start, stop, on, n);
  }

  /** A name is in a room exactly when it has created or joined it and not logged out since. */
  lemma MemberIffEntered(states: seq<State>, events: seq<Event>, n: nat, chat: Name, name: Name)
    requires Run(states, events) && n <= |events|
    ensures IsMember(states[n], chat, name)
            <==> exists k :: StartedSince(Entries(states, events, chat, name), Exits(states, events, name), k, n)
  {
    assert !IsMember(START, chat, name);
    hide Step, Enters, LogsOut, IsMember, StartedSince;
    var on := seq(|states|, i requires 0 <= i < |states| => IsMember(states[i], chat, name));
    var start, stop := Entries(states, events, chat, name), Exits(states, events, name);
    forall i | 0 <= i < |events|
      ensures on[i + 1] <==> start[i] || (on[i] && !stop[i])
    {
      RunStep(states, events, i);
      StepMembers(states[i], events[i], chat, name);
    }
    OnIffStartedSince(start, stop, on, n);
  }

  function AllPosted(states: seq<State>, events: seq<Event>, n: nat, chat: Name): seq<Message>
    requires n <= |events| <= |states|
  {
    if n == 0 then [] else AllPosted(states, events, n - 1, chat) + Posted(states[n - 1], events[n - 1], chat)
  }

  /** A room's history is every accepted group message to it, in order. */
  lemma {:induction false} HistoryIsEverythingPosted(states: seq<State>, events: seq<Event>, n: nat, chat: Name)
    requires Run(states, events) && n <= |events|
    ensures History(states[n], chat) == AllPosted(states, events, n, chat)
  {
    if n > 0 {
      hide Step, Posted, History, FromWire, Possible;
      HistoryIsEverythingPosted(states, events, n - 1, chat);
      StepHistory(states[n - 1], events[n - 1], chat);
    }
  }

  // --- Replies ---

  /** Whether a command is one that the server carries out for this connection. */
  predicate Accepted(s: State, e: Event) {
    match e.command
    case DoLogin(name, _) => e.fd !in s.fdToName && name !in s.users
    case DoCreate(chat) => e.fd in s.fdToName && chat != [] && chat !in s.rooms
    case DoJoin(chat) => e.fd in s.fdToName && chat != [] && chat in s.rooms && s.fdToName[e.fd] !in s.rooms[chat].members
    case DoSend(chat, _) => AcceptsGroupMessage(s, e.fd, chat)
    case DoGetPub(name) => name != [] && name in s.users
    case DoCipher(msg) => e.fd in s.fdToName && msg.Meta(0) in s.nameToFd
    case DoForward(msg) => msg.Meta(0) in s.nameToFd
    case DoSendFile(_, _) => true
    case DoExit => true
    case DoNothing => true
  }

  /** The room, or the user, that a command names. */
  function RoomOf(c: Command): Name {
    match c
    case DoCreate(chat) => chat
    case DoJoin(chat) => chat
    case DoSend(chat, _) => chat
    case _ => []
  }

  function UserOf(c: Command): Name {
    match c
    case DoLogin(name, _) => name
    case DoGetPub(name) => name
    case DoCipher(msg) => msg.Meta(0)
    case DoForward(msg) => msg.Meta(0)
    case _ => []
  }

  datatype Refusal =
    | NoSession | HasSession | NoRoomName | NoSuchRoom | RoomTaken | AlreadyMember | NotMember
    | NoSuchUser | NameTaken | NoUserName

  function TextOf(r: Refusal): Bytes {
    match r
    case NoSession => YOU_NEED_TO_LOGIN
    case HasSession => YOU_ARE_LOGGED_IN
    case NoRoomName => EMPTY_CHAT_NAME
    case NoSuchRoom => CHAT_NOT_FOUND
    case RoomTaken => CHAT_ALREADY_EXISTS
    case AlreadyMember => YOU_ARE_ALREADY_MEMBER
    case NotMember => YOU_ARE_NOT_MEMBER
    case NoSuchUser => USER_NOT_FOUND
    case NameTaken => PUBLIC_KEY_HAS_NOT_SET
    case NoUserName => WRONG_COMMAND_USAGE
  }

  /** The ten texts differ: nine lengths, and the two of one length differ in a letter. */
  lemma TextsDiffer(r: Refusal, q: Refusal)
    requires TextOf(r) == TextOf(q)
    ensures r == q
  {
    assert YOU_NEED_TO_LOGIN[15] == 'Y' as int && PUBLIC_KEY_HAS_NOT_SET[15] == 'P' as int;
    hide Canned;
    TextSize(r);
    TextSize(q);
  }

  function SizeOf(r: Refusal): nat {
    match r
    case NoSession => 42
    case HasSession => 40
    case NoRoomName => 30
    case NoSuchRoom => 20
    case RoomTaken => 37
    case AlreadyMember => 50
    case NotMember => 46
    case NoSuchUser => 28
    case NameTaken => 42
    case NoUserName => 66
  }

  lemma TextSize(r: Refusal)
    ensures |TextOf(r)| == SizeOf(r)
  {
  }

  /** What a client reads in a refusal, letter by letter. */
  lemma RefusalDecodes(r: Refusal)
    ensures var d := Deserialize(TextOf(r));
            && d.Ok? && d.value.header.kind == 0x00
            && d.value.payload == match r
               case NoSession => Ascii("[Error]: You must authenticate first")
               case HasSession => Ascii("[Error]: You are already logged in")
               case NoRoomName => Ascii("[Error]: Empty chat name")
               case NoSuchRoom => Ascii("Chat not found")
               case RoomTaken => Ascii("[Error]: Chat is already exists")
               case AlreadyMember => Ascii("[Error]: You are already member of this chat")
               case NotMember => Ascii("[Error]: You are not member of this chat")
               case NoSuchUser => Ascii("[ERROR] User not found")
               case NameTaken => Ascii("[Error]: Public key has not been set")
               case NoUserName => Ascii("[Error]: Wrong command usage. " + "Please use /help to get a help")
  {
    hide Canned, Deserialize, Serialize, Ascii;
    match r
    case NoSession => ServerGuarantees.CannedIsSerializedText("[Error]: You must authenticate first");
    case HasSession => ServerGuarantees.CannedIsSerializedText("[Error]: You are already logged in");
    case NoRoomName => ServerGuarantees.CannedIsSerializedText("[Error]: Empty chat name");
    case NoSuchRoom => ServerGuarantees.CannedIsSerializedText("Chat not found");
    case RoomTaken => ServerGuarantees.CannedIsSerializedText("[Error]: Chat is already exists");
    case AlreadyMember => ServerGuarantees.CannedIsSerializedText("[Error]: You are already member of this chat");
    case NotMember => ServerGuarantees.CannedIsSerializedText("[Error]: You are not member of this chat");
    case NoSuchUser => ServerGuarantees.CannedIsSerializedText("[ERROR] User not found");
    case NameTaken => ServerGuarantees.CannedIsSerializedText("[Error]: Public key has not been set");
    case NoUserName =>
      ServerGuarantees.CannedIsSerializedText("[Error]: Wrong command usage. " + "Please use /help to get a help");
  }

  /** The condition that a text stands for, whichever command was refused. */
  ghost predicate Condition(s: State, e: Event, r: Refusal) {
    match r
    case NoSession => e.fd !in s.fdToName
    case HasSession => e.fd in s.fdToName
    case NoRoomName => RoomOf(e.command) == []
    case NoSuchRoom => RoomOf(e.command) !in s.rooms
    case RoomTaken => RoomOf(e.command) in s.rooms
    case AlreadyMember => e.fd in s.fdToName && IsMember(s, RoomOf(e.command), s.fdToName[e.fd])
    case NotMember => e.fd in s.fdToName && !IsMember(s, RoomOf(e.command), s.fdToName[e.fd])
    case NoSuchUser => UserOf(e.command) !in s.users
    case NameTaken => UserOf(e.command) in s.users
    case NoUserName => UserOf(e.command) == []
  }

  /** Which conditions a command can be refused for, and in which order they are looked at. */
  predicate Concerns(c: Command, r: Refusal) {
    match c
    case DoLogin(_, _) => r == HasSession || r == NameTaken
    case DoCreate(_) => r == NoSession || r == NoRoomName || r == RoomTaken
    case DoJoin(_) => r == NoSession || r == NoRoomName || r == NoSuchRoom || r == AlreadyMember
    case DoSend(_, _) => r == NoSession || r == NoSuchRoom || r == NotMember
    case DoGetPub(_) => r == NoUserName || r == NoSuchUser
    case DoCipher(_) => r == NoSession || r == NoSuchUser
    case DoForward(_) => r == NoSuchUser
    case _ => false
  }

  function Rank(r: Refusal): nat {
    match r
    case NoSession => 0
    case HasSession => 0
    case NoRoomName => 1
    case NoUserName => 1
    case NoSuchRoom => 2
    case RoomTaken => 2
    case _ => 3
  }

  /** A command is refused exactly when one of its conditions holds, and the text is that of the first that does. */
  lemma RefusedForFirstCondition(s: State, e: Event)
    requires Inv(s)
    ensures Accepted(s, e) <==> forall r :: Concerns(e.command, r) ==> !Condition(s, e, r)
    ensures forall r :: Concerns(e.command, r) && Condition(s, e, r)
                        && (forall q :: Concerns(e.command, q) && Condition(s, e, q) ==> Rank(r) <= Rank(q))
              ==> Step(s, e) == Send(s, e.fd, TextOf(r))
  {
    RefusedIff(s, e);
    if !Accepted(s, e) {
      var t := FirstRefusal(s, e);
      hide Step, Send, TextOf, Accepted, Inv;
      forall r | Concerns(e.command, r) && Condition(s, e, r)
                 && (forall q :: Concerns(e.command, q) && Condition(s, e, q) ==> Rank(r) <= Rank(q))
        ensures Step(s, e) == Send(s, e.fd, TextOf(r))
      {
        SameRankIsSame(s, e, r, t);
      }
    }
  }

  lemma RefusedIff(s: State, e: Event)
    requires Inv(s)
    ensures Accepted(s, e) <==> forall r :: Concerns(e.command, r) ==> !Condition(s, e, r)
  {
    if !Accepted(s, e) {
      var t := FirstRefusal(s, e);
    }
  }

  lemma FirstRefusal(s: State, e: Event) returns (r: Refusal)
    requires Inv(s) && !Accepted(s, e)
    ensures Step(s, e) == Send(s, e.fd, TextOf(r)) && Concerns(e.command, r) && Condition(s, e, r)
    ensures forall q :: Concerns(e.command, q) && Condition(s, e, q) ==> Rank(r) <= Rank(q)
  {
    if e.command.DoCreate? || e.command.DoJoin? || e.command.DoSend? {
      r := FirstRoomRefusal(s, e);
    } else {
      r := FirstUserRefusal(s, e);
    }
  }

  lemma FirstRoomRefusal(s: State, e: Event) returns (r: Refusal)
    requires !Accepted(s, e) && (e.command.DoCreate? || e.command.DoJoin? || e.command.DoSend?)
    ensures Step(s, e) == Send(s, e.fd, TextOf(r)) && Concerns(e.command, r) && Condition(s, e, r)
    ensures forall q :: Concerns(e.command, q) && Condition(s, e, q) ==> Rank(r) <= Rank(q)
  {
    hide Canned, Joined, Created, SendMessage, Copies, Serialize;
    var chat := RoomOf(e.command);
    r := if e.fd !in s.fdToName then NoSession
         else if chat == [] && !e.command.DoSend? then NoRoomName
         else if e.command.DoCreate? then RoomTaken
         else if chat !in s.rooms then NoSuchRoom
         else if e.command.DoJoin? then AlreadyMember
         else NotMember;
  }

  lemma FirstUserRefusal(s: State, e: Event) returns (r: Refusal)
    requires Inv(s) && !Accepted(s, e)
    requires e.command.DoLogin? || e.command.DoGetPub? || e.command.DoCipher? || e.command.DoForward?
    ensures Step(s, e) == Send(s, e.fd, TextOf(r)) && Concerns(e.command, r) && Condition(s, e, r)
    ensures forall q :: Concerns(e.command, q) && Condition(s, e, q) ==> Rank(r) <= Rank(q)
  {
    hide Canned, Greeting, SendMessage;
    r := if e.command.DoLogin? then (if e.fd in s.fdToName then HasSession else NameTaken)
         else if e.command.DoCipher? && e.fd !in s.fdToName then NoSession
         else if e.command == DoGetPub([]) then NoUserName
         else NoSuchUser;
  }

  /** Conditions of one command and one rank exclude each other. */
  lemma SameRankIsSame(s: State, e: Event, r: Refusal, t: Refusal)
    requires Concerns(e.command, r) && Concerns(e.command, t) && Condition(s, e, r) && Condition(s, e, t)
    requires Rank(r) == Rank(t)
    ensures r == t
  {
  }

  /** Each text stands for one condition: it holds of the state the refused command met, and no other refusal has the
      same bytes. */
  lemma RefusalMeansOneThing(s: State, e: Event) returns (r: Refusal)
    requires Inv(s) && !Accepted(s, e)
    ensures Step(s, e) == Send(s, e.fd, TextOf(r)) && Condition(s, e, r)
    ensures r.NameTaken? <==> e.command.DoLogin? && e.fd !in s.fdToName
    ensures forall q :: TextOf(q) == TextOf(r) ==> q == r
  {
    hide TextOf, Step, Send, Inv;
    r := FirstRefusal(s, e);
    assert Concerns(e.command, HasSession) ==> e.command.DoLogin?;
    forall q | TextOf(q) == TextOf(r)
      ensures q == r
    {
      TextsDiffer(q, r);
    }
  }

  /** What a text says in words. Nine say their condition; the one for a taken name says that no public key is set. */
  ghost predicate Wording(s: State, e: Event, r: Refusal) {
    if r.NameTaken? then UserOf(e.command) in s.users ==> s.users[UserOf(e.command)].dh == []
    else Condition(s, e, r)
  }

  /** A new login under the name of a user whose public key is set. */
  predicate TakenWithKey(s: State, e: Event) {
    && e.command.DoLogin? && e.fd !in s.fdToName
    && e.command.name in s.users && s.users[e.command.name].dh != []
  }

  /** The words of a refusal are true exactly when it does not answer such a login. */
  lemma WordingTrueIff(s: State, e: Event) returns (r: Refusal)
    requires Inv(s) && !Accepted(s, e)
    ensures Step(s, e) == Send(s, e.fd, TextOf(r))
    ensures Wording(s, e, r) <==> !TakenWithKey(s, e)
  {
    hide Inv, TextOf, Step, Send;
    r := RefusalMeansOneThing(s, e);
  }

  /** Two logins under one name: the second is told that no public key is set, although one is. */
  lemma TakenNameIsMisreported(fd: int, other: int, name: Name, keys: Keys) returns (states: seq<State>, events: seq<Event>)
    requires fd != other && keys.dh != [] && Fits(DoLogin(name, keys))
    ensures Run(states, events) && events == [Event(fd, DoLogin(name, keys), []), Event(other, DoLogin(name, keys), [])]
    ensures states[2] == Send(states[1], other, PUBLIC_KEY_HAS_NOT_SET)
    ensures name in states[1].users && states[1].users[name] == keys && !Wording(states[1], events[1], NameTaken)
  {
    hide Greeting, Canned, FromWire, SendMessage;
    events := [Event(fd, DoLogin(name, keys), []), Event(other, DoLogin(name, keys), [])];
    LoginIsFromWire(name, keys);
    var bound := Bind(START.(users := START.users[name := keys]), fd, name);
    SendMessageKeeps(bound, fd, Greeting(name), [], TEXT);
    var s1 := Step(START, events[0]);
    states := [START, s1, Step(s1, events[1])];
  }

  /** A refused command changes nothing and is answered once, to the connection it came from. */
  lemma RefusalsOnlyAnswer(s: State, e: Event)
    requires Inv(s) && !Accepted(s, e)
    ensures var s' := Step(s, e);
            && OnlySent(s, s') && |s'.outbox| == |s.outbox| + 1 && s.outbox <= s'.outbox
            && s'.outbox[|s.outbox|].0 == e.fd
  {
    hide Step, Inv, TextOf, Condition;
    var r := RefusalMeansOneThing(s, e);
  }

  /** A session asks for a room. */
  ghost predicate AsksFor(s: State, e: Event, chat: Name) {
    e.command == DoCreate(chat) && e.fd in s.fdToName && chat != []
  }

  lemma StepRooms(s: State, e: Event, chat: Name)
    ensures chat in Step(s, e).rooms <==> chat in s.rooms || AsksFor(s, e, chat)
  {
    hide Canned, Greeting, Joined, Created, Serialize, NewMessage, SendPubkey, DeliverCipher, ForwardFile, AnswerSendFile, Copies;
    match e.command
    case DoGetPub(n) => ReplySteps(s, e.fd, n, EMPTY_MESSAGE);
    case DoCipher(m) => ReplySteps(s, e.fd, [], m);
    case DoForward(m) => ReplySteps(s, e.fd, [], m);
    case DoSendFile(n, _) => ReplySteps(s, e.fd, n, EMPTY_MESSAGE);
    case _ =>
  }

  ghost predicate AskedBefore(states: seq<State>, events: seq<Event>, n: nat, chat: Name)
    requires n <= |events| <= |states|
  {
    exists k :: 0 <= k < n && AsksFor(states[k], events[k], chat)
  }

  /** A room is there exactly when some session has asked for it: rooms never go away. */
  lemma {:induction false} RoomIffAskedFor(states: seq<State>, events: seq<Event>, n: nat, chat: Name)
    requires Run(states, events) && n <= |events|
    ensures chat in states[n].rooms <==> AskedBefore(states, events, n, chat)
  {
    hide Step, AsksFor;
    if n > 0 {
      RunStep(states, events, n - 1);
      hide Run;
      RoomIffAskedFor(states, events, n - 1, chat);
      StepRooms(states[n - 1], events[n - 1], chat);
    }
  }

  ghost predicate RegisteredBefore(states: seq<State>, events: seq<Event>, n: nat, name: Name)
    requires n <= |events| <= |states|
  {
    exists k :: StartedSince(Logins(states, events, name), Exits(states, events, name), k, n)
  }

  ghost predicate EnteredBefore(states: seq<State>, events: seq<Event>, n: nat, chat: Name, name: Name)
    requires n <= |events| <= |states|
  {
    exists k :: StartedSince(Entries(states, events, chat, name), Exits(states, events, name), k, n)
  }

  /** In every run, the text of a refusal tells its reader what has happened before and what has not: whether the room
      was ever asked for, whether the name has logged in, or this client entered the room, and not exited since. */
  lemma RefusalTellsHistory(states: seq<State>, events: seq<Event>, n: nat) returns (r: Refusal)
    requires Run(states, events) && n < |events| && !Accepted(states[n], events[n])
    ensures states[n + 1] == Send(states[n], events[n].fd, TextOf(r)) && Condition(states[n], events[n], r)
    ensures var room, user := RoomOf(events[n].command), UserOf(events[n].command);
            && (r.NoSuchRoom? ==> !AskedBefore(states, events, n, room))
            && (r.RoomTaken? ==> AskedBefore(states, events, n, room))
            && (r.NoSuchUser? ==> !RegisteredBefore(states, events, n, user))
            && (r.NameTaken? ==> RegisteredBefore(states, events, n, user))
            && (r.AlreadyMember? ==> EnteredBefore(states, events, n, room, states[n].fdToName[events[n].fd]))
            && (r.NotMember? ==> !EnteredBefore(states, events, n, room, states[n].fdToName[events[n].fd]))
  {
    var s, e := states[n], events[n];
    var room, user := RoomOf(e.command), UserOf(e.command);
    RunStep(states, events, n);
    RunKeepsInv(states, events, n);
    RoomIffAskedFor(states, events, n, room);
    RegisteredIffLoggedIn(states, events, n, user);
    hide Run, Inv, Step, Logins, Exits, Entries, AskedBefore, StartedSince, TextOf, Accepted, RoomOf, UserOf;
    r := RefusalMeansOneThing(s, e);
    if e.fd in s.fdToName {
      MemberIffEntered(states, events, n, room, s.fdToName[e.fd]);
    }
  }

  // --- Where error bytes come from ---

  /** Bytes that start like no refusal: another type, or a text whose first letter is neither `C` nor `[`. */
  predicate StartsUnlike(b: Bytes) {
    b != [] && (b[0] != TEXT || (|b| > 6 && b[6] != 'C' as int && b[6] != '[' as int))
  }

  lemma NoRefusal(b: Bytes, r: Refusal)
    requires StartsUnlike(b)
    ensures b != TextOf(r)
  {
    match r
    case NoSuchRoom => CannedStarts("Chat not found");
    case NoSession => CannedStarts("[Error]: You must authenticate first");
    case HasSession => CannedStarts("[Error]: You are already logged in");
    case NoRoomName => CannedStarts("[Error]: Empty chat name");
    case RoomTaken => CannedStarts("[Error]: Chat is already exists");
    case AlreadyMember => CannedStarts("[Error]: You are already member of this chat");
    case NotMember => CannedStarts("[Error]: You are not member of this chat");
    case NoSuchUser => CannedStarts("[ERROR] User not found");
    case NameTaken => CannedStarts("[Error]: Public key has not been set");
    case NoUserName => CannedStarts("[Error]: Wrong command usage. " + "Please use /help to get a help");
  }

  lemma CannedStarts(text: string)
    requires 0 < |text| < 256 && (text[0] == 'C' || text[0] == '[')
    ensures !StartsUnlike(Canned(text))
  {
  }

  /** No refusal looks like these: a message with metadata and another type, or a bare text with another first letter. */
  predicate Unmistakable(payload: Bytes, metadata: seq<Bytes>, kind: byte) {
    && |metadata| <= 127
    && if kind == TEXT then metadata == [] && payload != [] && payload[0] != 'C' as int && payload[0] != '[' as int
       else metadata != []
  }

  lemma BuiltStarts(payload: Bytes, metadata: seq<Bytes>, kind: byte)
    requires NewMessage(payload, metadata, kind, 0).Ok? && Unmistakable(payload, metadata, kind)
    ensures StartsUnlike(Serialize(NewMessage(payload, metadata, kind, 0).value))
  {
    var m := NewMessage(payload, metadata, kind, 0).value;
    var raw := Serialize(m);
    EncodeTailSize(metadata, payload);
    assert raw == [kind, m.metalen] + EncodeTail(metadata, payload);
    if kind == TEXT {
      assert EncodeItems([]) == [];
      assert EncodeTail([], payload)[4..] == payload;
      assert raw[6] == EncodeTail([], payload)[4];
    }
  }

  lemma SendMessageStarts(s: State, fd: int, payload: Bytes, metadata: seq<Bytes>, kind: byte)
    requires Unmistakable(payload, metadata, kind)
    ensures var s' := SendMessage(s, fd, payload, metadata, kind);
            s'.outbox == s.outbox
            || (|s'.outbox| == |s.outbox| + 1 && s'.outbox[..|s.outbox|] == s.outbox && StartsUnlike(s'.outbox[|s.outbox|].1))
  {
    hide Serialize, StartsUnlike;
    if NewMessage(payload, metadata, kind, 0).Ok? {
      BuiltStarts(payload, metadata, kind);
    }
  }

  lemma ConfirmationStarts(c: Command)
    requires c.DoLogin? || c.DoCreate? || c.DoJoin?
    ensures Confirmation(c) != [] && Confirmation(c)[0] != 'C' as int && Confirmation(c)[0] != '[' as int
  {
  }

  lemma {:induction false} CopiesCarry(nameToFd: map<Name, int>, order: seq<Name>, bytes: Bytes, k: nat)
    requires k < |Copies(nameToFd, order, bytes)|
    ensures Copies(nameToFd, order, bytes)[k].1 == bytes
  {
    var before := Copies(nameToFd, order[..|order| - 1], bytes);
    if k < |before| {
      CopiesCarry(nameToFd, order[..|order| - 1], bytes, k);
    }
  }

  /** In every run, the bytes of a refusal reach a connection in two ways only: its own command or file message was
      refused, or a member posted that very text to a room. */
  lemma ErrorBytesComeFrom(states: seq<State>, events: seq<Event>, n: nat, k: nat, r: Refusal)
    requires Run(states, events) && n < |events|
    requires |states[n].outbox| <= k < |states[n + 1].outbox| && states[n + 1].outbox[k].1 == TextOf(r)
    ensures var s, e := states[n], events[n];
            (!Accepted(s, e) && states[n + 1].outbox[k].0 == e.fd)
            || (Accepted(s, e) && e.command.DoSend? && Serialize(e.command.message) == TextOf(r))
  {
    EventFits(states, events, n);
    RunKeepsInv(states, events, n);
    RunStep(states, events, n);
    hide Run, Inv, Fits, TextOf, Serialize, Step, Accepted;
    StepErrorBytes(states[n], events[n], k, r);
  }

  lemma EventFits(states: seq<State>, events: seq<Event>, n: nat)
    requires Run(states, events) && n < |events|
    ensures Fits(events[n].command)
  {
    hide FromWire, Fits, Step, Possible;
    FromWireFits(events[n].command);
  }

  lemma StepErrorBytes(s: State, e: Event, k: nat, r: Refusal)
    requires Inv(s) && Fits(e.command) && |s.outbox| <= k < |Step(s, e).outbox| && Step(s, e).outbox[k].1 == TextOf(r)
    ensures (!Accepted(s, e) && Step(s, e).outbox[k].0 == e.fd)
            || (Accepted(s, e) && e.command.DoSend? && Serialize(e.command.message) == TextOf(r))
  {
    hide Inv, Fits, TextOf, Condition, Serialize, StartsUnlike, Step, Accepted;
    if !Accepted(s, e) {
      RefusalsOnlyAnswer(s, e);
    } else {
      AcceptedStarts(s, e, k);
      if StartsUnlike(Step(s, e).outbox[k].1) {
        NoRefusal(Step(s, e).outbox[k].1, r);
      }
    }
  }

  lemma AcceptedStarts(s: State, e: Event, k: nat)
    requires Inv(s) && Fits(e.command) && Accepted(s, e) && |s.outbox| <= k < |Step(s, e).outbox|
    ensures StartsUnlike(Step(s, e).outbox[k].1)
            || (e.command.DoSend? && Step(s, e).outbox[k].1 == Serialize(e.command.message))
  {
    hide Serialize, SendMessage, StartsUnlike, Canned, Copies;
    match e.command
    case DoLogin(name, keys) =>
      ConfirmationStarts(e.command);
      SendMessageStarts(Bind(s.(users := s.users[name := keys]), e.fd, name), e.fd, Greeting(name), [], TEXT);
    case DoCreate(chat) =>
      ConfirmationStarts(e.command);
      SendMessageStarts(s.(rooms := s.rooms[chat := Room({s.fdToName[e.fd]}, [])]), e.fd, Created(chat), [], TEXT);
    case DoJoin(chat) =>
      ConfirmationStarts(e.command);
      var room := s.rooms[chat];
      SendMessageStarts(s.(rooms := s.rooms[chat := room.(members := room.members + {s.fdToName[e.fd]})]), e.fd, Joined(chat), [], TEXT);
    case DoSend(chat, message) =>
      CopiesCarry(s.nameToFd, e.order, Serialize(message), k - |s.outbox|);
    case DoGetPub(name) =>
      var keys := s.users[name];
      SendMessageStarts(s, e.fd, keys.dh, [[GET_PUBKEY], name, keys.identity, keys.signature], RESPONSE);
    case DoCipher(msg) =>
      var keys := s.users[s.fdToName[e.fd]];
      SendMessageStarts(s, s.nameToFd[msg.Meta(0)], msg.payload,
                        [msg.Meta(0), msg.Meta(1), keys.dh, keys.identity, keys.signature], CIPHER_MESSAGE);
    case DoForward(msg) => ForwardedStarts(msg);
    case DoSendFile(name, file) =>
      PromiseStarts(name, file);
      SendMessageStarts(s, e.fd, Promise(name, file), [], TEXT);
    case DoExit =>
    case DoNothing =>
  }

  lemma PromiseStarts(name: Name, file: Bytes)
    ensures Promise(name, file) != [] && Promise(name, file)[0] == 'S' as int
  {
  }

  lemma ForwardedStarts(msg: Message)
    requires msg.header.kind != TEXT
    ensures StartsUnlike(Serialize(msg))
  {
  }

  function Confirmation(c: Command): Bytes {
    match c
    case DoLogin(name, _) => Greeting(name)
    case DoCreate(chat) => Created(chat)
    case DoJoin(chat) => Joined(chat)
    case _ => []
  }

  predicate Confirms(c: Command) {
    c.DoLogin? || c.DoCreate? || c.DoJoin?
  }

  /** An accepted login, create or join is answered with one text, to the connection it came from, that greets the name
      or tells the room. */
  lemma ConfirmationDecodes(s: State, e: Event)
    requires Accepted(s, e) && Fits(e.command) && Confirms(e.command)
    ensures var s' := Step(s, e);
            && |s'.outbox| == |s.outbox| + 1 && s.outbox <= s'.outbox && s'.outbox[|s.outbox|].0 == e.fd
            && var r := Deserialize(s'.outbox[|s.outbox|].1);
               && r.Ok? && r.value.header.kind == 0x00 && r.value.metadata == []
               && r.value.payload == match e.command
                                     case DoLogin(name, _) => Ascii("Hello, ") + name + Ascii("!")
                                     case DoCreate(chat) => Ascii("Room ") + chat + Ascii(" was created!")
                                     case DoJoin(chat) => Ascii("You joined the room ") + chat
                                     case _ => []
  {
    ConfirmationDecodesTo(s, e);
    hide Step, Deserialize, Accepted;
  }

  lemma ConfirmationDecodesTo(s: State, e: Event)
    requires Accepted(s, e) && Fits(e.command) && Confirms(e.command)
    ensures var s' := Step(s, e);
            && |s'.outbox| == |s.outbox| + 1 && s.outbox <= s'.outbox && s'.outbox[|s.outbox|].0 == e.fd
            && var r := Deserialize(s'.outbox[|s.outbox|].1);
               r.Ok? && r.value.header.kind == TEXT && r.value.metadata == [] && r.value.payload == Confirmation(e.command)
  {
    hide Canned, Serialize, Deserialize;
    ConfirmationFits(e.command);
    hide Greeting, Created, Joined;
    BuiltMessageDecodes(Confirmation(e.command), [], TEXT);
  }

  /** A confirmation tells its reader which command was carried out: equal bytes mean the same kind of command for the
      same name or room, whatever the states. */
  lemma ConfirmationDeterminesCommand(s: State, e: Event, t: State, f: Event)
    requires Accepted(s, e) && Fits(e.command) && Confirms(e.command)
    requires Accepted(t, f) && Fits(f.command) && Confirms(f.command)
    requires |Step(s, e).outbox| > |s.outbox| && |Step(t, f).outbox| > |t.outbox|
    requires Step(s, e).outbox[|s.outbox|].1 == Step(t, f).outbox[|t.outbox|].1
    ensures (e.command.DoLogin? && f.command.DoLogin? && e.command.name == f.command.name)
            || (e.command.DoCreate? && f.command == e.command) || (e.command.DoJoin? && f.command == e.command)
  {
    hide Step, Deserialize, Accepted, Fits;
    ConfirmationDecodesTo(s, e);
    ConfirmationDecodesTo(t, f);
    SameConfirmation(e.command, f.command);
  }

  lemma SameConfirmation(c: Command, d: Command)
    requires Confirms(c) && Confirms(d) && Confirmation(c) == Confirmation(d)
    ensures (c.DoLogin? && d.DoLogin? && c.name == d.name) || (c.DoCreate? && d == c) || (c.DoJoin? && d == c)
  {
    FirstLetter(c);
    FirstLetter(d);
    match c
    case DoLogin(name, _) => Between(Ascii("Hello, "), name, d.name, Ascii("!"));
    case DoCreate(chat) => Between(Ascii("Room "), chat, d.chat, Ascii(" was created!"));
    case DoJoin(chat) => Between(Ascii("You joined the room "), chat, d.chat, []);
  }

  lemma FirstLetter(c: Command)
    requires Confirms(c)
    ensures Confirmation(c) != []
    ensures Confirmation(c)[0] == (if c.DoLogin? then 'H' else if c.DoCreate? then 'R' else 'Y') as int
  {
  }

  lemma Between(a: Bytes, x: Bytes, y: Bytes, b: Bytes)
    requires a + x + b == a + y + b
    ensures x == y
  {
    assert |x| == |y|;
    assert (a + x + b)[|a|..|a| + |x|] == x && (a + y + b)[|a|..|a| + |y|] == y;
  }

  /** A `sendfile` command is answered with one text that names the file and its recipient. */
  lemma SendFileAnswerDecodes(s: State, e: Event)
    requires e.command.DoSendFile? && Fits(e.command)
    ensures var s' := Step(s, e);
            && s' == s.(outbox := s'.outbox) && |s'.outbox| == |s.outbox| + 1 && s.outbox <= s'.outbox
            && s'.outbox[|s.outbox|].0 == e.fd
            && var r := Deserialize(s'.outbox[|s.outbox|].1);
               && r.Ok? && r.value.header.kind == TEXT && r.value.metadata == []
               && r.value.payload == Ascii("Server should send a file '") + e.command.file + Ascii("' to ") + e.command.name
  {
    hide Serialize, Deserialize;
    PromiseFits(e.command);
    BuiltMessageDecodes(Promise(e.command.name, e.command.file), [], TEXT);
  }

  lemma PromiseFits(c: Command)
    requires c.DoSendFile? && Fits(c)
    ensures NewMessage(Promise(c.name, c.file), [], TEXT, 0).Ok?
  {
  }

  lemma ConfirmationFits(c: Command)
    requires Fits(c)
    ensures NewMessage(Confirmation(c), [], TEXT, 0).Ok?
  {
  }
}
