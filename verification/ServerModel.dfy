/** The server's application state - users, rooms, sessions and what it has sent - as one value, with one function per
    operation, and what holds in every run. */
module ServerModel {
  import opened Octets
  import opened Identities
  import opened Codec

  datatype Room = Room(members: set<Name>, history: seq<Message>)

  datatype State = State(users: map<Name, Keys>, rooms: map<Name, Room>,
                         fdToName: map<int, Name>, nameToFd: map<Name, int>,
                         outbox: seq<(int, Bytes)>)

  const START := State(map[], map[], map[], map[], [])

  /** A ready-made text reply: type, no metadata, payload length, text. */
  function Canned(text: string): Bytes
    requires |text| < 256
  {
    [TEXT, 0, 0, 0, 0, |text|] + Ascii(text)
  }

  const CHAT_NOT_FOUND := Canned("Chat not found")
  const USER_NOT_FOUND := Canned("[ERROR] User not found")
  const YOU_NEED_TO_LOGIN := Canned("[Error]: You must authenticate first")
  const WRONG_COMMAND_USAGE := Canned("[Error]: Wrong command usage. " + "Please use /help to get a help")
  const EMPTY_CHAT_NAME := Canned("[Error]: Empty chat name")
  const CHAT_ALREADY_EXISTS := Canned("[Error]: Chat is already exists")
  const YOU_ARE_ALREADY_MEMBER := Canned("[Error]: You are already member of this chat")
  const PUBLIC_KEY_HAS_NOT_SET := Canned("[Error]: Public key has not been set")
  const YOU_ARE_LOGGED_IN := Canned("[Error]: You are already logged in")
  const YOU_ARE_NOT_MEMBER := Canned("[Error]: You are not member of this chat")

  const GET_PUBKEY: byte := 0x05

  // --- Operations ---

  function Send(s: State, fd: int, bytes: Bytes): State {
    s.(outbox := s.outbox + [(fd, bytes)])
  }

  /** Build and send a message; a message too large to build is an exception after which nothing is sent. */
  function SendMessage(s: State, fd: int, payload: Bytes, metadata: seq<Bytes>, kind: byte): State {
    match NewMessage(payload, metadata, kind, 0)
    case Err(_) => s
    case Ok(m) => Send(s, fd, Serialize(m))
  }

  function SendText(s: State, fd: int, text: Bytes): State {
    SendMessage(s, fd, text, [], TEXT)
  }

  function Bind(s: State, fd: int, name: Name): State {
    s.(fdToName := s.fdToName[fd := name], nameToFd := s.nameToFd[name := fd])
  }

  function Unbind(s: State, fd: int): State {
    if fd !in s.fdToName then s else
    s.(fdToName := s.fdToName - {fd}, nameToFd := s.nameToFd - {s.fdToName[fd]})
  }

  function Greeting(name: Name): Bytes { Ascii("Hello, ") + name + Ascii("!") }
  function Joined(chat: Name): Bytes { Ascii("You joined the room ") + chat }
  function Created(chat: Name): Bytes { Ascii("Room ") + chat + Ascii(" was created!") }

  function Login(s: State, fd: int, name: Name, keys: Keys): State {
    if fd in s.fdToName then Send(s, fd, YOU_ARE_LOGGED_IN)
    else if name in s.users then Send(s, fd, PUBLIC_KEY_HAS_NOT_SET)
    else SendText(Bind(s.(users := s.users[name := keys]), fd, name), fd, Greeting(name))
  }

  function JoinRoom(s: State, fd: int, chat: Name): State {
    if fd !in s.fdToName then Send(s, fd, YOU_NEED_TO_LOGIN)
    else if chat == [] then Send(s, fd, EMPTY_CHAT_NAME)
    else if chat !in s.rooms then Send(s, fd, CHAT_NOT_FOUND)
    else if s.fdToName[fd] in s.rooms[chat].members then Send(s, fd, YOU_ARE_ALREADY_MEMBER)
    else
      var room := s.rooms[chat];
      SendText(s.(rooms := s.rooms[chat := room.(members := room.members + {s.fdToName[fd]})]), fd, Joined(chat))
  }

  function CreateRoom(s: State, fd: int, chat: Name): State {
    if fd !in s.fdToName then Send(s, fd, YOU_NEED_TO_LOGIN)
    else if chat == [] then Send(s, fd, EMPTY_CHAT_NAME)
    else if chat in s.rooms then Send(s, fd, CHAT_ALREADY_EXISTS)
    else SendText(s.(rooms := s.rooms[chat := Room({s.fdToName[fd]}, [])]), fd, Created(chat))
  }

  /** One copy to each of `order` that has a session. */
  function Copies(nameToFd: map<Name, int>, order: seq<Name>, bytes: Bytes): seq<(int, Bytes)> {
    if order == [] then [] else
    var before := Copies(nameToFd, order[..|order| - 1], bytes);
    var last := order[|order| - 1];
    if last in nameToFd then before + [(nameToFd[last], bytes)] else before
  }

  predicate AcceptsGroupMessage(s: State, fd: int, chat: Name) {
    fd in s.fdToName && chat in s.rooms && s.fdToName[fd] in s.rooms[chat].members
  }

  function SendGroupMessage(s: State, fd: int, chat: Name, message: Message, order: seq<Name>): State {
    if fd !in s.fdToName then Send(s, fd, YOU_NEED_TO_LOGIN)
    else if chat !in s.rooms then Send(s, fd, CHAT_NOT_FOUND)
    else if s.fdToName[fd] !in s.rooms[chat].members then Send(s, fd, YOU_ARE_NOT_MEMBER)
    else
      var room := s.rooms[chat];
      s.(rooms := s.rooms[chat := room.(history := room.history + [message])],
         outbox := s.outbox + Copies(s.nameToFd, order, Serialize(message)))
  }

  function Without(rooms: map<Name, Room>, name: Name): map<Name, Room> {
    map c | c in rooms :: rooms[c].(members := rooms[c].members - {name})
  }

  function Exit(s: State, fd: int): State {
    if fd !in s.fdToName then s else
    var name := s.fdToName[fd];
    Unbind(s.(users := s.users - {name}, rooms := Without(s.rooms, name)), fd)
  }

  /** Present in the source but not reachable from any command. */
  function Disconnect(s: State, name: Name): State {
    if name !in s.nameToFd then s else Unbind(s.(users := s.users - {name}), s.nameToFd[name])
  }

  function SendPubkey(s: State, fd: int, name: Name): State {
    if name == [] then Send(s, fd, WRONG_COMMAND_USAGE)
    else if name !in s.users then Send(s, fd, USER_NOT_FOUND)
    else
      var keys := s.users[name];
      SendMessage(s, fd, keys.dh, [[GET_PUBKEY], name, keys.identity, keys.signature], RESPONSE)
  }

  function DeliverCipher(s: State, fd: int, msg: Message): State {
    if fd !in s.fdToName then Send(s, fd, YOU_NEED_TO_LOGIN)
    else if msg.Meta(0) !in s.nameToFd then Send(s, fd, USER_NOT_FOUND)
    else if s.fdToName[fd] !in s.users then Send(s, fd, YOU_NEED_TO_LOGIN)
    else
      var keys := s.users[s.fdToName[fd]];
      SendMessage(s, s.nameToFd[msg.Meta(0)], msg.payload,
                  [msg.Meta(0), msg.Meta(1), keys.dh, keys.identity, keys.signature], CIPHER_MESSAGE)
  }

  /** Any message of a file transfer goes to its recipient as it came, with no session asked for. */
  function ForwardFile(s: State, fd: int, msg: Message): State {
    if msg.Meta(0) !in s.nameToFd then Send(s, fd, USER_NOT_FOUND)
    else Send(s, s.nameToFd[msg.Meta(0)], Serialize(msg))
  }

  function Promise(name: Name, file: Bytes): Bytes {
    Ascii("Server should send a file '") + file + Ascii("' to ") + name
  }

  /** The `sendfile` command itself is only answered. */
  function AnswerSendFile(s: State, fd: int, name: Name, file: Bytes): State {
    SendText(s, fd, Promise(name, file))
  }

  // --- Commands as they come off the wire ---

  datatype Command =
    | DoLogin(name: Name, keys: Keys)
    | DoCreate(chat: Name)
    | DoJoin(chat: Name)
    | DoSend(chat: Name, message: Message)
    | DoGetPub(name: Name)
    | DoCipher(msg: Message)
    | DoForward(msg: Message)
    | DoSendFile(name: Name, file: Bytes)
    | DoExit
    | DoNothing

  /** `order` is the order in which a room's member set happens to be enumerated. */
  datatype Event = Event(fd: int, command: Command, order: seq<Name>)

  ghost predicate Enumerates(order: seq<Name>, members: set<Name>) {
    && (forall i, j :: 0 <= i < j < |order| ==> order[i] != order[j])
    && (forall m :: m in members <==> m in order)
  }

  ghost predicate Possible(s: State, e: Event) {
    e.command.DoSend? && AcceptsGroupMessage(s, e.fd, e.command.chat) ==>
      Enumerates(e.order, s.rooms[e.command.chat].members)
  }

  function Step(s: State, e: Event): State {
    match e.command
    case DoLogin(name, keys) => Login(s, e.fd, name, keys)
    case DoCreate(chat) => CreateRoom(s, e.fd, chat)
    case DoJoin(chat) => JoinRoom(s, e.fd, chat)
    case DoSend(chat, message) => SendGroupMessage(s, e.fd, chat, message, e.order)
    case DoGetPub(name) => SendPubkey(s, e.fd, name)
    case DoCipher(msg) => DeliverCipher(s, e.fd, msg)
    case DoForward(msg) => ForwardFile(s, e.fd, msg)
    case DoSendFile(name, file) => AnswerSendFile(s, e.fd, name, file)
    case DoExit => Exit(s, e.fd)
    case DoNothing => s
  }

  /** What a received message makes the server do. A group message is rebuilt as a bare text, unless too large. */
  function CommandOf(m: Message): Command {
    if m.header.kind == CIPHER_MESSAGE then DoCipher(m)
    else if FILE_START <= m.header.kind <= FILE_END then DoForward(m)
    else if m.header.kind != COMMAND || m.Meta(0) == [] then DoNothing
    else match m.Meta(0)[0]
      case 0x01 => (match NewMessage(m.payload, [], TEXT, 0) case Ok(t) => DoSend(m.Meta(1), t) case Err(_) => DoNothing)
      case 0x02 => DoLogin(m.Meta(1), Keys(m.Meta(2), m.Meta(3), m.Meta(4)))
      case 0x03 => DoCreate(m.Meta(1))
      case 0x04 => DoJoin(m.Meta(1))
      case 0x05 => DoGetPub(m.Meta(1))
      case 0x09 => DoSendFile(m.Meta(1), m.Meta(2))
      case 0xFE => DoExit
      case _ => DoNothing
  }

  /** Bytes that do not decode change nothing. */
  function CommandOfBytes(raw: Bytes): Command {
    match Deserialize(raw)
    case Ok(m) => CommandOf(m)
    case Err(_) => DoNothing
  }

  /** Every event of a run comes from bytes received on a connection, or is the exit that a lost connection dispatches. */
  ghost predicate Run(states: seq<State>, events: seq<Event>) {
    && |states| == |events| + 1 && states[0] == START
    && forall i :: 0 <= i < |events| ==>
         Possible(states[i], events[i]) && FromWire(events[i].command) && states[i + 1] == Step(states[i], events[i])
  }

  ghost predicate FromWire(c: Command) {
    c == DoExit || exists raw :: c == CommandOfBytes(raw)
  }

  // --- The invariant ---

  ghost predicate SessionsInverse(s: State) {
    && (forall fd :: fd in s.fdToName ==> s.fdToName[fd] in s.nameToFd && s.nameToFd[s.fdToName[fd]] == fd)
    && (forall name :: name in s.nameToFd ==> s.nameToFd[name] in s.fdToName && s.fdToName[s.nameToFd[name]] == name)
  }

  ghost predicate UsersAreBound(s: State) {
    s.users.Keys == s.nameToFd.Keys
  }

  ghost predicate MembersAreUsers(s: State) {
    forall c :: c in s.rooms ==> s.rooms[c].members <= s.users.Keys
  }

  predicate Short(b: Bytes) {
    |b| < U16_LIMIT
  }

  ghost predicate KeysFit(s: State) {
    forall n :: n in s.users ==> Short(s.users[n].dh) && Short(s.users[n].identity) && Short(s.users[n].signature)
  }

  ghost predicate Inv(s: State) {
    SessionsInverse(s) && UsersAreBound(s) && MembersAreUsers(s) && KeysFit(s)
  }

  ghost predicate Fits(c: Command) {
    match c
    case DoLogin(name, keys) => Short(name) && Short(keys.dh) && Short(keys.identity) && Short(keys.signature)
    case DoCreate(chat) => Short(chat)
    case DoJoin(chat) => Short(chat)
    case DoGetPub(name) => Short(name)
    case DoCipher(msg) => Short(msg.Meta(0)) && Short(msg.Meta(1))
    case DoForward(msg) => FILE_START <= msg.header.kind <= FILE_END
    case DoSendFile(name, file) => Short(name) && Short(file)
    case _ => true
  }

  lemma MessageFits(m: Message)
    requires forall i :: 0 <= i < |m.metadata| ==> Short(m.metadata[i])
    ensures Fits(CommandOf(m))
  {
    hide NewMessage;
    assert forall i: nat :: Short(m.Meta(i));
  }

  /** Whatever arrives through the codec has 16-bit lengths. */
  lemma FromWireFits(c: Command)
    requires FromWire(c)
    ensures Fits(c)
  {
    hide Deserialize, CommandOf;
    if c != DoExit {
      var raw :| c == CommandOfBytes(raw);
      if Deserialize(raw).Ok? {
        DecodedIsBounded(raw);
        MessageFits(Deserialize(raw).value);
      }
    }
  }

  /** Equal in everything but what was sent. */
  ghost predicate OnlySent(s: State, s': State) {
    s' == s.(outbox := s'.outbox)
  }

  lemma SendMessageKeeps(s: State, fd: int, payload: Bytes, metadata: seq<Bytes>, kind: byte)
    ensures OnlySent(s, SendMessage(s, fd, payload, metadata, kind))
  {
    hide NewMessage, Serialize;
  }

  lemma BindKeepsInverse(s: State, fd: int, name: Name)
    requires SessionsInverse(s) && fd !in s.fdToName && name !in s.nameToFd
    ensures SessionsInverse(Bind(s, fd, name))
  {
  }

  lemma UnbindKeepsInverse(s: State, fd: int)
    requires SessionsInverse(s)
    ensures SessionsInverse(Unbind(s, fd))
  {
  }

  lemma LoginKeepsInv(s: State, fd: int, name: Name, keys: Keys)
    requires Inv(s) && Fits(DoLogin(name, keys))
    ensures Inv(Login(s, fd, name, keys))
  {
    hide Greeting, Canned;
    if fd !in s.fdToName && name !in s.users {
      BindKeepsInverse(s.(users := s.users[name := keys]), fd, name);
      SendMessageKeeps(Bind(s.(users := s.users[name := keys]), fd, name), fd, Greeting(name), [], TEXT);
    }
  }

  lemma ExitKeepsInv(s: State, fd: int)
    requires Inv(s)
    ensures Inv(Exit(s, fd))
  {
    UnbindKeepsInverse(s, fd);
  }

  /** Create, join and send change one room at most, and add at most the caller to it. */
  ghost predicate RoomChange(s: State, fd: int, s': State) {
    && s'.users == s.users && s'.fdToName == s.fdToName && s'.nameToFd == s.nameToFd
    && forall c :: c in s'.rooms ==>
         forall m :: m in s'.rooms[c].members ==>
           (c in s.rooms && m in s.rooms[c].members) || (fd in s.fdToName && m == s.fdToName[fd])
  }

  lemma RoomChangeKeepsInv(s: State, fd: int, s': State)
    requires Inv(s) && RoomChange(s, fd, s')
    ensures Inv(s')
  {
  }

  lemma RoomSteps(s: State, fd: int, chat: Name, message: Message, order: seq<Name>)
    ensures RoomChange(s, fd, CreateRoom(s, fd, chat))
    ensures RoomChange(s, fd, JoinRoom(s, fd, chat))
    ensures RoomChange(s, fd, SendGroupMessage(s, fd, chat, message, order))
  {
    hide Canned, Joined, Created, Serialize, NewMessage;
  }

  lemma ReplySteps(s: State, fd: int, name: Name, msg: Message)
    ensures OnlySent(s, SendPubkey(s, fd, name))
    ensures OnlySent(s, DeliverCipher(s, fd, msg))
    ensures OnlySent(s, ForwardFile(s, fd, msg))
    ensures forall file :: OnlySent(s, AnswerSendFile(s, fd, name, file))
  {
    hide Canned, Serialize, NewMessage, Promise;
  }

  lemma StepKeepsInv(s: State, e: Event)
    requires Inv(s) && Fits(e.command)
    ensures Inv(Step(s, e))
  {
    hide Login, Exit, CreateRoom, JoinRoom, SendGroupMessage, SendPubkey, DeliverCipher, ForwardFile, AnswerSendFile, RoomChange, Canned;
    var s' := Step(s, e);
    match e.command
    case DoLogin(name, keys) => LoginKeepsInv(s, e.fd, name, keys);
    case DoExit => ExitKeepsInv(s, e.fd);
    case DoCreate(chat) => RoomSteps(s, e.fd, chat, EMPTY_MESSAGE, []); RoomChangeKeepsInv(s, e.fd, s');
    case DoJoin(chat) => RoomSteps(s, e.fd, chat, EMPTY_MESSAGE, []); RoomChangeKeepsInv(s, e.fd, s');
    case DoSend(chat, m) => RoomSteps(s, e.fd, chat, m, e.order); RoomChangeKeepsInv(s, e.fd, s');
    case DoGetPub(name) => ReplySteps(s, e.fd, name, EMPTY_MESSAGE);
    case DoCipher(m) => ReplySteps(s, e.fd, [], m);
    case DoForward(m) => ReplySteps(s, e.fd, [], m);
    case DoSendFile(name, _) => ReplySteps(s, e.fd, name, EMPTY_MESSAGE);
    case DoNothing =>
  }

  /** In every reachable state: the session maps are inverse, the users are the bound names, members are users. */
  lemma {:induction false} RunKeepsInv(states: seq<State>, events: seq<Event>, n: nat)
    requires Run(states, events) && n < |states|
    ensures Inv(states[n])
  {
    if n > 0 {
      hide Step, Inv, Fits;
      RunKeepsInv(states, events, n - 1);
      FromWireFits(events[n - 1].command);
      StepKeepsInv(states[n - 1], events[n - 1]);
    }
  }

  /** A freshly built message within the field widths decodes to what was put in. */
  lemma BuiltMessageDecodes(payload: Bytes, metadata: seq<Bytes>, kind: byte)
    requires |metadata| <= 127 && forall i :: 0 <= i < |metadata| ==> Short(metadata[i])
    requires NewMessage(payload, metadata, kind, 0).Ok?
    ensures var r := Deserialize(Serialize(NewMessage(payload, metadata, kind, 0).value));
            r.Ok? && r.value.header.kind == kind && r.value.metadata == metadata && r.value.payload == payload
  {
    var m := NewMessage(payload, metadata, kind, 0).value;
    hide Serialize, Deserialize;
    RoundTrip(m, []);
    assert Serialize(m) + [] == Serialize(m);
  }

  // --- Commands that bytes can bring ---

  /** What a client's login and room commands come to on the server comes from bytes. */
  lemma BuiltIsFromWire(items: seq<Bytes>)
    requires |items| <= 127 && NewMessage([], items, COMMAND, 0).Ok? && forall i :: 0 <= i < |items| ==> Short(items[i])
    ensures exists m: Message :: m.metadata == items && m.payload == [] && m.header.kind == COMMAND && FromWire(CommandOf(m))
  {
    hide Serialize, Deserialize, NewMessage, CommandOf;
    BuiltMessageDecodes([], items, COMMAND);
    var raw := Serialize(NewMessage([], items, COMMAND, 0).value);
    assert CommandOfBytes(raw) == CommandOf(Deserialize(raw).value);
  }

  lemma LoginIsFromWire(name: Name, keys: Keys)
    requires Fits(DoLogin(name, keys))
    ensures FromWire(DoLogin(name, keys))
  {
    var items := [[0x02], name, keys.dh, keys.identity, keys.signature];
    ItemsSizeBound(items);
    BuiltIsFromWire(items);
    hide FromWire;
    var m: Message :| m.metadata == items && m.payload == [] && m.header.kind == COMMAND && FromWire(CommandOf(m));
    assert CommandOf(m) == DoLogin(name, Keys(keys.dh, keys.identity, keys.signature));
  }

  lemma CreateIsFromWire(chat: Name)
    requires Short(chat)
    ensures FromWire(DoCreate(chat))
  {
    var items := [[0x03], chat];
    ItemsSizeBound(items);
    BuiltIsFromWire(items);
    hide FromWire;
    var m: Message :| m.metadata == items && m.payload == [] && m.header.kind == COMMAND && FromWire(CommandOf(m));
    assert CommandOf(m) == DoCreate(chat);
  }
}
