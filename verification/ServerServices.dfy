/** The server's service objects, updated in place, each operation proved against its function in `ServerModel`. */
module ServerServices {
  import opened Octets
  import opened Identities
  import opened Codec
  import opened ServerModel

  // --- Users ---

  class User {
    var dh: Bytes
    var identity: Bytes
    var signature: Bytes

    constructor ()
      ensures Value() == Keys([], [], [])
    {
      dh, identity, signature := [], [], [];
    }

    function Value(): Keys
      reads this
    {
      Keys(dh, identity, signature)
    }

    /** The key setters append. */
    method SetPublicDhKey(bytes: Bytes)
      modifies this`dh
      ensures dh == old(dh) + bytes
    {
      dh := dh + bytes;
    }

    method SetPublicIdentityKey(bytes: Bytes)
      modifies this`identity
      ensures identity == old(identity) + bytes
    {
      identity := identity + bytes;
    }

    method SetKeySignature(bytes: Bytes)
      modifies this`signature
      ensures signature == bytes
    {
      signature := bytes;
    }
  }

  class UserService {
    var users: map<Name, User>

    ghost function Repr(): set<User>
      reads this
    {
      set n | n in users :: users[n]
    }

    ghost predicate Valid()
      reads this
    {
      forall m, n :: m in users && n in users && m != n ==> users[m] != users[n]
    }

    ghost function Value(): map<Name, Keys>
      reads this, Repr()
    {
      map n | n in users :: users[n].Value()
    }

    constructor ()
      ensures Valid() && Value() == map[] && Repr() == {}
    {
      users := map[];
    }

    /** A user that is registered anew starts without keys, so appending sets them. */
    method RegisterUser(name: Name, keys: Keys) returns (ok: bool)
      requires Valid()
      modifies this
      ensures Valid() && fresh(Repr() - old(Repr()))
      ensures ok <==> name !in old(Value())
      ensures Value() == if ok then old(Value())[name := keys] else old(Value())
    {
      hide User.Value;
      if name in users {
        return false;
      }
      AddBlank(name);
      SetPublicKey(name, keys);
      assert Keys([] + keys.dh, [] + keys.identity, keys.signature) == keys;
      return true;
    }

    method AddBlank(name: Name)
      requires Valid() && name !in users
      modifies this
      ensures Valid() && fresh(Repr() - old(Repr())) && name in users && fresh(users[name])
      ensures Value() == old(Value())[name := Keys([], [], [])]
    {
      var user := new User();
      users := users[name := user];
    }

    method SetPublicKey(name: Name, keys: Keys)
      requires Valid()
      modifies if name in users then {users[name]} else {}
      ensures Valid() && users == old(users)
      ensures name !in users ==> Value() == old(Value())
      ensures name in users ==>
                var before := old(Value())[name];
                Value() == old(Value())[name := Keys(before.dh + keys.dh, before.identity + keys.identity, keys.signature)]
    {
      if name !in users {
        return;
      }
      var user := users[name];
      user.SetPublicDhKey(keys.dh);
      user.SetPublicIdentityKey(keys.identity);
      user.SetKeySignature(keys.signature);
    }

    function FindUser(name: Name): (user: User?)
      reads this
      ensures user == null <==> name !in users
      ensures user != null ==> user in Repr() && user == users[name]
    {
      if name in users then users[name] else null
    }

    method RemoveUser(name: Name)
      requires Valid()
      modifies this
      ensures Valid() && Repr() <= old(Repr())
      ensures Value() == old(Value()) - {name}
    {
      if name !in users {
        return;
      }
      users := users - {name};
    }
  }

  // --- Rooms ---

  class Chat {
    var members: set<Name>
    var messages: seq<Message>

    constructor ()
      ensures Value() == Room({}, [])
    {
      members, messages := {}, [];
    }

    function Value(): Room
      reads this
    {
      Room(members, messages)
    }

    method AddMember(name: Name) returns (added: bool)
      modifies this`members
      ensures added <==> name !in old(members)
      ensures members == old(members) + {name}
    {
      if name in members {
        return false;
      }
      members := members + {name};
      return true;
    }

    method RemoveMember(name: Name) returns (removed: bool)
      modifies this`members
      ensures removed <==> name in old(members)
      ensures members == old(members) - {name}
    {
      if name !in members {
        return false;
      }
      members := members - {name};
      return true;
    }

    method AddMessage(message: Message)
      modifies this`messages
      ensures messages == old(messages) + [message]
    {
      messages := messages + [message];
    }

    /** Every member once, in whatever order the set is walked. */
    method GetMembers() returns (order: seq<Name>)
      ensures Enumerates(order, members)
    {
      order := [];
      var left := members;
      while left != {}
        invariant left <= members
        invariant forall i, j :: 0 <= i < j < |order| ==> order[i] != order[j]
        invariant forall m :: m in order <==> m in members && m !in left
        decreases left
      {
        var m :| m in left;
        order := order + [m];
        left := left - {m};
      }
    }
  }

  class ChatService {
    var chats: map<Name, Chat>

    ghost function Repr(): set<Chat>
      reads this
    {
      set c | c in chats :: chats[c]
    }

    ghost predicate Valid()
      reads this
    {
      forall c, d :: c in chats && d in chats && c != d ==> chats[c] != chats[d]
    }

    ghost function Value(): map<Name, Room>
      reads this, Repr()
    {
      map c | c in chats :: chats[c].Value()
    }

    constructor ()
      ensures Valid() && Value() == map[] && Repr() == {}
    {
      chats := map[];
    }

    method CreateChat(name: Name, creator: Name) returns (ok: bool)
      requires Valid()
      modifies this
      ensures Valid() && fresh(Repr() - old(Repr()))
      ensures ok <==> name !in old(Value())
      ensures Value() == if ok then old(Value())[name := Room({creator}, [])] else old(Value())
    {
      if name in chats {
        return false;
      }
      var chat := new Chat();
      var _ := chat.AddMember(creator);
      assert chat.Value() == Room({creator}, []);
      chats := chats[name := chat];
      return true;
    }

    method AddMember(name: Name, user: Name) returns (found: bool, added: bool)
      requires Valid()
      modifies Repr()
      ensures Valid() && chats == old(chats)
      ensures found <==> name in old(Value())
      ensures added <==> found && user !in old(Value())[name].members
      ensures !added ==> Value() == old(Value())
      ensures added ==>
                var room := old(Value())[name];
                Value() == old(Value())[name := room.(members := room.members + {user})]
    {
      if name !in chats {
        return false, false;
      }
      if user in chats[name].members {
        return true, false;
      }
      var _ := chats[name].AddMember(user);
      return true, true;
    }

    method PostMessage(name: Name, user: Name, message: Message)
      returns (found: bool, allowed: bool, order: seq<Name>)
      requires Valid()
      modifies Repr()
      ensures Valid() && chats == old(chats)
      ensures found <==> name in old(Value())
      ensures allowed <==> found && user in old(Value())[name].members
      ensures !allowed ==> Value() == old(Value())
      ensures allowed ==>
                var room := old(Value())[name];
                Value() == old(Value())[name := room.(history := room.history + [message])] && Enumerates(order, room.members)
    {
      if name !in chats {
        return false, false, [];
      }
      if user !in chats[name].members {
        return true, false, [];
      }
      chats[name].AddMessage(message);
      order := chats[name].GetMembers();
      return true, true, order;
    }

    method RemoveUserFromAllChats(user: Name)
      requires Valid()
      modifies Repr()
      ensures Valid() && chats == old(chats)
      ensures Value() == Without(old(Value()), user)
    {
      var left := chats.Keys;
      while left != {}
        invariant left <= chats.Keys && Valid() && chats == old(chats)
        invariant forall c :: c in chats ==>
                    chats[c].Value() == if c in left then old(chats[c].Value())
                                        else old(chats[c].Value()).(members := old(chats[c].members) - {user})
        decreases left
      {
        var c :| c in left;
        if user in chats[c].members {
          var _ := chats[c].RemoveMember(user);
        }
        left := left - {c};
      }
    }
  }

  // --- Sessions ---

  class SessionManager {
    var fdToName: map<int, Name>
    var nameToFd: map<Name, int>

    constructor ()
      ensures fdToName == map[] && nameToFd == map[]
    {
      fdToName, nameToFd := map[], map[];
    }

    method Bind(fd: int, name: Name)
      modifies this
      ensures fdToName == old(fdToName)[fd := name] && nameToFd == old(nameToFd)[name := fd]
    {
      fdToName := fdToName[fd := name];
      nameToFd := nameToFd[name := fd];
    }

    method Unbind(fd: int)
      modifies this
      ensures fd !in old(fdToName) ==> fdToName == old(fdToName) && nameToFd == old(nameToFd)
      ensures fd in old(fdToName) ==> fdToName == old(fdToName) - {fd} && nameToFd == old(nameToFd) - {old(fdToName)[fd]}
    {
      if fd !in fdToName {
        return;
      }
      nameToFd := nameToFd - {fdToName[fd]};
      fdToName := fdToName - {fd};
    }

    function GetUsername(fd: int): (r: Option<Name>)
      reads this
      ensures r.Some? <==> fd in fdToName
    {
      if fd in fdToName then Some(fdToName[fd]) else None
    }

    function GetFd(name: Name): (r: Option<int>)
      reads this
      ensures r.Some? <==> name in nameToFd
    {
      if name in nameToFd then Some(nameToFd[name]) else None
    }
  }

  // --- The application service ---

  class ServerApplicationService {
    const userService: UserService
    const chatService: ChatService
    const sessions: SessionManager
    /** What the transport was handed, as (connection, bytes). */
    var outbox: seq<(int, Bytes)>

    ghost function Repr(): set<object>
      reads this, userService, chatService
    {
      {this, userService, chatService, sessions} + userService.Repr() + chatService.Repr()
    }

    ghost predicate Valid()
      reads this, userService, chatService
    {
      userService.Valid() && chatService.Valid()
    }

    ghost function Value(): State
      reads this, userService, chatService, sessions, userService.Repr(), chatService.Repr()
    {
      State(userService.Value(), chatService.Value(), sessions.fdToName, sessions.nameToFd, outbox)
    }

    constructor ()
      ensures Valid() && Value() == START
      ensures fresh(Repr())
    {
      userService := new UserService();
      chatService := new ChatService();
      sessions := new SessionManager();
      outbox := [];
    }

    method Transmit(fd: int, bytes: Bytes)
      requires Valid()
      modifies this
      ensures Valid() && Value() == Send(old(Value()), fd, bytes)
    {
      outbox := outbox + [(fd, bytes)];
    }

    /** Serialize and transmit, unless the message cannot be built. */
    method TransmitMessage(fd: int, payload: Bytes, metadata: seq<Bytes>, kind: byte)
      requires Valid()
      modifies this
      ensures Valid() && Value() == SendMessage(old(Value()), fd, payload, metadata, kind)
    {
      var m := NewMessage(payload, metadata, kind, 0);
      if m.Ok? {
        var bytes := SerializeMessage(m.value);
        Transmit(fd, bytes);
      }
    }

    method Login(fd: int, name: Name, keys: Keys)
      requires Valid()
      modifies this, userService, sessions
      ensures Valid() && fresh(Repr() - old(Repr()))
      ensures Value() == ServerModel.Login(old(Value()), fd, name, keys)
    {
      hide Canned, Greeting, Joined, Created, SendMessage, Enumerates, UserService.Value, ChatService.Value;
      if sessions.GetUsername(fd).Some? {
        Transmit(fd, YOU_ARE_LOGGED_IN);
        return;
      }
      var ok := userService.RegisterUser(name, keys);
      if !ok {
        Transmit(fd, PUBLIC_KEY_HAS_NOT_SET);
        return;
      }
      sessions.Bind(fd, name);
      TransmitMessage(fd, Greeting(name), [], TEXT);
    }

    method JoinRoom(fd: int, chat: Name)
      requires Valid()
      modifies this, chatService.Repr()
      ensures Valid() && Repr() == old(Repr())
      ensures Value() == ServerModel.JoinRoom(old(Value()), fd, chat)
    {
      hide Canned, Greeting, Joined, Created, SendMessage, Enumerates, UserService.Value, ChatService.Value;
      var name := sessions.GetUsername(fd);
      if name.None? {
        Transmit(fd, YOU_NEED_TO_LOGIN);
        return;
      }
      if chat == [] {
        Transmit(fd, EMPTY_CHAT_NAME);
        return;
      }
      var found, added := chatService.AddMember(chat, name.value);
      if !found {
        Transmit(fd, CHAT_NOT_FOUND);
        return;
      }
      if !added {
        Transmit(fd, YOU_ARE_ALREADY_MEMBER);
        return;
      }
      TransmitMessage(fd, Joined(chat), [], TEXT);
    }

    method CreateRoom(fd: int, chat: Name)
      requires Valid()
      modifies this, chatService
      ensures Valid() && fresh(Repr() - old(Repr()))
      ensures Value() == ServerModel.CreateRoom(old(Value()), fd, chat)
    {
      hide Canned, Greeting, Joined, Created, SendMessage, Enumerates, UserService.Value, ChatService.Value;
      var name := sessions.GetUsername(fd);
      if name.None? {
        Transmit(fd, YOU_NEED_TO_LOGIN);
        return;
      }
      if chat == [] {
        Transmit(fd, EMPTY_CHAT_NAME);
        return;
      }
      var ok := chatService.CreateChat(chat, name.value);
      if !ok {
        Transmit(fd, CHAT_ALREADY_EXISTS);
        return;
      }
      TransmitMessage(fd, Created(chat), [], TEXT);
    }

    /** Returns the order in which the members were served. */
    method SendGroupMessage(fd: int, chat: Name, message: Message) returns (order: seq<Name>)
      requires Valid()
      modifies this, chatService.Repr()
      ensures Valid() && Repr() == old(Repr())
      ensures AcceptsGroupMessage(old(Value()), fd, chat) ==> Enumerates(order, old(Value()).rooms[chat].members)
      ensures Value() == ServerModel.SendGroupMessage(old(Value()), fd, chat, message, order)
    {
      hide Canned, Greeting, Joined, Created, SendMessage, Enumerates, UserService.Value, ChatService.Value;
      order := [];
      var name := sessions.GetUsername(fd);
      if name.None? {
        Transmit(fd, YOU_NEED_TO_LOGIN);
        return;
      }
      var found, allowed, members := chatService.PostMessage(chat, name.value, message);
      if !found {
        Transmit(fd, CHAT_NOT_FOUND);
        return;
      }
      if !allowed {
        Transmit(fd, YOU_ARE_NOT_MEMBER);
        return;
      }
      order := members;
      TransmitCopies(order, message);
    }

    method TransmitCopies(order: seq<Name>, message: Message)
      requires Valid()
      modifies this
      ensures Valid()
      ensures Value() == old(Value()).(outbox := old(outbox) + Copies(sessions.nameToFd, order, Serialize(message)))
    {
      hide Serialize;
      ghost var before := Value();
      for i := 0 to |order|
        invariant Valid()
        invariant Value() == before.(outbox := before.outbox + Copies(before.nameToFd, order[..i], Serialize(message)))
      {
        assert order[..i + 1][..i] == order[..i];
        var fd := sessions.GetFd(order[i]);
        if fd.Some? {
          var bytes := SerializeMessage(message);
          Transmit(fd.value, bytes);
        }
      }
      assert order[..|order|] == order;
    }

    method DisconnectUsername(name: Name)
      requires Valid()
      modifies userService, sessions
      ensures Valid()
      ensures Value() == Disconnect(old(Value()), name)
    {
      var fd := sessions.GetFd(name);
      if fd.None? {
        return;
      }
      userService.RemoveUser(name);
      sessions.Unbind(fd.value);
    }

    method ExitCurrentSession(fd: int)
      requires Valid()
      modifies userService, sessions, chatService.Repr()
      ensures Valid() && Repr() <= old(Repr())
      ensures Value() == Exit(old(Value()), fd)
    {
      hide Without, UserService.Value, ChatService.Value;
      var name := sessions.GetUsername(fd);
      if name.None? {
        return;
      }
      userService.RemoveUser(name.value);
      chatService.RemoveUserFromAllChats(name.value);
      sessions.Unbind(fd);
    }

    method SendPubkey(fd: int, name: Name)
      requires Valid()
      modifies this
      ensures Valid() && Value() == ServerModel.SendPubkey(old(Value()), fd, name)
    {
      hide Canned, Greeting, Joined, Created, SendMessage, Enumerates, ChatService.Value;
      if name == [] {
        Transmit(fd, WRONG_COMMAND_USAGE);
        return;
      }
      var user := userService.FindUser(name);
      if user == null {
        Transmit(fd, USER_NOT_FOUND);
        return;
      }
      TransmitMessage(fd, user.dh, [[GET_PUBKEY], name, user.identity, user.signature], RESPONSE);
    }

    method DeliverCipherMessage(fd: int, msg: Message)
      requires Valid()
      modifies this
      ensures Valid() && Value() == DeliverCipher(old(Value()), fd, msg)
    {
      hide Canned, Greeting, Joined, Created, SendMessage, Enumerates, ChatService.Value;
      var name := sessions.GetUsername(fd);
      if name.None? {
        Transmit(fd, YOU_NEED_TO_LOGIN);
        return;
      }
      var recipientFd := sessions.GetFd(msg.Meta(0));
      if recipientFd.None? {
        Transmit(fd, USER_NOT_FOUND);
        return;
      }
      var sender := userService.FindUser(name.value);
      if sender == null {
        Transmit(fd, YOU_NEED_TO_LOGIN);
        return;
      }
      TransmitMessage(recipientFd.value, msg.payload,
                      [msg.Meta(0), msg.Meta(1), sender.dh, sender.identity, sender.signature], CIPHER_MESSAGE);
    }
  }
}
