/** The server as an object: bytes and lost connections in, calls of the application service out. Whatever it is fed,
    its state is that of a run of `ServerModel`. */
module MessagingServer {
  import opened Octets
  import opened Identities
  import opened Codec
  import opened ServerModel
  import opened ServerServices

  /** What the transport reports. */
  datatype Input = Data(fd: int, raw: Bytes) | Lost(fd: int)

  /** Bytes bring the command they decode to; a lost connection is dispatched as an exit. */
  ghost predicate Brings(i: Input, e: Event) {
    e.fd == i.fd && e.command == if i.Lost? then DoExit else CommandOfBytes(i.raw)
  }

  /** The connection has no session, and the name it had is in no user, session or room. */
  ghost predicate Gone(s: State, s': State, fd: int) {
    && fd !in s'.fdToName
    && (fd in s.fdToName ==>
          && s.fdToName[fd] !in s'.users && s.fdToName[fd] !in s'.nameToFd
          && forall c :: c in s'.rooms ==> s.fdToName[fd] !in s'.rooms[c].members)
  }

  /** Each event is what its input brought, and each lost connection is gone. */
  ghost predicate Follows(inputs: seq<Input>, states: seq<State>, events: seq<Event>) {
    && |events| == |inputs| && |states| == |inputs| + 1
    && (forall i :: 0 <= i < |inputs| ==> Brings(inputs[i], events[i]))
    && (forall i :: 0 <= i < |inputs| && inputs[i].Lost? ==> Gone(states[i], states[i + 1], inputs[i].fd))
  }

  class MessagingServer {
    const app: ServerApplicationService

    constructor ()
      ensures app.Valid() && app.Value() == START && fresh(app.Repr())
    {
      app := new ServerApplicationService();
    }

    /** The three file handlers: pass the message on to its recipient's connection. */
    method ForwardFile(fd: int, msg: Message)
      requires app.Valid()
      modifies app
      ensures app.Valid() && app.Value() == ServerModel.ForwardFile(old(app.Value()), fd, msg)
    {
      hide Canned, Serialize;
      var recipientFd := app.sessions.GetFd(msg.Meta(0));
      if recipientFd.None? {
        app.Transmit(fd, USER_NOT_FOUND);
        return;
      }
      var bytes := SerializeMessage(msg);
      app.Transmit(recipientFd.value, bytes);
    }

    method SendFile(fd: int, name: Name, file: Bytes)
      requires app.Valid()
      modifies app
      ensures app.Valid() && app.Value() == AnswerSendFile(old(app.Value()), fd, name, file)
    {
      hide SendMessage, Promise;
      app.TransmitMessage(fd, Promise(name, file), [], TEXT);
    }

    /** Find the handler by type, and for a command by its code. `order` is the order in which a room was served. */
    method Dispatch(fd: int, msg: Message) returns (order: seq<Name>)
      requires app.Valid()
      modifies app.Repr()
      ensures app.Valid() && fresh(app.Repr() - old(app.Repr()))
      ensures var e := Event(fd, CommandOf(msg), order);
              Possible(old(app.Value()), e) && app.Value() == Step(old(app.Value()), e)
    {
      hide Enumerates, NewMessage, ServerModel.Login, ServerModel.CreateRoom, ServerModel.JoinRoom,
           ServerModel.SendGroupMessage, ServerModel.SendPubkey, DeliverCipher, ServerModel.ForwardFile, AnswerSendFile, Exit;
      order := [];
      if msg.header.kind == CIPHER_MESSAGE {
        app.DeliverCipherMessage(fd, msg);
      } else if FILE_START <= msg.header.kind <= FILE_END {
        ForwardFile(fd, msg);
      } else if msg.header.kind == COMMAND && msg.Meta(0) != [] {
        order := Execute(fd, msg);
      }
    }

    method Execute(fd: int, msg: Message) returns (order: seq<Name>)
      requires app.Valid() && msg.header.kind == COMMAND && msg.Meta(0) != []
      modifies app.Repr()
      ensures app.Valid() && fresh(app.Repr() - old(app.Repr()))
      ensures var e := Event(fd, CommandOf(msg), order);
              Possible(old(app.Value()), e) && app.Value() == Step(old(app.Value()), e)
    {
      hide Enumerates, NewMessage, ServerModel.Login, ServerModel.CreateRoom, ServerModel.JoinRoom,
           ServerModel.SendGroupMessage, ServerModel.SendPubkey, DeliverCipher, ServerModel.ForwardFile, AnswerSendFile, Exit;
      order := [];
      match msg.Meta(0)[0] {
        case 0x01 =>
          var text := NewMessage(msg.payload, [], TEXT, 0);
          if text.Ok? {
            order := app.SendGroupMessage(fd, msg.Meta(1), text.value);
          }
        case 0x02 => app.Login(fd, msg.Meta(1), Keys(msg.Meta(2), msg.Meta(3), msg.Meta(4)));
        case 0x03 => app.CreateRoom(fd, msg.Meta(1));
        case 0x04 => app.JoinRoom(fd, msg.Meta(1));
        case 0x05 => app.SendPubkey(fd, msg.Meta(1));
        case 0x09 => SendFile(fd, msg.Meta(1), msg.Meta(2));
        case 0xFE => app.ExitCurrentSession(fd);
        case _ =>
      }
    }

    method OnTcpDataReceived(fd: int, raw: Bytes) returns (order: seq<Name>)
      requires app.Valid()
      modifies app.Repr()
      ensures app.Valid() && fresh(app.Repr() - old(app.Repr()))
      ensures var e := Event(fd, CommandOfBytes(raw), order);
              Possible(old(app.Value()), e) && app.Value() == Step(old(app.Value()), e)
    {
      hide Deserialize, CommandOf, Step, Possible;
      order := [];
      var r := DeserializeMessage(raw);
      if r.Ok? {
        order := Dispatch(fd, r.value);
      } else {
        NothingHappens(app.Value(), fd);
      }
    }

    /** One input, as one event. */
    method Handle(input: Input) returns (e: Event)
      requires app.Valid()
      modifies app.Repr()
      ensures app.Valid() && fresh(app.Repr() - old(app.Repr()))
      ensures Brings(input, e) && Possible(old(app.Value()), e) && app.Value() == Step(old(app.Value()), e)
      ensures input.Lost? ==> Gone(old(app.Value()), app.Value(), input.fd)
    {
      hide CommandOfBytes, Exit, Gone;
      ghost var before := app.Value();
      match input
      case Data(fd, raw) =>
        var order := OnTcpDataReceived(fd, raw);
        e := Event(fd, CommandOfBytes(raw), order);
      case Lost(fd) =>
        app.ExitCurrentSession(fd);
        ExitLeavesNothing(before, fd);
        e := Event(fd, DoExit, []);
    }

    /** Any inputs, from the start: the objects go through a run of the model whose events are those inputs, so that
        everything proved of runs holds of the objects. */
    method Serve(inputs: seq<Input>) returns (ghost states: seq<State>, ghost events: seq<Event>)
      requires app.Valid() && app.Value() == START
      modifies app.Repr()
      ensures app.Valid() && fresh(app.Repr() - old(app.Repr()))
      ensures Run(states, events) && Follows(inputs, states, events)
      ensures states[|inputs|] == app.Value() && Inv(app.Value())
    {
      hide Step, Possible, FromWire, Brings, Gone, Inv, Run, Follows;
      states, events := [START], [];
      NothingYet();
      for i := 0 to |inputs|
        invariant app.Valid() && fresh(app.Repr() - old(app.Repr()))
        invariant Run(states, events) && Follows(inputs[..i], states, events)
        invariant |events| == i && |states| == i + 1 && states[i] == app.Value()
      {
        var e := Handle(inputs[i]);
        RunGrows(inputs[..i], states, events, inputs[i], e);
        assert inputs[..i] + [inputs[i]] == inputs[..i + 1];
        states, events := states + [app.Value()], events + [e];
      }
      assert inputs[..|inputs|] == inputs;
      ServedKeepsInv(states, events);
    }
  }

  lemma NothingYet()
    ensures Run([START], []) && Follows([], [START], [])
  {
  }

  lemma ServedKeepsInv(states: seq<State>, events: seq<Event>)
    requires Run(states, events) && |states| == |events| + 1
    ensures Inv(states[|events|])
  {
    RunKeepsInv(states, events, |events|);
  }

  lemma NothingHappens(s: State, fd: int)
    ensures var e := Event(fd, DoNothing, []); Possible(s, e) && Step(s, e) == s
  {
  }

  lemma ExitLeavesNothing(s: State, fd: int)
    ensures Gone(s, Exit(s, fd), fd)
  {
  }

  lemma InputIsFromWire(i: Input, e: Event)
    requires Brings(i, e)
    ensures FromWire(e.command)
  {
    hide CommandOfBytes;
  }

  lemma RunGrows(inputs: seq<Input>, states: seq<State>, events: seq<Event>, i: Input, e: Event)
    requires Run(states, events) && Follows(inputs, states, events)
    requires |states| == |events| + 1 && Possible(states[|events|], e) && Brings(i, e)
    requires i.Lost? ==> Gone(states[|events|], Step(states[|events|], e), i.fd)
    ensures var after := states + [Step(states[|events|], e)];
            Run(after, events + [e]) && Follows(inputs + [i], after, events + [e])
  {
    hide Run, Follows, Step, Possible, Brings, Gone;
    InputIsFromWire(i, e);
    RunExtends(states, events, e);
    FollowsExtends(inputs, states, events, i, e, Step(states[|events|], e));
  }

  lemma RunExtends(states: seq<State>, events: seq<Event>, e: Event)
    requires Run(states, events) && Possible(states[|events|], e) && FromWire(e.command)
    ensures Run(states + [Step(states[|events|], e)], events + [e])
  {
    hide Step, Possible, FromWire;
  }

  lemma FollowsExtends(inputs: seq<Input>, states: seq<State>, events: seq<Event>, i: Input, e: Event, s: State)
    requires Follows(inputs, states, events) && Brings(i, e) && (i.Lost? ==> Gone(states[|events|], s, i.fd))
    ensures Follows(inputs + [i], states + [s], events + [e])
  {
    hide Brings, Gone;
    var ins, ss, es := inputs + [i], states + [s], events + [e];
    forall k | 0 <= k < |ins|
      ensures Brings(ins[k], es[k]) && (ins[k].Lost? ==> Gone(ss[k], ss[k + 1], ins[k].fd))
    {
      if k < |inputs| {
        assert ins[k] == inputs[k] && es[k] == events[k] && ss[k] == states[k] && ss[k + 1] == states[k + 1];
      }
    }
  }
}
