/** Commands as messages, and a typed line all the way to the server. */
module CommandMessages {
  import opened Octets
  import opened Identities
  import opened Codec
  import opened CommandPatterns
  import opened CommandLine
  import ServerModel

  const UNKNOWN: byte := 0xFF

  /** Names and type codes; the `help` command has none. */
  const TYPES: seq<(string, byte)> := [
    ("login", 0x02), ("room", 0x03), ("join", 0x04), ("send", 0x01), ("pmess", 0x08), ("getpub", 0x05),
    ("sendfile", 0x09), ("connect", 0x0B), ("disconnect", 0x0C), ("exit", 0xFE)
  ]

  function TypeFrom(name: Bytes, k: nat): byte
    decreases |TYPES| - k
  {
    if k >= |TYPES| then UNKNOWN else if Ascii(TYPES[k].0) == name then TYPES[k].1 else TypeFrom(name, k + 1)
  }

  function NameFrom(code: byte, k: nat): Bytes
    decreases |TYPES| - k
  {
    if k >= |TYPES| then Ascii("unknown") else if TYPES[k].1 == code then Ascii(TYPES[k].0) else NameFrom(code, k + 1)
  }

  function TypeOf(name: Bytes): byte { TypeFrom(name, 0) }

  function NameOf(code: byte): Bytes { NameFrom(code, 0) }

  lemma TypesFollowCatalog(i: nat)
    requires i < HELP
    ensures i < |TYPES| && TYPES[i].0 == CATALOG[i].name
  {
  }

  lemma {:induction false} TypeFound(i: nat, k: nat)
    requires k <= i < HELP
    ensures TypeFrom(Ascii(CATALOG[i].name), k) == TYPES[i].1
    decreases i - k
  {
    TypesFollowCatalog(i);
    if k < i {
      TypesFollowCatalog(k);
      NameDecidesEntry(k, i);
      TypeFound(i, k + 1);
    }
  }

  lemma {:induction false} NameFound(i: nat, k: nat)
    requires k <= i < |TYPES|
    ensures NameFrom(TYPES[i].1, k) == Ascii(TYPES[i].0)
    decreases i - k
  {
    if k < i {
      NameFound(i, k + 1);
    }
  }

  // --- Command structures to messages and back ---

  function LastOrEmpty(args: seq<Bytes>): Bytes {
    if args == [] then [] else args[|args| - 1]
  }

  function CommandItems(p: ParsedCommand): seq<Bytes> {
    [[TypeOf(p.name)]] + p.args
  }

  /** What the command becomes when it fits: the type code and the arguments, and the last argument again as payload. */
  predicate IsCommandMessage(p: ParsedCommand, m: Message) {
    && m.header.kind == COMMAND && m.header.version == PROTOCOL_VERSION && m.envelope == EMPTY_ENVELOPE
    && m.metadata == CommandItems(p) && m.payload == LastOrEmpty(p.args) && m.Sized()
  }

  predicate FitsMessage(p: ParsedCommand) {
    |p.args| <= 254 && WireSize(CommandItems(p), LastOrEmpty(p.args)) < U32_LIMIT
  }

  lemma {:induction false} ItemsSizeSplits(a: seq<Bytes>, b: seq<Bytes>)
    ensures ItemsSize(a + b) == ItemsSize(a) + ItemsSize(b)
  {
    if a == [] {
      assert a + b == b;
    } else {
      assert (a + b)[1..] == a[1..] + b;
      ItemsSizeSplits(a[1..], b);
    }
  }

  lemma PrefixFits(p: ParsedCommand, k: nat)
    requires FitsMessage(p) && k <= |p.args|
    ensures WireSize([[TypeOf(p.name)]] + p.args[..k], []) < U32_LIMIT
  {
    var head: seq<Bytes> := [[TypeOf(p.name)]];
    assert CommandItems(p) == head + p.args[..k] + p.args[k..];
    ItemsSizeSplits(head + p.args[..k], p.args[k..]);
  }

  /** Insert the type and then every argument, then set the payload; fails exactly when the whole does not fit. */
  method MakeCommandFromStruct(p: ParsedCommand) returns (r: Result<Message, CodecError>)
    ensures r.Ok? <==> FitsMessage(p)
    ensures r.Ok? ==> IsCommandMessage(p, r.value)
  {
    hide TypeOf, ItemsSize;
    var m := EMPTY_MESSAGE.(header := EMPTY_MESSAGE.header.(kind := COMMAND));
    ghost var head: seq<Bytes> := [[TypeOf(p.name)]];
    assert [] + head == head == head + p.args[..0];
    if FitsMessage(p) {
      PrefixFits(p, 0);
    }
    var first := InsertMetadata(m, [TypeOf(p.name)]);
    if first.Err? {
      return Err(first.error);
    }
    m := first.value;
    for i := 0 to |p.args|
      invariant m.metadata == head + p.args[..i] && m.payload == [] && m.Sized()
      invariant m.header.kind == COMMAND && m.header.version == PROTOCOL_VERSION && m.envelope == EMPTY_ENVELOPE
    {
      assert head + p.args[..i] + [p.args[i]] == head + p.args[..i + 1];
      if FitsMessage(p) {
        PrefixFits(p, i + 1);
      }
      var next := InsertMetadata(m, p.args[i]);
      if next.Err? {
        return Err(next.error);
      }
      m := next.value;
    }
    assert p.args[..|p.args|] == p.args;
    r := SetPayload(m, LastOrEmpty(p.args));
  }

  function StructOf(m: Message): ParsedCommand {
    if m.Meta(0) == [] then ParsedCommand(Ascii("unknown"), [])
    else ParsedCommand(NameOf(m.Meta(0)[0]), m.metadata[1..])
  }

  method MakeStructFromCommand(m: Message) returns (p: ParsedCommand)
    ensures p == StructOf(m)
  {
    hide NameOf;
    var code := m.Meta(0);
    if code == [] {
      return ParsedCommand(Ascii("unknown"), []);
    }
    var args := [];
    for i := 1 to |m.metadata|
      invariant args == m.metadata[1..i]
    {
      args := args + [m.Meta(i)];
    }
    p := ParsedCommand(NameOf(code[0]), args);
  }

  lemma CommandMessageOnTheWire(p: ParsedCommand, m: Message)
    requires IsCommandMessage(p, m) && |p.args| <= 126
    requires forall k :: 0 <= k < |p.args| ==> |p.args[k]| < U16_LIMIT
    ensures Deserialize(Serialize(m)).Ok? && IsCommandMessage(p, Deserialize(Serialize(m)).value)
  {
    hide Serialize, Deserialize, TypeOf;
    forall k | 0 <= k < |m.metadata|
      ensures |m.metadata[k]| < U16_LIMIT
    {
      assert k > 0 ==> m.metadata[k] == p.args[k - 1];
    }
    assert m.Encodable();
    RoundTrip(m, []);
    assert Serialize(m) + [] == Serialize(m);
  }

  lemma StructSurvives(p: ParsedCommand, m: Message)
    requires IsCommandMessage(p, m)
    ensures StructOf(m) == ParsedCommand(NameOf(TypeOf(p.name)), p.args)
  {
    hide TypeOf, NameOf;
    assert m.metadata[1..] == p.args;
  }

  /** Every typed catalog command with arguments of 16-bit length fits a message. */
  lemma TypedCommandFits(i: nat, args: seq<Bytes>)
    requires i < |CATALOG| && |args| == Arity(CatalogPattern(CATALOG[i]).tokens)
    requires InLanguage(CatalogPattern(CATALOG[i]).tokens, args)
    requires forall k :: 0 <= k < |args| ==> |args[k]| < U16_LIMIT
    ensures FitsMessage(ParsedLine(Render(CatalogPattern(CATALOG[i]).tokens, args)))
  {
    hide CatalogPattern, ParsedLine, TypeOf, ItemsSize;
    ParseRenderedIff(i, args);
    SmallArity(i);
    ItemsSizeBound(CommandItems(ParsedCommand(Ascii(CATALOG[i].name), args)));
  }

  /** Line to command, to message, to bytes, to message, to command: for every catalog command but `help` and every
      argument list in its language, with arguments of 16-bit length, the original name and arguments come back. */
  lemma TypedCommandSurvives(i: nat, args: seq<Bytes>, m: Message)
    requires i < HELP && |args| == Arity(CatalogPattern(CATALOG[i]).tokens)
    requires InLanguage(CatalogPattern(CATALOG[i]).tokens, args)
    requires forall k :: 0 <= k < |args| ==> |args[k]| < U16_LIMIT
    requires IsCommandMessage(ParsedLine(Render(CatalogPattern(CATALOG[i]).tokens, args)), m)
    ensures Deserialize(Serialize(m)).Ok?
    ensures StructOf(Deserialize(Serialize(m)).value) == ParsedCommand(Ascii(CATALOG[i].name), args)
  {
    hide CatalogPattern, ParsedLine, TypeOf, NameOf, Serialize, Deserialize;
    var p := ParsedCommand(Ascii(CATALOG[i].name), args);
    ParseRenderedIff(i, args);
    SmallArity(i);
    CommandMessageOnTheWire(p, m);
    StructSurvives(p, Deserialize(Serialize(m)).value);
    NameTypeInverse(i);
  }

  lemma NameTypeInverse(i: nat)
    requires i < HELP
    ensures TypeOf(Ascii(CATALOG[i].name)) == TYPES[i].1 && NameOf(TYPES[i].1) == Ascii(CATALOG[i].name)
  {
    TypesFollowCatalog(i);
    TypeFound(i, 0);
    NameFound(i, 0);
  }

  lemma SmallArity(i: nat)
    requires i < |CATALOG|
    ensures Arity(CatalogPattern(CATALOG[i]).tokens) <= 126
  {
    hide CatalogPattern;
    CatalogIsRegular(i);
    RegularCompiles(CATALOG[i]);
    StandardIsWellFormed(CatalogPattern(CATALOG[i]).tokens);
    assert |CATALOG[i].words| <= 6;
  }

  /** `help` is the one catalog command without a type: it comes back as `unknown`. */
  lemma HelpComesBackUnknown(m: Message)
    requires IsCommandMessage(ParsedCommand(Ascii("help"), []), m)
    ensures StructOf(m) == ParsedCommand(Ascii("unknown"), [])
  {
    var p := ParsedCommand(Ascii("help"), []);
    StructSurvives(p, m);
    HelpHasNoType(0);
    UnknownHasNoName(0);
  }

  lemma {:induction false} HelpHasNoType(k: nat)
    requires k <= |TYPES|
    ensures TypeFrom(Ascii("help"), k) == UNKNOWN
    decreases |TYPES| - k
  {
    if k < |TYPES| {
      TypesFollowCatalog(k);
      NameDecidesEntry(k, HELP);
      HelpHasNoType(k + 1);
    }
  }

  lemma {:induction false} UnknownHasNoName(k: nat)
    requires k <= |TYPES|
    ensures NameFrom(UNKNOWN, k) == Ascii("unknown")
    decreases |TYPES| - k
  {
    if k < |TYPES| {
      UnknownHasNoName(k + 1);
    }
  }

  // --- From the keyboard to the server ---

  /** What a typed room command makes the server do: the text `/room x` creates `x`, `/join x` joins `x`. */
  lemma TypedRoomCommandReachesServer(i: nat, chat: Bytes, m: Message)
    requires i == 1 || i == 2
    requires SpaceFree(chat) && |chat| < U16_LIMIT
    requires IsCommandMessage(ParsedLine(Ascii("/" + CATALOG[i].name) + [SPACE] + chat), m)
    ensures ServerModel.CommandOfBytes(Serialize(m))
            == if i == 1 then ServerModel.DoCreate(chat) else ServerModel.DoJoin(chat)
  {
    hide CatalogPattern, ParsedLine, TypeOf, NameOf, Serialize, Deserialize;
    var e := CATALOG[i];
    CatalogIsRegular(i);
    RegularCompiles(e);
    var pattern := CatalogPattern(e).tokens;
    TwoPartPattern(pattern, chat);
    ParseRenderedIff(i, [chat]);
    var p := ParsedCommand(Ascii(e.name), [chat]);
    CommandMessageOnTheWire(p, m);
    NameTypeInverse(i);
    assert TYPES[1].1 == 3 && TYPES[2].1 == 4;
  }

  /** The login a client sends carries its name and keys to the server. */
  lemma LoginReachesServer(name: Bytes, keys: Keys, m: Message)
    requires |name| < U16_LIMIT && |keys.dh| < U16_LIMIT && |keys.identity| < U16_LIMIT && |keys.signature| < U16_LIMIT
    requires IsCommandMessage(ParsedCommand(Ascii("login"), [name, keys.dh, keys.identity, keys.signature]), m)
    ensures ServerModel.CommandOfBytes(Serialize(m)) == ServerModel.DoLogin(name, keys)
  {
    hide TypeOf, NameOf, Serialize, Deserialize;
    var p := ParsedCommand(Ascii("login"), [name, keys.dh, keys.identity, keys.signature]);
    CommandMessageOnTheWire(p, m);
    NameTypeInverse(0);
    assert CATALOG[0].name == "login" && TYPES[0].1 == 2;
  }

  /** The key request, exit and group message that a client builds directly mean the same to the server. */
  lemma DirectCommandsReachServer(name: Bytes, payload: Bytes)
    requires |name| < U16_LIMIT && NewMessage(payload, [[TypeOf(Ascii("send"))], name], COMMAND, 0).Ok?
    ensures NewMessage([], [[TypeOf(Ascii("getpub"))], name], COMMAND, 0).Ok?
    ensures ServerModel.CommandOfBytes(Serialize(NewMessage([], [[TypeOf(Ascii("getpub"))], name], COMMAND, 0).value))
            == ServerModel.DoGetPub(name)
    ensures NewMessage([], [[TypeOf(Ascii("exit"))]], COMMAND, 0).Ok?
    ensures ServerModel.CommandOfBytes(Serialize(NewMessage([], [[TypeOf(Ascii("exit"))]], COMMAND, 0).value))
            == ServerModel.DoExit
    ensures NewMessage(payload, [], TEXT, 0).Ok?
    ensures ServerModel.CommandOfBytes(Serialize(NewMessage(payload, [[TypeOf(Ascii("send"))], name], COMMAND, 0).value))
            == ServerModel.DoSend(name, NewMessage(payload, [], TEXT, 0).value)
  {
    hide TypeOf, NameOf, Serialize, Deserialize, ItemsSize;
    NameTypeInverse(3);
    NameTypeInverse(5);
    NameTypeInverse(9);
    assert TYPES[3].1 == 1 && TYPES[5].1 == 5 && TYPES[9].1 == 0xFE;
    assert CATALOG[3].name == "send" && CATALOG[5].name == "getpub" && CATALOG[9].name == "exit";
    ItemsSizeBound([]);
    ItemsSizeBound([[5], name]);
    ItemsSizeBound([[0xFE]]);
    ServerModel.BuiltMessageDecodes([], [[5], name], COMMAND);
    ServerModel.BuiltMessageDecodes([], [[0xFE]], COMMAND);
    ServerModel.BuiltMessageDecodes(payload, [[1], name], COMMAND);
  }

  /** A typed group message: the text after the room name becomes the payload, the client rebuilds a send from it, and
      the server posts that text to that room. */
  lemma TypedGroupMessageReachesServer(chat: Bytes, text: Bytes, m: Message)
    requires SpaceFree(chat) && chat != [] && Collapse(text) == text && |chat| < U16_LIMIT && |text| < U16_LIMIT
    requires IsCommandMessage(ParsedLine(Ascii("/send") + [SPACE] + chat + [SPACE] + text), m)
    ensures var sent := NewMessage(m.payload, [[TypeOf(Ascii("send"))], m.Meta(1)], COMMAND, 0);
            && sent.Ok? && NewMessage(text, [], TEXT, 0).Ok?
            && ServerModel.CommandOfBytes(Serialize(sent.value))
               == ServerModel.DoSend(chat, NewMessage(text, [], TEXT, 0).value)
  {
    hide CatalogPattern, ParsedLine, TypeOf, NameOf, Serialize, ItemsSize, Collapse;
    var e := CATALOG[3];
    CatalogIsRegular(3);
    RegularCompiles(e);
    assert e.words[2] == "{message...}" && e.words[0] == "/send" == "/" + e.name;
    MessageIsTail();
    hide Plain, Param, IsTail;
    ThreePartPattern(CatalogPattern(e).tokens, chat, text);
    ParseRenderedIff(3, [chat, text]);
    assert m.payload == text && m.Meta(1) == chat;
    ItemsSizeBound([[TypeOf(Ascii("send"))], chat]);
    DirectCommandsReachServer(chat, text);
  }

  // --- The command table, spelled out ---

  lemma {:induction false} RenderWords(p: seq<PatternToken>, args: seq<Bytes>)
    requires |args| == |p| == Arity(p) && p != [] && forall i :: 0 <= i < |p| ==> !p[i].Literal?
    ensures Render(p, args) == Spaced(args)
    decreases |p|
  {
    if |p| > 1 {
      assert Arity(p[1..]) == |p| - 1;
      RenderWords(p[1..], args[1..]);
      assert args == [args[0]] + args[1..];
      SpacedFront(args[0], args[1..]);
    }
  }

  /** A catalog command typed with plain words comes back with these words as its arguments. */
  lemma PlainLine(i: nat, args: seq<Bytes>)
    requires i < |CATALOG| && |args| == |CATALOG[i].words| - 1
    requires forall k :: 0 <= k < |args| ==> args[k] != [] && SpaceFree(args[k])
    ensures ParsedLine(Spaced([Ascii("/" + CATALOG[i].name)] + args)) == ParsedCommand(Ascii(CATALOG[i].name), args)
  {
    hide CatalogPattern, ParsedLine, Plain, Param, IsTail, InLanguage;
    var e := CATALOG[i];
    CatalogIsRegular(i);
    RegularCompiles(e);
    var p := CatalogPattern(e).tokens;
    StandardIsWellFormed(p);
    PlainStandard(p, args);
    ParseRenderedIff(i, args);
  }

  lemma PlainStandard(p: seq<PatternToken>, args: seq<Bytes>)
    requires Standard(p) && |args| == |p| - 1 == Arity(p)
    requires forall k :: 0 <= k < |args| ==> args[k] != [] && SpaceFree(args[k])
    ensures InLanguage(p, args) && Render(p, args) == Spaced([p[0].value] + args)
  {
    var rest := p[1..];
    assert Arity(rest) == |rest|;
    PlainArgsAreInLanguage(rest, args);
    if args == [] {
      assert [p[0].value] + args == [p[0].value];
    } else {
      RenderWords(rest, args);
      SpacedFront(p[0].value, args);
    }
  }

  /** Every command, the number of arguments it takes, and its type code. */
  const COMMANDS: seq<(string, nat, byte)> := [
    ("login", 1, 0x02), ("room", 1, 0x03), ("join", 1, 0x04), ("send", 2, 0x01), ("pmess", 2, 0x08), ("getpub", 1, 0x05),
    ("sendfile", 2, 0x09), ("connect", 5, 0x0B), ("disconnect", 1, 0x0C), ("exit", 0, 0xFE), ("help", 0, 0xFF)
  ]

  lemma CommandsAreCatalog(i: nat)
    requires i < |COMMANDS|
    ensures i < |CATALOG| && CATALOG[i].name == COMMANDS[i].0 && |CATALOG[i].words| == COMMANDS[i].1 + 1
  {
  }

  /** A slash, a command's name and its number of plain words: the line parses to that name and these words, and the
      message made of it starts with the command's code. */
  lemma TypedLineMakesCommand(i: nat, args: seq<Bytes>, m: Message)
    requires i < |COMMANDS| && |args| == COMMANDS[i].1
    requires forall k :: 0 <= k < |args| ==> args[k] != [] && SpaceFree(args[k])
    requires IsCommandMessage(ParsedLine(Spaced([Ascii("/" + COMMANDS[i].0)] + args)), m)
    ensures ParsedLine(Spaced([Ascii("/" + COMMANDS[i].0)] + args)) == ParsedCommand(Ascii(COMMANDS[i].0), args)
    ensures m.metadata == [[COMMANDS[i].2]] + args && m.payload == if args == [] then [] else args[|args| - 1]
  {
    hide ParsedLine, TypeOf;
    CommandsAreCatalog(i);
    PlainLine(i, args);
    CodeOf(i);
  }

  lemma CodeOf(i: nat)
    requires i < |COMMANDS|
    ensures TypeOf(Ascii(COMMANDS[i].0)) == COMMANDS[i].2
  {
    hide TypeOf;
    CommandsAreCatalog(i);
    if i == HELP {
      HelpCode();
    } else {
      NameTypeInverse(i);
      assert TYPES[i].1 == COMMANDS[i].2;
    }
  }

  lemma HelpCode()
    ensures TypeOf(Ascii("help")) == UNKNOWN
  {
    HelpHasNoType(0);
  }

  /** One such line, letter by letter. */
  lemma LoginLine()
    ensures ParsedLine(Ascii("/login bob")) == ParsedCommand(Ascii("login"), [Ascii("bob")])
  {
    hide ParsedLine;
    var bob := Ascii("bob");
    CommandsAreCatalog(0);
    PlainLine(0, [bob]);
    assert "/" + "login" == "/login";
    SpacedFront(Ascii("/login"), [bob]);
    assert Ascii("/login bob") == Ascii("/login") + [SPACE] + bob;
  }

  /** A typed `/sendfile`, sent to the server, is answered there for that file and that recipient. */
  lemma TypedSendFileReachesServer(recipient: Bytes, file: Bytes, m: Message)
    requires SpaceFree(recipient) && recipient != [] && |recipient| < U16_LIMIT
    requires SpaceFree(file) && file != [] && |file| < U16_LIMIT
    requires IsCommandMessage(ParsedLine(Spaced([Ascii("/sendfile"), recipient, file])), m)
    ensures ServerModel.CommandOfBytes(Serialize(m)) == ServerModel.DoSendFile(recipient, file)
  {
    hide ParsedLine, TypeOf, Serialize, Deserialize;
    var args := [recipient, file];
    assert COMMANDS[6] == ("sendfile", 2, 0x09) && "/sendfile" == "/" + "sendfile";
    assert [Ascii("/sendfile")] + args == [Ascii("/sendfile"), recipient, file];
    TypedLineMakesCommand(6, args, m);
    CommandMessageOnTheWire(ParsedCommand(Ascii("sendfile"), args), m);
    CodeOf(6);
  }

  lemma MessageIsTail()
    ensures IsTail("{message...}")
  {
  }

  lemma ThreePartPattern(p: seq<PatternToken>, word: Bytes, tail: Bytes)
    requires Standard(p) && |p| == 3 && p[2].TailCapture? && SpaceFree(word) && word != [] && Collapse(tail) == tail
    ensures Arity(p) == 2 && InLanguage(p, [word, tail])
    ensures Render(p, [word, tail]) == p[0].value + [SPACE] + word + [SPACE] + tail
  {
    StandardIsWellFormed(p);
    var rest, last := p[1..], p[2..];
    assert rest[1..] == last && Arity(last) == 1 && Arity(rest) == 2;
    assert [word, tail][1..] == [tail];
    assert Render(last, [tail]) == tail && InLanguage(last, [tail]);
    assert Render(rest, [word, tail]) == word + [SPACE] + tail;
    assert p[0].value + [SPACE] + (word + [SPACE] + tail) == p[0].value + [SPACE] + word + [SPACE] + tail;
  }

  lemma TwoPartPattern(p: seq<PatternToken>, arg: Bytes)
    requires Standard(p) && |p| == 2 && SpaceFree(arg)
    ensures Arity(p) == 1 && Render(p, [arg]) == p[0].value + [SPACE] + arg && InLanguage(p, [arg])
  {
    StandardIsWellFormed(p);
    var rest := p[1..];
    assert |rest| == 1 && !rest[0].Literal? && Arity(rest) == 1;
    assert Render(rest, [arg]) == arg;
    assert rest[1..] == [] && [arg][1..] == [];
    SpaceFreeIsCollapsed(arg, true);
    assert InLanguage(rest, [arg]);
  }
}
