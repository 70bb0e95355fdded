/** The command catalog, and parsing a typed line. */
module CommandLine {
  import opened Octets
  import opened CommandPatterns

  datatype ParsedCommand = ParsedCommand(name: Bytes, args: seq<Bytes>)

  // --- The catalog ---

  /** A command's name and the words of its template, which single spaces separate. */
  datatype Entry = Entry(name: string, words: seq<string>)

  const CATALOG: seq<Entry> := [
    Entry("login", ["/login", "{username}"]),
    Entry("room", ["/room", "{name}"]),
    Entry("join", ["/join", "{name}"]),
    Entry("send", ["/send", "{chat}", "{message...}"]),
    Entry("pmess", ["/pmess", "{recipient}", "{message...}"]),
    Entry("getpub", ["/getpub", "{username}"]),
    Entry("sendfile", ["/sendfile", "{recipient}", "{filename}"]),
    Entry("connect", ["/connect", "{ip}", "{port}", "{dh}", "{identity}", "{sig}"]),
    Entry("disconnect", ["/disconnect", "{username}"]),
    Entry("exit", ["/exit"]),
    Entry("help", ["/help"])
  ]

  const HELP := 10

  function AsciiAll(words: seq<string>): seq<Bytes> {
    seq(|words|, i requires 0 <= i < |words| => Ascii(words[i]))
  }

  function CatalogPattern(e: Entry): Pattern {
    Compiled(Ascii(e.name), Spaced(AsciiAll(e.words)))
  }

  /** A word of ASCII text without spaces. */
  predicate Plain(s: string) {
    s != [] && forall k :: 0 <= k < |s| ==> s[k] != ' ' && s[k] < 128 as char
  }

  predicate Param(s: string) {
    Plain(s) && |s| >= 4 && s[0] == '{'
  }

  predicate IsTail(s: string) {
    |s| >= 4 && s[|s| - 4..] == "...}"
  }

  /** The form every entry has: a literal that is a slash and the name, captures, and possibly a final tail. */
  predicate Regular(e: Entry) {
    && e.words != [] && Plain(e.name) && e.name[|e.name| - 1] != '}'
    && e.words[0] == "/" + e.name
    && (forall i :: 1 <= i < |e.words| ==> Param(e.words[i]))
    && (forall i :: 1 <= i < |e.words| - 1 ==> !IsTail(e.words[i]))
  }

  lemma ShortNamesArePlain()
    ensures Plain("login") && Plain("room") && Plain("join") && Plain("send") && Plain("exit") && Plain("help")
  {
  }

  lemma LongNamesArePlain()
    ensures Plain("pmess") && Plain("getpub") && Plain("sendfile") && Plain("connect") && Plain("disconnect")
  {
  }

  lemma NamesArePlain(i: nat)
    requires i < |CATALOG|
    ensures Plain(CATALOG[i].name)
  {
    ShortNamesArePlain();
    LongNamesArePlain();
    hide Plain;
  }

  lemma NamesEndPlainly(i: nat)
    requires i < |CATALOG|
    ensures CATALOG[i].name != [] && CATALOG[i].name[|CATALOG[i].name| - 1] != '}'
  {
  }

  lemma NamesMakeLiterals(i: nat)
    requires i < |CATALOG|
    ensures CATALOG[i].words[0] == "/" + CATALOG[i].name
  {
    if i < 4 {
      assert "/" + "login" == "/login" && "/" + "room" == "/room" && "/" + "join" == "/join" && "/" + "send" == "/send";
    } else if i < 8 {
      assert "/" + "pmess" == "/pmess" && "/" + "getpub" == "/getpub";
      assert "/" + "sendfile" == "/sendfile" && "/" + "connect" == "/connect";
    } else {
      assert "/" + "disconnect" == "/disconnect" && "/" + "exit" == "/exit" && "/" + "help" == "/help";
    }
  }

  lemma LongParamsAreParams()
    ensures Param("{username}") && Param("{message...}") && Param("{recipient}") && Param("{filename}") && Param("{identity}")
  {
  }

  lemma ShortParamsAreParams()
    ensures Param("{name}") && Param("{chat}") && Param("{ip}") && Param("{port}") && Param("{dh}") && Param("{sig}")
  {
  }

  lemma InnerParamsAreNotTails()
    ensures !IsTail("{chat}") && !IsTail("{recipient}") && !IsTail("{ip}")
    ensures !IsTail("{port}") && !IsTail("{dh}") && !IsTail("{identity}")
  {
    hide IsTail;
    NoDotsNoTail("{chat}");
    NoDotsNoTail("{recipient}");
    NoDotsNoTail("{ip}");
    NoDotsNoTail("{port}");
    NoDotsNoTail("{dh}");
    NoDotsNoTail("{identity}");
  }

  lemma NoDotsNoTail(s: string)
    requires |s| >= 4 && s[|s| - 3] != '.'
    ensures !IsTail(s)
  {
    assert s[|s| - 4..][1] == s[|s| - 3];
  }

  lemma CatalogParams(i: nat, k: nat)
    requires i < |CATALOG| && 1 <= k < |CATALOG[i].words|
    ensures Param(CATALOG[i].words[k]) && (k < |CATALOG[i].words| - 1 ==> !IsTail(CATALOG[i].words[k]))
  {
    LongParamsAreParams();
    ShortParamsAreParams();
    InnerParamsAreNotTails();
    hide Plain, Param, IsTail;
  }

  lemma CatalogIsRegular(i: nat)
    requires i < |CATALOG|
    ensures Regular(CATALOG[i])
  {
    hide Plain, Param, IsTail;
    NamesArePlain(i);
    NamesEndPlainly(i);
    NamesMakeLiterals(i);
    var e := CATALOG[i];
    forall k | 1 <= k < |e.words|
      ensures Param(e.words[k]) && (k < |e.words| - 1 ==> !IsTail(e.words[k]))
    {
      CatalogParams(i, k);
    }
  }

  lemma {:induction false} SplitSpaced(ws: seq<Bytes>)
    requires ws != [] && forall i :: 0 <= i < |ws| ==> ws[i] != [] && SpaceFree(ws[i])
    ensures SplitTokens(Spaced(ws)) == ws
    decreases |ws|
  {
    SplitReadsWords(Spaced(ws));
    if |ws| == 1 {
      WordThenEnd(ws[0]);
    } else {
      var rest := ws[1..];
      assert ws == [ws[0]] + rest;
      SpacedFront(ws[0], rest);
      FirstWordOf(ws[0], Spaced(rest));
      SplitSpaced(rest);
      SplitReadsWords(Spaced(rest));
    }
  }

  lemma PlainIsWord(s: string)
    requires Plain(s)
    ensures Ascii(s) != [] && SpaceFree(Ascii(s))
    ensures forall k :: 0 <= k < |s| ==> Ascii(s)[k] == s[k] as int
  {
  }

  lemma AsciiInjective(s: string, t: string)
    requires Plain(s) && Plain(t) && Ascii(s) == Ascii(t)
    ensures s == t
  {
    PlainIsWord(s);
    PlainIsWord(t);
    forall k | 0 <= k < |s|
      ensures s[k] == t[k]
    {
      assert Ascii(s)[k] == Ascii(t)[k];
    }
  }

  lemma LiteralCompiles(name: string)
    requires Plain(name) && name[|name| - 1] != '}'
    ensures Plain("/" + name) && CompileToken(Ascii("/" + name)) == Literal(Ascii("/" + name))
  {
    var s := "/" + name;
    forall k | 0 <= k < |s|
      ensures s[k] != ' ' && s[k] < 128 as char
    {
      assert k > 0 ==> s[k] == name[k - 1];
    }
    PlainIsWord(s);
    var b := Ascii(s);
    assert b[|b| - 1] != TAIL_MARK[3];
  }

  lemma ParamCompiles(s: string)
    requires Param(s)
    ensures IsTail(s) ==> CompileToken(Ascii(s)).TailCapture?
    ensures !IsTail(s) ==> CompileToken(Ascii(s)).Capture?
  {
    PlainIsWord(s);
    var b, n := Ascii(s), |s| - 4;
    if EndsWith(b, TAIL_MARK) {
      forall k | 0 <= k < 4
        ensures s[n..][k] == "...}"[k]
      {
        assert b[n..][k] == TAIL_MARK[k];
      }
      assert s[n..] == "...}";
    }
    if IsTail(s) {
      forall k | 0 <= k < 4
        ensures b[n..][k] == TAIL_MARK[k]
      {
        assert s[n..][k] == "...}"[k];
      }
    }
  }

  /** A literal, then captures, then possibly a tail. */
  predicate Standard(p: seq<PatternToken>) {
    && p != [] && p[0].Literal? && p[0].value != [] && SpaceFree(p[0].value)
    && (forall i :: 1 <= i < |p| ==> !p[i].Literal?)
    && (forall i :: 1 <= i < |p| - 1 ==> p[i].Capture?)
  }

  lemma {:induction false} CapturesWellFormed(p: seq<PatternToken>)
    requires forall i :: 0 <= i < |p| ==> !p[i].Literal?
    requires forall i :: 0 <= i < |p| - 1 ==> p[i].Capture?
    ensures p != [] ==> WellFormed(p)
    ensures Arity(p) == |p|
    decreases |p|
  {
    if p != [] {
      CapturesWellFormed(p[1..]);
    }
  }

  lemma StandardIsWellFormed(p: seq<PatternToken>)
    requires Standard(p)
    ensures WellFormed(p) && Arity(p) == |p| - 1
  {
    CapturesWellFormed(p[1..]);
  }

  lemma RegularCompiles(e: Entry)
    requires Regular(e)
    ensures var p := CatalogPattern(e).tokens;
            && Standard(p) && |p| == |e.words| && p[0] == Literal(Ascii("/" + e.name))
            && (forall i :: 1 <= i < |p| ==> (p[i].TailCapture? <==> IsTail(e.words[i])))
  {
    hide Plain, Param, IsTail;
    LiteralCompiles(e.name);
    PlainIsWord("/" + e.name);
    var ws := AsciiAll(e.words);
    forall i | 0 <= i < |ws|
      ensures ws[i] != [] && SpaceFree(ws[i])
      ensures i >= 1 ==> !CompileToken(ws[i]).Literal? && (CompileToken(ws[i]).TailCapture? <==> IsTail(e.words[i]))
    {
      if i >= 1 {
        ParamIsPlain(e.words[i]);
        ParamCompiles(e.words[i]);
      } else {
        PlainIsWord(e.words[0]);
      }
    }
    SplitSpaced(ws);
  }

  lemma ParamIsPlain(s: string)
    requires Param(s)
    ensures Ascii(s) != [] && SpaceFree(Ascii(s))
  {
    PlainIsWord(s);
  }

  // --- Matching a line against the catalog ---

  function MatchOne(e: Entry, line: Bytes): Option<seq<Bytes>> {
    Match(CatalogPattern(e).tokens, SplitTokens(line))
  }

  /** The first entry that matches, from `k` on. */
  function MatchFrom(line: Bytes, k: nat): Option<ParsedCommand>
    decreases |CATALOG| - k
  {
    if k >= |CATALOG| then None
    else match MatchOne(CATALOG[k], line)
      case Some(captures) => Some(ParsedCommand(Ascii(CATALOG[k].name), captures))
      case None => MatchFrom(line, k + 1)
  }

  lemma MatchStartsWithLiteral(p: seq<PatternToken>, tokens: seq<Bytes>)
    requires p != [] && p[0].Literal? && Match(p, tokens).Some?
    ensures tokens != [] && tokens[0] == p[0].value
  {
  }

  lemma NamesDiffer(i: nat, j: nat)
    requires i < j < |CATALOG|
    ensures CATALOG[i].name != CATALOG[j].name
  {
  }

  /** No line matches two entries. */
  lemma AtMostOneMatches(line: Bytes, i: nat, j: nat)
    requires i < j < |CATALOG|
    ensures MatchOne(CATALOG[i], line).None? || MatchOne(CATALOG[j], line).None?
  {
    CatalogIsRegular(i);
    CatalogIsRegular(j);
    NamesDiffer(i, j);
    LiteralsDiffer(CATALOG[i], CATALOG[j], line);
  }

  lemma SlashInjective(s: string, t: string)
    requires "/" + s == "/" + t
    ensures s == t
  {
    assert ("/" + s)[1..] == s && ("/" + t)[1..] == t;
  }

  lemma LiteralsDiffer(d: Entry, e: Entry, line: Bytes)
    requires Regular(d) && Regular(e) && d.name != e.name
    ensures MatchOne(d, line).None? || MatchOne(e, line).None?
  {
    hide CatalogPattern;
    RegularCompiles(d);
    RegularCompiles(e);
    if MatchOne(d, line).Some? && MatchOne(e, line).Some? {
      MatchStartsWithLiteral(CatalogPattern(d).tokens, SplitTokens(line));
      MatchStartsWithLiteral(CatalogPattern(e).tokens, SplitTokens(line));
      LiteralCompiles(d.name);
      LiteralCompiles(e.name);
      AsciiInjective("/" + d.name, "/" + e.name);
      SlashInjective(d.name, e.name);
    }
  }

  /** The catalog's order does not matter: an entry's match is the catalog's match, whichever entry it is. */
  lemma {:induction false} CatalogMatchIff(line: Bytes, i: nat, k: nat, args: seq<Bytes>)
    requires k <= i < |CATALOG|
    ensures MatchFrom(line, k) == Some(ParsedCommand(Ascii(CATALOG[i].name), args)) <==> MatchOne(CATALOG[i], line) == Some(args)
    decreases |CATALOG| - k
  {
    hide MatchOne;
    if k < i {
      AtMostOneMatches(line, k, i);
      CatalogMatchIff(line, i, k + 1, args);
      if MatchOne(CATALOG[k], line).Some? {
        NameDecidesEntry(k, i);
      }
    } else if MatchOne(CATALOG[i], line).None? {
      LaterMatchHasOtherName(line, i, i + 1);
    }
  }

  lemma NameDecidesEntry(i: nat, j: nat)
    requires i < j < |CATALOG|
    ensures Ascii(CATALOG[i].name) != Ascii(CATALOG[j].name)
  {
    NamesDiffer(i, j);
    CatalogIsRegular(i);
    CatalogIsRegular(j);
    if Ascii(CATALOG[i].name) == Ascii(CATALOG[j].name) {
      AsciiInjective(CATALOG[i].name, CATALOG[j].name);
    }
  }

  lemma {:induction false} LaterMatchHasOtherName(line: Bytes, i: nat, k: nat)
    requires i < k && i < |CATALOG|
    ensures MatchFrom(line, k).Some? ==> MatchFrom(line, k).value.name != Ascii(CATALOG[i].name)
    decreases |CATALOG| - k
  {
    hide MatchOne;
    if k < |CATALOG| {
      NameDecidesEntry(i, k);
      LaterMatchHasOtherName(line, i, k + 1);
    }
  }

  // --- Parsing a line ---

  predicate IsBlank(b: byte) {
    b == 32 || 9 <= b <= 13
  }

  /** Stream extraction: the maximal runs of non-blanks, `cur` being the run in progress. */
  function Fields(text: Bytes, cur: Bytes): (r: seq<Bytes>)
    requires SpaceFree(cur)
    ensures forall i :: 0 <= i < |r| ==> r[i] != [] && SpaceFree(r[i])
    decreases |text|
  {
    if text == [] then (if cur == [] then [] else [cur])
    else if !IsBlank(text[0]) then Fields(text[1..], cur + [text[0]])
    else (if cur == [] then [] else [cur]) + Fields(text[1..], [])
  }

  const SLASH: byte := 47
  const DOLLAR: byte := 36

  function Fallback(line: Bytes): ParsedCommand {
    var fields := Fields(line, []);
    if fields == [] then ParsedCommand([], []) else
    var first := fields[0];
    ParsedCommand(if first[0] == SLASH || first[0] == DOLLAR then first[1..] else first, fields[1..])
  }

  function ParsedLine(line: Bytes): ParsedCommand {
    if line == [] then ParsedCommand([], [])
    else match MatchFrom(line, 0)
      case Some(p) => p
      case None => Fallback(line)
  }

  /** Walk the compiled catalog; on no match, take the line field by field. */
  method ParseLine(line: Bytes) returns (p: ParsedCommand)
    ensures p == ParsedLine(line)
  {
    hide MatchFrom, Fallback;
    if line == [] {
      return ParsedCommand([], []);
    }
    var found := MatchLine(line);
    if found.Some? {
      return found.value;
    }
    p := ParseFields(line);
  }

  method MatchLine(line: Bytes) returns (found: Option<ParsedCommand>)
    ensures found == MatchFrom(line, 0)
  {
    hide MatchOne;
    var tokens := SplitIntoTokens(line);
    for k := 0 to |CATALOG|
      invariant MatchFrom(line, 0) == MatchFrom(line, k)
    {
      var captures := MatchEntry(CATALOG[k], tokens, line);
      if captures.Some? {
        return Some(ParsedCommand(Ascii(CATALOG[k].name), captures.value));
      }
    }
    return None;
  }

  method ParseFields(line: Bytes) returns (p: ParsedCommand)
    ensures p == Fallback(line)
  {
    hide Fields;
    var fields := Fields(line, []);
    if fields == [] {
      return ParsedCommand([], []);
    }
    var name := fields[0];
    if name[0] == SLASH || name[0] == DOLLAR {
      name := name[1..];
    }
    var args := [];
    for i := 1 to |fields|
      invariant args == fields[1..i]
    {
      args := args + [fields[i]];
    }
    p := ParsedCommand(name, args);
  }

  method MatchEntry(e: Entry, tokens: seq<Bytes>, ghost line: Bytes) returns (captures: Option<seq<Bytes>>)
    requires tokens == SplitTokens(line)
    ensures captures == MatchOne(e, line)
  {
    var pattern := CompilePattern(Ascii(e.name), Spaced(AsciiAll(e.words)));
    captures := TryMatch(pattern, tokens);
  }

  lemma {:induction false} PlainArgsAreInLanguage(p: seq<PatternToken>, args: seq<Bytes>)
    requires forall i :: 0 <= i < |p| ==> !p[i].Literal?
    requires forall i :: 0 <= i < |p| - 1 ==> p[i].Capture?
    requires |args| == Arity(p) && forall i :: 0 <= i < |args| ==> args[i] != [] && SpaceFree(args[i])
    ensures InLanguage(p, args)
    decreases |p|
  {
    if p != [] {
      if p[0].Capture? {
        PlainArgsAreInLanguage(p[1..], args[1..]);
      } else {
        SpaceFreeIsCollapsed(args[0], true);
      }
    }
  }

  lemma {:induction false} SpaceFreeIsCollapsed(w: Bytes, afterSpace: bool)
    requires SpaceFree(w)
    ensures Squeeze(w, afterSpace) == w
  {
    if w != [] {
      SpaceFreeIsCollapsed(w[1..], false);
      assert [w[0]] + w[1..] == w;
    }
  }

  // --- Lines outside the catalog ---

  predicate BlankFree(w: Bytes) {
    forall i :: 0 <= i < |w| ==> w[i] !in {9, 10, 11, 12, 13, 32}
  }

  lemma {:induction false} FieldCollects(w: Bytes, cur: Bytes, rest: Bytes)
    requires BlankFree(w) && SpaceFree(cur)
    ensures SpaceFree(cur + w) && Fields(w + rest, cur) == Fields(rest, cur + w)
    decreases |w|
  {
    if w == [] {
      assert w + rest == rest && cur + w == cur;
    } else {
      assert (w + rest)[1..] == w[1..] + rest;
      FieldCollects(w[1..], cur + [w[0]], rest);
      assert cur + [w[0]] + w[1..] == cur + w;
    }
  }

  predicate AllBlank(w: Bytes) {
    forall i :: 0 <= i < |w| ==> w[i] in {9, 10, 11, 12, 13, 32}
  }

  /** Words with blanks before, between and after them. */
  function Apart(blanks: seq<Bytes>, ws: seq<Bytes>): Bytes
    requires |blanks| == |ws| + 1
  {
    if ws == [] then blanks[0] else blanks[0] + (ws[0] + Apart(blanks[1..], ws[1..]))
  }

  predicate Proper(blanks: seq<Bytes>, ws: seq<Bytes>) {
    && |blanks| == |ws| + 1
    && (forall i :: 0 <= i < |blanks| ==> AllBlank(blanks[i]))
    && (forall i :: 0 <= i < |ws| ==> ws[i] != [] && BlankFree(ws[i]))
    && (forall i :: 0 < i < |ws| ==> blanks[i] != [])
  }

  /** Every line is words with blanks around them. */
  lemma {:induction false} EveryLineIsApart(line: Bytes) returns (blanks: seq<Bytes>, ws: seq<Bytes>)
    ensures Proper(blanks, ws) && line == Apart(blanks, ws)
  {
    if line == [] {
      blanks, ws := [[]], [];
    } else {
      var c, b, w := line[0], [], [];
      b, w := EveryLineIsApart(line[1..]);
      if IsBlank(c) {
        blanks, ws := [[c] + b[0]] + b[1..], w;
      } else if b[0] == [] && w != [] {
        blanks, ws := b, [[c] + w[0]] + w[1..];
      } else {
        blanks, ws := [[]] + b, [[c]] + w;
      }
    }
  }

  lemma {:induction false} BlanksSkip(b: Bytes, rest: Bytes)
    requires AllBlank(b)
    ensures Fields(b + rest, []) == Fields(rest, [])
  {
    if b == [] {
      assert b + rest == rest;
    } else {
      assert (b + rest)[1..] == b[1..] + rest;
      BlanksSkip(b[1..], rest);
    }
  }

  /** The line goes on with a blank, or ends. */
  predicate Pauses(rest: Bytes) {
    rest == [] || IsBlank(rest[0])
  }

  lemma WordEnds(w: Bytes, rest: Bytes)
    requires w != [] && BlankFree(w) && Pauses(rest)
    ensures Fields(w + rest, []) == [w] + Fields(rest, [])
  {
    FieldCollects(w, [], rest);
    assert [] + w == w;
  }

  lemma ApartPauses(blanks: seq<Bytes>, ws: seq<Bytes>)
    requires |blanks| == |ws| + 1 && AllBlank(blanks[0]) && (ws != [] ==> blanks[0] != [])
    ensures Pauses(Apart(blanks, ws))
  {
  }

  lemma {:induction false} FieldsOfApart(blanks: seq<Bytes>, ws: seq<Bytes>)
    requires Proper(blanks, ws)
    ensures Fields(Apart(blanks, ws), []) == ws
    decreases |ws|
  {
    if ws == [] {
      BlanksSkip(blanks[0], []);
      assert blanks[0] + [] == blanks[0];
    } else {
      var rest := Apart(blanks[1..], ws[1..]);
      BlanksSkip(blanks[0], ws[0] + rest);
      ApartPauses(blanks[1..], ws[1..]);
      WordEnds(ws[0], rest);
      assert Proper(blanks[1..], ws[1..]);
      FieldsOfApart(blanks[1..], ws[1..]);
    }
  }

  /** A line that no entry matches is taken word by word, however its blanks fall: a leading slash or dollar is dropped
      from the name and the other words are the arguments; a blank line names nothing. */
  lemma UnknownCommandKeepsFields(blanks: seq<Bytes>, ws: seq<Bytes>)
    requires Proper(blanks, ws) && MatchFrom(Apart(blanks, ws), 0).None?
    ensures var p := ParsedLine(Apart(blanks, ws));
            if ws == [] then p == ParsedCommand([], [])
            else p.args == ws[1..] && ws[0] == (if ws[0][0] in {'/' as int, '$' as int} then [ws[0][0]] else []) + p.name
  {
    hide MatchFrom, Fields;
    FieldsOfApart(blanks, ws);
    NoWords();
  }

  lemma NoWords()
    ensures Fields([], []) == []
  {
  }

  /** Typing a catalog command with given arguments parses back to them exactly when they are in its language. */
  lemma ParseRenderedIff(i: nat, args: seq<Bytes>)
    requires i < |CATALOG| && |args| == Arity(CatalogPattern(CATALOG[i]).tokens)
    ensures var p := CatalogPattern(CATALOG[i]).tokens;
            ParsedLine(Render(p, args)) == ParsedCommand(Ascii(CATALOG[i].name), args) <==> InLanguage(p, args)
  {
    hide CatalogPattern, MatchFrom;
    var e := CATALOG[i];
    CatalogIsRegular(i);
    RegularIsWellFormed(e);
    CatalogMatchIff(Render(CatalogPattern(e).tokens, args), i, 0, args);
    ParseRenderedEntry(e, args);
  }

  lemma RegularIsWellFormed(e: Entry)
    requires Regular(e)
    ensures Standard(CatalogPattern(e).tokens) && WellFormed(CatalogPattern(e).tokens)
  {
    RegularCompiles(e);
    StandardIsWellFormed(CatalogPattern(e).tokens);
  }

  lemma ParseRenderedEntry(e: Entry, args: seq<Bytes>)
    requires Standard(CatalogPattern(e).tokens) && WellFormed(CatalogPattern(e).tokens)
    requires |args| == Arity(CatalogPattern(e).tokens)
    requires var line := Render(CatalogPattern(e).tokens, args);
             MatchFrom(line, 0) == Some(ParsedCommand(Ascii(e.name), args)) <==> MatchOne(e, line) == Some(args)
    ensures var p := CatalogPattern(e).tokens;
            ParsedLine(Render(p, args)) == ParsedCommand(Ascii(e.name), args) <==> InLanguage(p, args)
  {
    hide CatalogPattern, MatchFrom, Fields, InLanguage, Render, Standard;
    var p := CatalogPattern(e).tokens;
    var line := Render(p, args);
    RenderMatchIff(p, args);
    RenderedNonEmpty(p, args);
    if MatchFrom(line, 0).None? && Fallback(line) == ParsedCommand(Ascii(e.name), args) {
      StandardArgsInLanguage(p, args);
    }
  }

  lemma RenderedNonEmpty(p: seq<PatternToken>, args: seq<Bytes>)
    requires Standard(p) && |args| == Arity(p)
    ensures Render(p, args) != []
  {
  }

  lemma StandardArgsInLanguage(p: seq<PatternToken>, args: seq<Bytes>)
    requires Standard(p) && |args| == Arity(p) && forall i :: 0 <= i < |args| ==> args[i] != [] && SpaceFree(args[i])
    ensures InLanguage(p, args)
  {
    PlainArgsAreInLanguage(p[1..], args);
  }
}
