/** Splitting a command line into tokens and matching it against compiled templates. */
module CommandPatterns {
  import opened Octets

  const SPACE: byte := 32
  const OPEN_BRACE: byte := 123
  const TAIL_MARK: Bytes := [46, 46, 46, 125]

  // --- Tokens ---

  /** The splitting loop from a given position: `cur` is the token being collected. */
  function Split(text: Bytes, cur: Bytes): seq<Bytes>
    decreases |text|
  {
    if text == [] then [cur]
    else if text[0] != SPACE then Split(text[1..], cur + [text[0]])
    else if cur == [] then Split(text[1..], [])
    else [cur] + Split(text[1..], [])
  }

  function SplitTokens(text: Bytes): seq<Bytes> {
    Split(text, [])
  }

  method SplitIntoTokens(text: Bytes) returns (tokens: seq<Bytes>)
    ensures tokens == SplitTokens(text)
  {
    tokens := [];
    var cur := [];
    for i := 0 to |text|
      invariant tokens + Split(text[i..], cur) == SplitTokens(text)
    {
      assert text[i..][0] == text[i] && text[i..][1..] == text[i + 1..];
      if text[i] == SPACE {
        if cur != [] {
          assert tokens + ([cur] + Split(text[i + 1..], [])) == tokens + [cur] + Split(text[i + 1..], []);
          tokens := tokens + [cur];
        }
        cur := [];
      } else {
        cur := cur + [text[i]];
      }
    }
    tokens := tokens + [cur];
  }

  predicate SpaceFree(w: Bytes) {
    forall i :: 0 <= i < |w| ==> w[i] != SPACE
  }

  /** A line read word by word: leading spaces, a maximal run of non-spaces, and what follows the next space, if any. */
  datatype Words = Words(word: Bytes, rest: Option<Bytes>)

  function FirstWord(line: Bytes): (r: Words)
    ensures SpaceFree(r.word)
    ensures r.rest.Some? ==> r.word != [] && |r.rest.value| < |line|
    decreases |line|
  {
    if line == [] then Words([], None)
    else if line[0] == SPACE then FirstWord(line[1..])
    else WordFrom(line)
  }

  /** The run of non-spaces that `line` starts with. */
  function WordFrom(line: Bytes): (r: Words)
    ensures SpaceFree(r.word)
    ensures line != [] && line[0] != SPACE ==> r.word != []
    ensures r.rest.Some? ==> |r.rest.value| < |line|
    ensures line == r.word + (match r.rest case None => [] case Some(rest) => [SPACE] + rest)
    decreases |line|
  {
    if line == [] then Words([], None)
    else if line[0] == SPACE then Words([], Some(line[1..]))
    else
      var r := WordFrom(line[1..]);
      Words([line[0]] + r.word, r.rest)
  }

  function AllWords(line: Bytes): seq<Bytes>
    decreases |line|
  {
    var w := FirstWord(line);
    [w.word] + (match w.rest case None => [] case Some(rest) => AllWords(rest))
  }

  lemma {:induction false} SplitCollects(text: Bytes, cur: Bytes)
    requires cur != []
    ensures var r := WordFrom(text);
            Split(text, cur) == [cur + r.word] + (match r.rest case None => [] case Some(rest) => Split(rest, []))
    decreases |text|
  {
    if text == [] {
      assert cur + [] == cur;
    } else if text[0] == SPACE {
      assert cur + [] == cur;
    } else {
      SplitCollects(text[1..], cur + [text[0]]);
      assert cur + [text[0]] + WordFrom(text[1..]).word == cur + ([text[0]] + WordFrom(text[1..]).word);
    }
  }

  /** The splitting loop reads a line word by word. */
  lemma {:induction false} SplitReadsWords(text: Bytes)
    ensures SplitTokens(text) == AllWords(text)
    decreases |text|
  {
    if text == [] {
    } else if text[0] == SPACE {
      SplitReadsWords(text[1..]);
    } else {
      SplitCollects(text[1..], [text[0]]);
      var r := WordFrom(text);
      assert [] + [text[0]] == [text[0]];
      if r.rest.Some? {
        SplitReadsWords(r.rest.value);
      }
    }
  }

  // --- Tails ---

  function JoinTail(tokens: seq<Bytes>): Bytes {
    if tokens == [] then [] else
    var before := JoinTail(tokens[..|tokens| - 1]);
    (if before == [] then [] else before + [SPACE]) + tokens[|tokens| - 1]
  }

  /** Text with every space dropped that follows a space (or the start, if `afterSpace`). */
  function Squeeze(text: Bytes, afterSpace: bool): Bytes
    decreases |text|
  {
    if text == [] then []
    else if text[0] != SPACE then [text[0]] + Squeeze(text[1..], false)
    else if afterSpace then Squeeze(text[1..], true)
    else [SPACE] + Squeeze(text[1..], true)
  }

  /** Leading spaces stripped, runs of spaces collapsed to one. */
  function Collapse(text: Bytes): Bytes {
    Squeeze(text, true)
  }

  lemma {:induction false} SqueezeWord(text: Bytes)
    ensures var r := WordFrom(text);
            Squeeze(text, false) == r.word + (match r.rest case None => [] case Some(rest) => [SPACE] + Squeeze(rest, true))
    decreases |text|
  {
    if text != [] && text[0] != SPACE {
      SqueezeWord(text[1..]);
    }
  }

  lemma {:induction false} CollapseReadsWords(text: Bytes)
    ensures var r := FirstWord(text);
            Collapse(text) == r.word + (match r.rest case None => [] case Some(rest) => [SPACE] + Collapse(rest))
    decreases |text|
  {
    if text != [] {
      if text[0] == SPACE {
        CollapseReadsWords(text[1..]);
      } else {
        SqueezeWord(text[1..]);
      }
    }
  }

  /** All tokens with one space between neighbours. */
  function Spaced(tokens: seq<Bytes>): Bytes {
    if tokens == [] then [] else if |tokens| == 1 then tokens[0] else Spaced(tokens[..|tokens| - 1]) + [SPACE] + tokens[|tokens| - 1]
  }

  lemma {:induction false} JoinTailFront(first: Bytes, tokens: seq<Bytes>)
    requires first != [] && tokens != []
    ensures JoinTail([first] + tokens) == first + [SPACE] + Spaced(tokens)
    decreases |tokens|
  {
    var all, n := [first] + tokens, |tokens| - 1;
    assert all[..n + 1] == [first] + tokens[..n];
    if n == 0 {
      assert JoinTail([first]) == first by { assert [first][..0] == []; }
      assert [] + tokens[0] == tokens[0];
    } else {
      JoinTailFront(first, tokens[..n]);
    }
  }

  lemma {:induction false} SpacedFront(first: Bytes, tokens: seq<Bytes>)
    requires tokens != []
    ensures Spaced([first] + tokens) == first + [SPACE] + Spaced(tokens)
    decreases |tokens|
  {
    var all, n := [first] + tokens, |tokens| - 1;
    assert all[..n + 1] == [first] + tokens[..n];
    if n > 0 {
      SpacedFront(first, tokens[..n]);
    }
  }

  lemma {:induction false} WordsSpaced(text: Bytes)
    ensures Spaced(AllWords(text)) == Collapse(text)
    decreases |text|
  {
    hide Collapse, FirstWord;
    CollapseReadsWords(text);
    var r := FirstWord(text);
    if r.rest.Some? {
      WordsSpaced(r.rest.value);
      SpacedFront(r.word, AllWords(r.rest.value));
      assert r.word + [SPACE] + Collapse(r.rest.value) == r.word + ([SPACE] + Collapse(r.rest.value));
    } else {
      assert [r.word] + [] == [r.word];
      assert r.word + [] == r.word;
    }
  }

  /** A tail capture is the rest of the line, leading spaces stripped and runs of spaces collapsed. */
  lemma TailIsCollapsedLine(text: Bytes)
    ensures JoinTail(SplitTokens(text)) == Collapse(text)
  {
    SplitReadsWords(text);
    WordsSpaced(text);
    var r := FirstWord(text);
    if r.rest.Some? {
      JoinTailFront(r.word, AllWords(r.rest.value));
      SpacedFront(r.word, AllWords(r.rest.value));
    } else {
      assert [r.word] + [] == [r.word];
      assert [r.word][..0] == [];
    }
  }

  method JoinIntoTail(tokens: seq<Bytes>, start: nat) returns (tail: Bytes)
    requires start <= |tokens|
    ensures tail == JoinTail(tokens[start..])
  {
    tail := [];
    for i := start to |tokens|
      invariant tail == JoinTail(tokens[start..i])
    {
      assert tokens[start..i + 1][..i - start] == tokens[start..i];
      if tail != [] {
        tail := tail + [SPACE];
      }
      tail := tail + tokens[i];
    }
    assert tokens[start..|tokens|] == tokens[start..];
  }

  // --- Patterns ---

  datatype PatternToken = Literal(value: Bytes) | Capture(value: Bytes) | TailCapture(value: Bytes)

  datatype Pattern = Pattern(name: Bytes, tokens: seq<PatternToken>)

  predicate EndsWith(s: Bytes, suffix: Bytes) {
    |s| >= |suffix| && s[|s| - |suffix|..] == suffix
  }

  function CompileToken(token: Bytes): PatternToken {
    if EndsWith(token, TAIL_MARK) then TailCapture(token[1..|token| - 3])
    else if token != [] && token[0] == OPEN_BRACE then Capture(if |token| == 1 then [] else token[1..|token| - 1])
    else Literal(token)
  }

  function CompileTokens(tokens: seq<Bytes>): seq<PatternToken> {
    seq(|tokens|, i requires 0 <= i < |tokens| => CompileToken(tokens[i]))
  }

  function Compiled(name: Bytes, template: Bytes): Pattern {
    Pattern(name, CompileTokens(SplitTokens(template)))
  }

  method CompilePattern(name: Bytes, template: Bytes) returns (p: Pattern)
    ensures p == Compiled(name, template)
  {
    var tokens := SplitIntoTokens(template);
    var compiled := [];
    for i := 0 to |tokens|
      invariant compiled == CompileTokens(tokens[..i])
    {
      compiled := compiled + [CompileToken(tokens[i])];
    }
    assert tokens[..|tokens|] == tokens;
    p := Pattern(name, compiled);
  }

  /** The captures of a match of `pattern` against `tokens`, front to back. */
  function Match(pattern: seq<PatternToken>, tokens: seq<Bytes>): Option<seq<Bytes>>
    decreases |pattern|
  {
    if pattern == [] then
      if tokens == [] then Some([]) else None
    else match pattern[0]
      case Literal(value) =>
        if tokens == [] || tokens[0] != value then None else Match(pattern[1..], tokens[1..])
      case Capture(_) =>
        if tokens == [] then None else
        (match Match(pattern[1..], tokens[1..]) case None => None case Some(c) => Some([tokens[0]] + c))
      case TailCapture(_) =>
        if |pattern| != 1 then None else Some([JoinTail(tokens)])
  }

  function Prepended(done: seq<Bytes>, rest: Option<seq<Bytes>>): Option<seq<Bytes>> {
    match rest case None => None case Some(c) => Some(done + c)
  }

  method TryMatch(pattern: Pattern, tokens: seq<Bytes>) returns (captures: Option<seq<Bytes>>)
    ensures captures == Match(pattern.tokens, tokens)
  {
    var p := pattern.tokens;
    var got := [];
    var ii := 0;
    assert Prepended([], Match(p[0..], tokens[0..])) == Match(p, tokens) by {
      assert p[0..] == p && tokens[0..] == tokens;
      match Match(p, tokens)
      case None =>
      case Some(c) => assert [] + c == c;
    }
    for pi := 0 to |p|
      invariant 0 <= ii <= |tokens|
      invariant Prepended(got, Match(p[pi..], tokens[ii..])) == Match(p, tokens)
    {
      assert p[pi..][1..] == p[pi + 1..];
      match p[pi] {
        case Literal(value) =>
          if ii >= |tokens| {
            return None;
          }
          if tokens[ii] != value {
            return None;
          }
          assert tokens[ii..][1..] == tokens[ii + 1..];
          ii := ii + 1;
        case Capture(_) =>
          if ii >= |tokens| {
            return None;
          }
          assert tokens[ii..][1..] == tokens[ii + 1..];
          PrependedOne(got, tokens[ii], Match(p[pi + 1..], tokens[ii + 1..]));
          got := got + [tokens[ii]];
          ii := ii + 1;
        case TailCapture(_) =>
          if pi != |p| - 1 {
            return None;
          }
          var tail := JoinIntoTail(tokens, ii);
          return Some(got + [tail]);
      }
    }
    if ii == |tokens| {
      assert got + [] == got;
      return Some(got);
    }
    return None;
  }

  lemma PrependedOne(done: seq<Bytes>, t: Bytes, rest: Option<seq<Bytes>>)
    ensures Prepended(done, Prepended([t], rest)) == Prepended(done + [t], rest)
  {
    match rest
    case None =>
    case Some(c) => assert done + ([t] + c) == done + [t] + c;
  }

  /** The grammar of a pattern over the text of a line; `None` is a line that has already ended. */
  ghost predicate Derives(pattern: seq<PatternToken>, line: Option<Bytes>, captures: seq<Bytes>)
    decreases |pattern|
  {
    if pattern == [] then line.None? && captures == [] else
    match pattern[0]
    case Literal(value) =>
      line.Some? && FirstWord(line.value).word == value && Derives(pattern[1..], FirstWord(line.value).rest, captures)
    case Capture(_) =>
      line.Some? && captures != [] && captures[0] == FirstWord(line.value).word
      && Derives(pattern[1..], FirstWord(line.value).rest, captures[1..])
    case TailCapture(_) =>
      |pattern| == 1 && captures == [match line case None => [] case Some(text) => Collapse(text)]
  }

  function TokensOf(line: Option<Bytes>): seq<Bytes> {
    match line case None => [] case Some(text) => SplitTokens(text)
  }

  /** Matching tokens is deriving the line: for every pattern, every line and every list of captures. */
  lemma {:induction false} MatchIffDerives(pattern: seq<PatternToken>, line: Option<Bytes>, captures: seq<Bytes>)
    ensures Match(pattern, TokensOf(line)) == Some(captures) <==> Derives(pattern, line, captures)
    decreases |pattern|
  {
    var tokens := TokensOf(line);
    if line.Some? {
      SplitReadsWords(line.value);
      var r := FirstWord(line.value);
      if r.rest.Some? {
        SplitReadsWords(r.rest.value);
      }
      assert tokens == [r.word] + TokensOf(r.rest);
      assert tokens[1..] == TokensOf(r.rest);
      if pattern != [] {
        match pattern[0]
        case Literal(_) =>
          MatchIffDerives(pattern[1..], r.rest, captures);
        case Capture(_) =>
          if captures != [] {
            MatchIffDerives(pattern[1..], r.rest, captures[1..]);
            assert captures == [captures[0]] + captures[1..];
          }
        case TailCapture(_) =>
          TailIsCollapsedLine(line.value);
      }
    }
  }

  // --- Writing a line for a pattern ---

  lemma {:induction false} WordThenSpace(w: Bytes, rest: Bytes)
    requires SpaceFree(w)
    ensures WordFrom(w + [SPACE] + rest) == Words(w, Some(rest))
  {
    var line := w + [SPACE] + rest;
    if w == [] {
      assert line == [SPACE] + rest;
    } else {
      assert line[1..] == w[1..] + [SPACE] + rest;
      WordThenSpace(w[1..], rest);
      assert [w[0]] + w[1..] == w;
    }
  }

  lemma {:induction false} WordThenEnd(w: Bytes)
    requires SpaceFree(w)
    ensures WordFrom(w) == Words(w, None) && FirstWord(w) == Words(w, None)
  {
    if w != [] {
      WordThenEnd(w[1..]);
      assert [w[0]] + w[1..] == w;
    }
  }

  /** A line whose first word is `w`, when `w` is one. */
  lemma FirstWordOf(w: Bytes, rest: Bytes)
    requires SpaceFree(w)
    ensures w != [] ==> FirstWord(w + [SPACE] + rest) == Words(w, Some(rest))
    ensures w == [] ==> FirstWord(w + [SPACE] + rest) == FirstWord(rest)
  {
    WordThenSpace(w, rest);
    if w == [] {
      assert (w + [SPACE] + rest)[1..] == rest;
    }
  }

  /** Literals and non-final captures take one word; a tail capture comes last if at all. */
  predicate WellFormed(pattern: seq<PatternToken>)
    decreases |pattern|
  {
    && pattern != []
    && (pattern[0].Literal? ==> SpaceFree(pattern[0].value) && pattern[0].value != [])
    && (pattern[0].TailCapture? ==> |pattern| == 1)
    && (|pattern| > 1 ==> WellFormed(pattern[1..]))
  }

  function Arity(pattern: seq<PatternToken>): nat {
    if pattern == [] then 0 else (if pattern[0].Literal? then 0 else 1) + Arity(pattern[1..])
  }

  /** The line that spells out a pattern with given arguments, single spaces between the parts. */
  function Render(pattern: seq<PatternToken>, args: seq<Bytes>): Bytes
    requires |args| == Arity(pattern)
    decreases |pattern|
  {
    if pattern == [] then []
    else if |pattern| == 1 then (if pattern[0].Literal? then pattern[0].value else args[0])
    else if pattern[0].Literal? then pattern[0].value + [SPACE] + Render(pattern[1..], args)
    else args[0] + [SPACE] + Render(pattern[1..], args[1..])
  }

  /** The argument lists that a pattern can spell: captures are words, non-empty unless nothing follows them; a tail
      has no leading and no repeated spaces. */
  predicate InLanguage(pattern: seq<PatternToken>, args: seq<Bytes>)
    requires |args| == Arity(pattern)
    decreases |pattern|
  {
    if pattern == [] then true
    else match pattern[0]
      case Literal(_) => InLanguage(pattern[1..], args)
      case TailCapture(_) => Collapse(args[0]) == args[0]
      case Capture(_) =>
        && SpaceFree(args[0])
        && (args[0] == [] && |pattern| > 1 ==> |pattern| == 2 && pattern[1].TailCapture? && args[1..] == [[]])
        && InLanguage(pattern[1..], args[1..])
  }

  lemma {:induction false} SqueezeAgain(text: Bytes, afterSpace: bool)
    ensures Squeeze(Squeeze(text, afterSpace), afterSpace) == Squeeze(text, afterSpace)
    decreases |text|
  {
    if text != [] {
      var tail := Squeeze(text[1..], text[0] == SPACE);
      SqueezeAgain(text[1..], text[0] == SPACE);
      if text[0] != SPACE {
        assert ([text[0]] + tail)[1..] == tail;
      } else if !afterSpace {
        assert ([SPACE] + tail)[1..] == tail;
      }
    }
  }

  /** What a line derives is always in the language of the pattern. */
  lemma {:induction false} DerivedIsInLanguage(pattern: seq<PatternToken>, line: Option<Bytes>, args: seq<Bytes>)
    requires WellFormed(pattern) || pattern == []
    requires Derives(pattern, line, args)
    ensures |args| == Arity(pattern) && InLanguage(pattern, args)
    decreases |pattern|
  {
    if pattern != [] {
      match pattern[0]
      case Literal(_) =>
        DerivedIsInLanguage(pattern[1..], FirstWord(line.value).rest, args);
      case Capture(_) =>
        DerivedIsInLanguage(pattern[1..], FirstWord(line.value).rest, args[1..]);
      case TailCapture(_) =>
        assert pattern[1..] == [];
        if line.Some? {
          SqueezeAgain(line.value, true);
        }
    }
  }

  /** The rendered line derives exactly the arguments it was rendered from. */
  lemma {:induction false} RenderedDerives(pattern: seq<PatternToken>, args: seq<Bytes>)
    requires WellFormed(pattern) && |args| == Arity(pattern) && InLanguage(pattern, args)
    ensures Derives(pattern, Some(Render(pattern, args)), args)
    decreases |pattern|
  {
    var line := Render(pattern, args);
    match pattern[0]
    case Literal(value) =>
      if |pattern| == 1 {
        WordThenEnd(value);
        assert pattern[1..] == [];
      } else {
        FirstWordOf(value, Render(pattern[1..], args));
        RenderedDerives(pattern[1..], args);
      }
    case Capture(_) =>
      assert args == [args[0]] + args[1..];
      if |pattern| == 1 {
        WordThenEnd(args[0]);
        assert pattern[1..] == [] && args[1..] == [];
      } else {
        FirstWordOf(args[0], Render(pattern[1..], args[1..]));
        if args[0] == [] {
          assert Render(pattern[1..], args[1..]) == [];
          assert args[1..] == [[]];
        } else {
          RenderedDerives(pattern[1..], args[1..]);
        }
      }
    case TailCapture(_) =>
      assert args == [args[0]];
  }

  /** Matching a rendered line gives the arguments back exactly when they are in the language. */
  lemma RenderMatchIff(pattern: seq<PatternToken>, args: seq<Bytes>)
    requires WellFormed(pattern) && |args| == Arity(pattern)
    ensures Match(pattern, SplitTokens(Render(pattern, args))) == Some(args) <==> InLanguage(pattern, args)
  {
    var line := Some(Render(pattern, args));
    MatchIffDerives(pattern, line, args);
    if InLanguage(pattern, args) {
      RenderedDerives(pattern, args);
    } else if Derives(pattern, line, args) {
      DerivedIsInLanguage(pattern, line, args);
    }
  }
}
