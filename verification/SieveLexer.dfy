/** The hand-written lexer of the Sieve subset: a specification on positions of the source text,
    and the stateful scanner that computes it. */
module SieveLexer {
  import opened Wrappers

  datatype TokKind =
    | Word | Str | LBracket | RBracket | LParen | RParen | LBrace | RBrace
    | Semicolon | Comma | ColonTag | Eof

  datatype Token = Token(kind: TokKind, text: string, line: nat)

  datatype Reason =
    | UnterminatedComment
    | UnterminatedString
    | UnexpectedCharacter(c: char)
    | Expected(what: string, got: string)
    | NestingTooDeep
    | UnsupportedTag(tag: string)
    | UnsupportedCapability(capability: string)
    | NoFields
    | UnsupportedField(field: string)
    | UnknownTest(word: string)
    | UnknownAction(word: string)
    | UnbalancedBraces
    | ContentAfterRule

  /** Every error names a 1-based line. */
  datatype ScriptError = ScriptError(line: nat, reason: Reason)

  predicate IsWordRune(c: char) {
    c == '_' || 'a' <= c <= 'z' || 'A' <= c <= 'Z' || '0' <= c <= '9'
  }

  predicate IsBlank(c: char) {
    c == ' ' || c == '\t' || c == '\r' || c == '\n'
  }

  function Punctuation(c: char): Option<TokKind> {
    match c
    case '[' => Some(LBracket)
    case ']' => Some(RBracket)
    case '(' => Some(LParen)
    case ')' => Some(RParen)
    case '{' => Some(LBrace)
    case '}' => Some(RBrace)
    case ';' => Some(Semicolon)
    case ',' => Some(Comma)
    case _ => None
  }

  // ---------- Specification ----------

  function Newlines(src: string, pos: nat): nat
    requires pos <= |src|
  {
    if pos == 0 then 0
    else Newlines(src, pos - 1) + (if src[pos - 1] == '\n' then 1 else 0)
  }

  /** The 1-based line of a position. */
  function LineAt(src: string, pos: nat): nat
    requires pos <= |src|
  {
    1 + Newlines(src, pos)
  }

  /** The position after the line that holds `pos`. */
  function LineEnd(src: string, pos: nat): (end: nat)
    requires pos <= |src|
    ensures pos <= end <= |src|
    decreases |src| - pos
  {
    if pos == |src| then pos
    else if src[pos] == '\n' then pos + 1
    else LineEnd(src, pos + 1)
  }

  /** The position after the first comment close at or after `pos`. */
  function CommentEnd(src: string, pos: nat): (end: Option<nat>)
    requires pos <= |src|
    ensures end.Some? ==> pos < end.value <= |src|
    decreases |src| - pos
  {
    if pos == |src| then None
    else if src[pos] == '*' && pos + 1 < |src| && src[pos + 1] == '/' then Some(pos + 2)
    else CommentEnd(src, pos + 1)
  }

  /** The first position at or after `pos` that starts neither white space nor a comment. */
  function SkipBlank(src: string, pos: nat): (r: Result<nat, ScriptError>)
    requires pos <= |src|
    ensures r.Ok? ==> pos <= r.value <= |src|
    decreases |src| - pos
  {
    if pos == |src| then Ok(pos)
    else if IsBlank(src[pos]) then SkipBlank(src, pos + 1)
    else if src[pos] == '#' then SkipBlank(src, LineEnd(src, pos + 1))
    else if src[pos] == '/' && pos + 1 < |src| && src[pos + 1] == '*' then
      match CommentEnd(src, pos + 2)
      case None => Err(ScriptError(LineAt(src, pos), UnterminatedComment))
      case Some(end) => SkipBlank(src, end)
    else Ok(pos)
  }

  function WordEnd(src: string, pos: nat): (end: nat)
    requires pos <= |src|
    ensures pos <= end <= |src|
    ensures pos < |src| && IsWordRune(src[pos]) ==> pos < end
    decreases |src| - pos
  {
    if pos < |src| && IsWordRune(src[pos]) then WordEnd(src, pos + 1) else pos
  }

  /** The text of the string literal whose body starts at `pos`, and the position after its
      closing quote.  A backslash keeps the character after it. */
  function ReadString(src: string, pos: nat): (r: Option<(string, nat)>)
    requires pos <= |src|
    ensures r.Some? ==> pos < r.value.1 <= |src|
    decreases |src| - pos
  {
    if pos == |src| then None
    else if src[pos] == '"' then Some(("", pos + 1))
    else if src[pos] == '\\' then
      if pos + 1 == |src| then None
      else Prefixed([src[pos + 1]], ReadString(src, pos + 2))
    else Prefixed([src[pos]], ReadString(src, pos + 1))
  }

  function Prefixed(head: string, tail: Option<(string, nat)>): Option<(string, nat)> {
    match tail
    case None => None
    case Some((text, end)) => Some((head + text, end))
  }

  /** The token that starts at `pos`, and the position after it. */
  function LexToken(src: string, pos: nat): (r: Result<(Token, nat), ScriptError>)
    requires pos < |src|
    ensures r.Ok? ==> pos < r.value.1 <= |src|
  {
    var line := LineAt(src, pos);
    var c := src[pos];
    if Punctuation(c).Some? then Ok((Token(Punctuation(c).value, [c], line), pos + 1))
    else if c == '"' then
      match ReadString(src, pos + 1)
      case None => Err(ScriptError(line, UnterminatedString))
      case Some((text, end)) => Ok((Token(Str, text, line), end))
    else if c == ':' then
      var end := WordEnd(src, pos + 1);
      Ok((Token(ColonTag, src[pos + 1..end], line), end))
    else if IsWordRune(c) then
      var end := WordEnd(src, pos);
      Ok((Token(Word, src[pos..end], line), end))
    else Err(ScriptError(line, UnexpectedCharacter(c)))
  }

  /** The tokens from `pos` to the end of the text, closed by one end-of-file token. */
  function Lex(src: string, pos: nat): (r: Result<seq<Token>, ScriptError>)
    requires pos <= |src|
    ensures r.Ok? ==> Terminated(r.value)
    decreases |src| - pos
  {
    match SkipBlank(src, pos)
    case Err(e) => Err(e)
    case Ok(start) =>
      if start == |src| then Ok([Token(Eof, "", LineAt(src, start))])
      else
        match LexToken(src, start)
        case Err(e) => Err(e)
        case Ok((token, end)) =>
          match Lex(src, end)
          case Err(e) => Err(e)
          case Ok(rest) => Ok([token] + rest)
  }

  predicate Terminated(toks: seq<Token>) {
    |toks| > 0 && toks[|toks| - 1].kind == Eof
  }

  /** The end-of-file token is the last one and only the last one, and line numbers never go
      down from one token to the next nor past the number of lines of the text. */
  lemma {:induction false} LexShape(src: string, pos: nat)
    requires pos <= |src|
    requires Lex(src, pos).Ok?
    ensures var toks := Lex(src, pos).value;
            && (forall i :: 0 <= i < |toks| - 1 ==> toks[i].kind != Eof)
            && (forall i :: 0 <= i < |toks| ==> LineAt(src, pos) <= toks[i].line <= LineAt(src, |src|))
            && (forall i, j :: 0 <= i <= j < |toks| ==> toks[i].line <= toks[j].line)
    decreases |src| - pos
  {
    var start := SkipBlank(src, pos).value;
    NewlinesMonotone(src, pos, start);
    NewlinesMonotone(src, start, |src|);
    if start < |src| {
      var end := LexToken(src, start).value.1;
      NewlinesMonotone(src, start, end);
      LexShape(src, end);
    }
  }

  lemma NewlinesMonotone(src: string, a: nat, b: nat)
    requires a <= b <= |src|
    ensures Newlines(src, a) <= Newlines(src, b)
    decreases b
  {
    if a < b {
      NewlinesMonotone(src, a, b - 1);
    }
  }

  // ---------- The scanner ----------

  class Lexer {
    const src: string
    var pos: nat
    var line: nat

    ghost predicate Valid()
      reads this
    {
      pos <= |src| && line == LineAt(src, pos)
    }

    constructor (text: string)
      ensures Valid() && src == text && pos == 0
    {
      src := text;
      pos := 0;
      line := 1;
    }

    method Advance() returns (r: Option<char>)
      requires Valid()
      modifies this
      ensures Valid()
      ensures old(pos) == |src| ==> r == None && pos == old(pos)
      ensures old(pos) < |src| ==> r == Some(src[old(pos)]) && pos == old(pos) + 1
    {
      if pos == |src| {
        return None;
      }
      r := Some(src[pos]);
      if src[pos] == '\n' {
        line := line + 1;
      }
      pos := pos + 1;
    }

    /** Reads the rest of the line, its end included. */
    method SkipLine()
      requires Valid()
      modifies this
      ensures Valid() && pos == LineEnd(src, old(pos))
    {
      hide LineAt;
      var done := false;
      while !done
        invariant Valid() && old(pos) <= pos
        invariant LineEnd(src, old(pos)) == if done then pos else LineEnd(src, pos)
        decreases |src| - pos, !done
      {
        var c := Advance();
        done := c == None || c.value == '\n';
      }
    }

    /** Reads up to the end of a block comment, if there is one. */
    method SkipBlockComment() returns (closed: bool)
      requires Valid()
      modifies this
      ensures Valid()
      ensures match CommentEnd(src, old(pos))
              case None => !closed
              case Some(end) => closed && pos == end
    {
      hide LineAt;
      closed := false;
      while !closed && pos < |src|
        invariant Valid() && old(pos) <= pos
        invariant CommentEnd(src, old(pos)) == if closed then Some(pos) else CommentEnd(src, pos)
        decreases |src| - pos
      {
        var c := Advance();
        if c == Some('*') && pos < |src| && src[pos] == '/' {
          var _ := Advance();
          closed := true;
        }
      }
    }

    method SkipWhitespaceAndComments() returns (r: Option<ScriptError>)
      requires Valid()
      modifies this
      ensures Valid()
      ensures match SkipBlank(src, old(pos))
              case Ok(end) => r == None && pos == end
              case Err(e) => r == Some(e)
    {
      hide LineAt, LineEnd, CommentEnd;
      while pos < |src|
        invariant Valid()
        invariant SkipBlank(src, old(pos)) == SkipBlank(src, pos)
        decreases |src| - pos
      {
        if IsBlank(src[pos]) {
          var _ := Advance();
        } else if src[pos] == '#' {
          var _ := Advance();
          SkipLine();
        } else if src[pos] == '/' && pos + 1 < |src| && src[pos + 1] == '*' {
          var startLine := line;
          var _ := Advance();
          var _ := Advance();
          var closed := SkipBlockComment();
          if !closed {
            return Some(ScriptError(startLine, UnterminatedComment));
          }
        } else {
          return None;
        }
      }
      r := None;
    }

    /** Scans a maximal run of word characters. */
    method ScanWord() returns (text: string)
      requires Valid()
      modifies this
      ensures Valid()
      ensures pos == WordEnd(src, old(pos)) && text == src[old(pos)..pos]
    {
      text := "";
      while pos < |src| && IsWordRune(src[pos])
        invariant Valid() && old(pos) <= pos
        invariant WordEnd(src, old(pos)) == WordEnd(src, pos)
        invariant text == src[old(pos)..pos]
        decreases |src| - pos
      {
        text := text + [src[pos]];
        var _ := Advance();
      }
    }

    /** Scans the body of a string literal, the opening quote being consumed already. */
    method ScanString() returns (text: Option<string>)
      requires Valid()
      modifies this
      ensures Valid()
      ensures match ReadString(src, old(pos))
              case None => text == None
              case Some((t, end)) => text == Some(t) && pos == end
    {
      var sb := "";
      assert forall t: string :: sb + t == t;
      while pos < |src|
        invariant Valid() && old(pos) <= pos
        invariant ReadString(src, old(pos)) == Prefixed(sb, ReadString(src, pos))
        decreases |src| - pos
      {
        var c := Advance();
        if c == Some('"') {
          assert sb + "" == sb;
          return Some(sb);
        }
        if c == Some('\\') {
          var c2 := Advance();
          if c2.Some? {
            PrefixedTwice(sb, [c2.value], ReadString(src, pos));
            sb := sb + [c2.value];
          }
        } else {
          PrefixedTwice(sb, [c.value], ReadString(src, pos));
          sb := sb + [c.value];
        }
      }
      text := None;
    }
  }

  lemma PrefixedTwice(a: string, b: string, tail: Option<(string, nat)>)
    ensures Prefixed(a, Prefixed(b, tail)) == Prefixed(a + b, tail)
  {
    if tail.Some? {
      assert a + (b + tail.value.0) == (a + b) + tail.value.0;
    }
  }

  function Then(out: seq<Token>, tail: Result<seq<Token>, ScriptError>): Result<seq<Token>, ScriptError> {
    match tail
    case Err(e) => Err(e)
    case Ok(rest) => Ok(out + rest)
  }

  method LexSieve(text: string) returns (r: Result<seq<Token>, ScriptError>)
    ensures r == Lex(text, 0)
  {
    hide Lex, SkipBlank, ReadString, WordEnd, LineAt, Terminated;
    var l := new Lexer(text);
    var out: seq<Token> := [];
    ThenNothing(Lex(text, 0));
    while true
      invariant l.Valid() && l.src == text && fresh(l)
      invariant Lex(text, 0) == Then(out, Lex(text, l.pos))
      decreases |text| - l.pos
    {
      ghost var before := l.pos;
      LexEnds(text, before);
      var blank := l.SkipWhitespaceAndComments();
      if blank.Some? {
        return Err(blank.value);
      }
      if l.pos == |text| {
        return Ok(out + [Token(Eof, "", l.line)]);
      }
      ghost var start := l.pos;
      var line := l.line;
      var c := text[l.pos];
      var token;
      if Punctuation(c).Some? {
        var _ := l.Advance();
        token := Token(Punctuation(c).value, [c], line);
      } else if c == '"' {
        var _ := l.Advance();
        var s := l.ScanString();
        if s == None {
          return Err(ScriptError(line, UnterminatedString));
        }
        token := Token(Str, s.value, line);
      } else if c == ':' {
        var _ := l.Advance();
        var word := l.ScanWord();
        token := Token(ColonTag, word, line);
      } else if !IsWordRune(c) {
        return Err(ScriptError(line, UnexpectedCharacter(c)));
      } else {
        var word := l.ScanWord();
        token := Token(Word, word, line);
      }
      assert LexToken(text, start) == Ok((token, l.pos));
      ThenStep(text, out, before, start, token, l.pos);
      out := out + [token];
    }
  }

  lemma ThenNothing(tail: Result<seq<Token>, ScriptError>)
    ensures Then([], tail) == tail
  {
    if tail.Ok? {
      assert [] + tail.value == tail.value;
    }
  }

  /** The three ways the token list ends at a position. */
  lemma LexEnds(src: string, pos: nat)
    requires pos <= |src|
    ensures match SkipBlank(src, pos)
            case Err(e) => Lex(src, pos) == Err(e)
            case Ok(start) =>
              if start == |src| then Lex(src, pos) == Ok([Token(Eof, "", LineAt(src, start))])
              else LexToken(src, start).Err? ==> Lex(src, pos) == Err(LexToken(src, start).error)
  {
    hide LexToken, SkipBlank, LineAt;
  }

  lemma ThenStep(src: string, out: seq<Token>, before: nat, start: nat, token: Token, end: nat)
    requires before <= start < |src| && SkipBlank(src, before) == Ok(start)
    requires LexToken(src, start) == Ok((token, end))
    ensures Then(out, Lex(src, before)) == Then(out + [token], Lex(src, end))
  {
    if Lex(src, end).Ok? {
      assert out + ([token] + Lex(src, end).value) == (out + [token]) + Lex(src, end).value;
    }
  }
}
