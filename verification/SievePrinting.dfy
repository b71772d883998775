/** The lexer inverts any well-spaced rendering, and the compiler's output is one. */
module SievePrinting {
  import opened Wrappers
  import opened SieveLexer
  import opened SieveCompiler
  import opened SieveGrammar

  // ---------- What the lexer makes of a quoted string ----------

  /** A character that quoting and lexing give back unchanged. */
  predicate QuotableChar(c: char, wide: char -> bool) {
    c == '"' || c == '\\' || IsPrint(c, wide)
  }

  predicate Quotable(s: string, wide: char -> bool) {
    forall i :: 0 <= i < |s| ==> QuotableChar(s[i], wide)
  }

  /** What the lexer reads from a quoted string: an unprintable character loses its backslash. */
  function Reread(s: string, wide: char -> bool): string {
    if s == "" then ""
    else (if QuotableChar(s[0], wide) then [s[0]] else EscapeTail(s[0])) + Reread(s[1..], wide)
  }

  predicate Harmless(c: char) {
    c != '"' && c != '\\'
  }

  lemma HexHarmless(n: nat, width: nat)
    ensures forall i :: 0 <= i < width ==> Harmless(Hex(n, width)[i])
  {
    if width > 0 {
      HexHarmless(n / 16, width - 1);
    }
  }

  /** Escape sequences start with a printable letter and contain no quote and no backslash. */
  lemma EscapeTailHarmless(c: char, wide: char -> bool)
    ensures forall i :: 0 <= i < |EscapeTail(c)| ==> Harmless(EscapeTail(c)[i])
    ensures IsPrint(EscapeTail(c)[0], wide)
  {
    HexHarmless(c as int, 2);
    HexHarmless(c as int, 4);
    HexHarmless(c as int, 8);
  }

  /** A value survives quoting and lexing exactly when all its characters are quotable. */
  lemma {:induction false} RereadExact(s: string, wide: char -> bool)
    ensures Reread(s, wide) == s <==> Quotable(s, wide)
  {
    if s != "" {
      RereadExact(s[1..], wide);
      assert s == [s[0]] + s[1..];
      assert Quotable(s, wide) <==> QuotableChar(s[0], wide) && Quotable(s[1..], wide) by {
        assert forall i :: 0 < i < |s| ==> s[i] == s[1..][i - 1];
        assert forall i :: 0 <= i < |s[1..]| ==> s[1..][i] == s[i + 1];
      }
      if !QuotableChar(s[0], wide) {
        EscapeTailHarmless(s[0], wide);
        assert Reread(s, wide)[0] == EscapeTail(s[0])[0];
        assert Reread(s, wide)[0] != s[0];
      } else {
        assert Reread(s, wide)[1..] == Reread(s[1..], wide);
      }
    }
  }

  lemma DropPrefix(src: string, pos: nat, a: string, b: string)
    requires pos <= |src| && src[pos..] == a + b
    ensures pos + |a| <= |src| && src[pos + |a|..] == b
    ensures forall i :: 0 <= i < |a| ==> src[pos + i] == a[i]
  {
    assert src[pos..][|a|..] == src[pos + |a|..];
    forall i | 0 <= i < |a|
      ensures src[pos + i] == a[i]
    {
      assert src[pos..][i] == src[pos + i];
    }
  }

  lemma {:induction false} ReadHarmless(src: string, pos: nat, run: string, rest: string)
    requires pos <= |src| && src[pos..] == run + rest
    requires forall i :: 0 <= i < |run| ==> Harmless(run[i])
    ensures pos + |run| <= |src|
    ensures ReadString(src, pos) == Prefixed(run, ReadString(src, pos + |run|))
    decreases |run|
  {
    DropPrefix(src, pos, run, rest);
    if run == "" {
      assert forall t: string :: "" + t == t;
    } else {
      assert src[pos] == run[0];
      assert run + rest == [run[0]] + (run[1..] + rest);
      DropPrefix(src, pos, [run[0]], run[1..] + rest);
      ReadHarmless(src, pos + 1, run[1..], rest);
      PrefixedTwice([run[0]], run[1..], ReadString(src, pos + |run|));
      assert [run[0]] + run[1..] == run;
    }
  }

  lemma {:induction false} ReadEscape(src: string, pos: nat, tail: string, rest: string)
    requires pos <= |src| && src[pos..] == (['\\'] + tail) + rest
    requires tail != "" && forall i :: 0 <= i < |tail| ==> Harmless(tail[i])
    ensures pos + 1 + |tail| <= |src|
    ensures ReadString(src, pos) == Prefixed(tail, ReadString(src, pos + 1 + |tail|))
  {
    var more := tail[1..] + rest;
    assert (['\\'] + tail) + rest == ['\\', tail[0]] + more;
    DropPrefix(src, pos, ['\\', tail[0]], more);
    assert src[pos + 0] == '\\' && src[pos + 1] == tail[0];
    ReadHarmless(src, pos + 2, tail[1..], rest);
    PrefixedTwice([tail[0]], tail[1..], ReadString(src, pos + 1 + |tail|));
    assert [tail[0]] + tail[1..] == tail;
  }

  /** One quoted character is read back as what `Reread` says. */
  lemma {:induction false} ReadQuotedChar(src: string, pos: nat, c: char, wide: char -> bool, rest: string)
    requires pos <= |src| && src[pos..] == QuoteChar(c, wide) + rest
    ensures pos + |QuoteChar(c, wide)| <= |src|
    ensures ReadString(src, pos)
         == Prefixed(if QuotableChar(c, wide) then [c] else EscapeTail(c), ReadString(src, pos + |QuoteChar(c, wide)|))
  {
    hide EscapeTail, IsPrint;
    DropPrefix(src, pos, QuoteChar(c, wide), rest);
    if c == '"' || c == '\\' {
      assert src[pos + 0] == '\\' && src[pos + 1] == c;
    } else if IsPrint(c, wide) {
      assert src[pos + 0] == c;
    } else {
      EscapeTailHarmless(c, wide);
      ReadEscape(src, pos, EscapeTail(c), rest);
    }
  }

  lemma {:induction false} ReadQuoted(src: string, pos: nat, s: string, wide: char -> bool, rest: string)
    requires pos <= |src| && src[pos..] == QuoteBody(s, wide) + ("\"" + rest)
    ensures pos + |QuoteBody(s, wide)| + 1 <= |src|
    ensures ReadString(src, pos) == Some((Reread(s, wide), pos + |QuoteBody(s, wide)| + 1))
    decreases |s|
  {
    hide QuoteChar, EscapeTail, QuotableChar;
    if s == "" {
      Assoc("", "\"", rest);
      DropPrefix(src, pos, "\"", rest);
      assert src[pos + 0] == '"';
    } else {
      var first, more := QuoteChar(s[0], wide), QuoteBody(s[1..], wide);
      Assoc(first, more, "\"" + rest);
      DropPrefix(src, pos, first, more + ("\"" + rest));
      ReadQuoted(src, pos + |first|, s[1..], wide, rest);
      ReadQuotedChar(src, pos, s[0], wide, more + ("\"" + rest));
    }
  }

  // ---------- Pieces of a script ----------

  /** A piece of rendered text: a token or blank space. */
  datatype Piece =
    | WordPiece(text: string)
    | TagPiece(text: string)
    | StrPiece(value: string)
    | Punct(c: char)
    | Blank(text: string)

  predicate AllWordRunes(s: string) {
    forall i :: 0 <= i < |s| ==> IsWordRune(s[i])
  }

  predicate PieceOk(p: Piece) {
    match p
    case WordPiece(text) => text != "" && AllWordRunes(text)
    case TagPiece(text) => AllWordRunes(text)
    case StrPiece(_) => true
    case Punct(c) => Punctuation(c).Some?
    case Blank(text) => text != "" && forall i :: 0 <= i < |text| ==> IsBlank(text[i])
  }

  /** No word runs into the next one. */
  predicate Spaced(ps: seq<Piece>) {
    && (forall i :: 0 <= i < |ps| ==> PieceOk(ps[i]))
    && (forall i :: 0 <= i < |ps| && (ps[i].WordPiece? || ps[i].TagPiece?) ==>
          i + 1 < |ps| && !ps[i + 1].WordPiece?)
  }

  function RenderPiece(p: Piece, wide: char -> bool): string {
    match p
    case WordPiece(text) => text
    case TagPiece(text) => ":" + text
    case StrPiece(value) => Quote(value, wide)
    case Punct(c) => [c]
    case Blank(text) => text
  }

  function Render(ps: seq<Piece>, wide: char -> bool): string {
    if ps == [] then "" else RenderPiece(ps[0], wide) + Render(ps[1..], wide)
  }

  function PieceLexemes(p: Piece, wide: char -> bool): seq<Lexeme> {
    match p
    case WordPiece(text) => [Lexeme(Word, text)]
    case TagPiece(text) => [Lexeme(ColonTag, text)]
    case StrPiece(value) => [Lexeme(Str, Reread(value, wide))]
    case Punct(c) => if Punctuation(c).Some? then [Lexeme(Punctuation(c).value, [c])] else []
    case Blank(_) => []
  }

  function Lexemes(ps: seq<Piece>, wide: char -> bool): seq<Lexeme> {
    if ps == [] then [] else PieceLexemes(ps[0], wide) + Lexemes(ps[1..], wide)
  }

  lemma {:induction false} RenderAppend(a: seq<Piece>, b: seq<Piece>, wide: char -> bool)
    ensures Render(a + b, wide) == Render(a, wide) + Render(b, wide)
    ensures Lexemes(a + b, wide) == Lexemes(a, wide) + Lexemes(b, wide)
    decreases |a|
  {
    if a == [] {
      assert a + b == b;
      assert "" + Render(b, wide) == Render(b, wide);
      assert [] + Lexemes(b, wide) == Lexemes(b, wide);
    } else {
      assert (a + b)[0] == a[0] && (a + b)[1..] == a[1..] + b;
      RenderAppend(a[1..], b, wide);
      Assoc(RenderPiece(a[0], wide), Render(a[1..], wide), Render(b, wide));
      Assoc(PieceLexemes(a[0], wide), Lexemes(a[1..], wide), Lexemes(b, wide));
    }
  }

  lemma {:induction false} RenderOne(p: Piece, wide: char -> bool)
    ensures Render([p], wide) == RenderPiece(p, wide)
    ensures Lexemes([p], wide) == PieceLexemes(p, wide)
  {
    hide RenderPiece, PieceLexemes;
    assert [p][1..] == [];
    assert RenderPiece(p, wide) + "" == RenderPiece(p, wide);
    assert PieceLexemes(p, wide) + [] == PieceLexemes(p, wide);
  }

  lemma {:induction false} RenderTwo(p: Piece, q: Piece, wide: char -> bool)
    ensures Render([p, q], wide) == RenderPiece(p, wide) + RenderPiece(q, wide)
    ensures Lexemes([p, q], wide) == PieceLexemes(p, wide) + PieceLexemes(q, wide)
  {
    hide RenderPiece, PieceLexemes;
    assert [p, q] == [p] + [q];
    RenderAppend([p], [q], wide);
    RenderOne(p, wide);
    RenderOne(q, wide);
  }

  lemma SpacedAppend(a: seq<Piece>, b: seq<Piece>)
    requires Spaced(a) && Spaced(b)
    ensures Spaced(a + b)
  {
  }

  // ---------- Lexing rendered pieces ----------

  lemma {:induction false} SkipBlankRun(src: string, pos: nat, run: string, rest: string)
    requires pos <= |src| && src[pos..] == run + rest
    requires forall i :: 0 <= i < |run| ==> IsBlank(run[i])
    ensures pos + |run| <= |src| && SkipBlank(src, pos) == SkipBlank(src, pos + |run|)
    decreases |run|
  {
    DropPrefix(src, pos, run, rest);
    if run != "" {
      assert src[pos + 0] == run[0];
      assert run + rest == [run[0]] + (run[1..] + rest);
      DropPrefix(src, pos, [run[0]], run[1..] + rest);
      SkipBlankRun(src, pos + 1, run[1..], rest);
    }
  }

  lemma {:induction false} WordRun(src: string, pos: nat, run: string, rest: string)
    requires pos <= |src| && src[pos..] == run + rest
    requires AllWordRunes(run) && (rest == "" || !IsWordRune(rest[0]))
    ensures pos + |run| <= |src| && WordEnd(src, pos) == pos + |run|
    decreases |run|
  {
    DropPrefix(src, pos, run, rest);
    if run != "" {
      assert src[pos + 0] == run[0];
      assert run + rest == [run[0]] + (run[1..] + rest);
      DropPrefix(src, pos, [run[0]], run[1..] + rest);
      WordRun(src, pos + 1, run[1..], rest);
    } else if rest != "" {
      assert src[pos..][0] == rest[0];
    }
  }

  /** The piece `p` is written at `pos` and lexed as one token. */
  ghost predicate LexedAs(src: string, pos: nat, p: Piece, wide: char -> bool) {
    && pos < |src| && SkipBlank(src, pos) == Ok(pos)
    && |PieceLexemes(p, wide)| == 1
    && LexToken(src, pos).Ok?
    && LexToken(src, pos).value.1 == pos + |RenderPiece(p, wide)| <= |src|
    && Same(LexToken(src, pos).value.0, PieceLexemes(p, wide)[0])
  }

  lemma NotBlank(src: string, pos: nat)
    requires pos < |src| && !IsBlank(src[pos]) && src[pos] != '#' && src[pos] != '/'
    ensures SkipBlank(src, pos) == Ok(pos)
  {
  }

  lemma {:induction false} LexWordPiece(src: string, pos: nat, p: Piece, wide: char -> bool, rest: string)
    requires pos <= |src| && src[pos..] == RenderPiece(p, wide) + rest
    requires PieceOk(p) && (p.WordPiece? || p.TagPiece?)
    requires rest == "" || !IsWordRune(rest[0])
    ensures LexedAs(src, pos, p, wide)
  {
    if p.WordPiece? {
      LexPlainWord(src, pos, p.text, wide, rest);
    } else {
      LexTagWord(src, pos, p.text, wide, rest);
    }
  }

  lemma {:induction false} LexPlainWord(src: string, pos: nat, text: string, wide: char -> bool, rest: string)
    requires pos <= |src| && src[pos..] == text + rest && PieceOk(WordPiece(text))
    requires rest == "" || !IsWordRune(rest[0])
    ensures LexedAs(src, pos, WordPiece(text), wide)
  {
    hide LineAt, ReadString, WordEnd, SkipBlank;
    DropPrefix(src, pos, text, rest);
    assert src[pos + 0] == text[0];
    NotBlank(src, pos);
    WordRun(src, pos, text, rest);
    assert src[pos..pos + |text|] == text;
  }

  lemma {:induction false} LexTagWord(src: string, pos: nat, text: string, wide: char -> bool, rest: string)
    requires pos <= |src| && src[pos..] == ":" + text + rest && PieceOk(TagPiece(text))
    requires rest == "" || !IsWordRune(rest[0])
    ensures LexedAs(src, pos, TagPiece(text), wide)
  {
    hide LineAt, ReadString, WordEnd, SkipBlank;
    Assoc(":", text, rest);
    DropPrefix(src, pos, ":", text + rest);
    assert src[pos + 0] == ':';
    NotBlank(src, pos);
    WordRun(src, pos + 1, text, rest);
    DropPrefix(src, pos + 1, text, rest);
    assert src[pos + 1..pos + 1 + |text|] == text;
  }

  lemma {:induction false} LexStrPiece(src: string, pos: nat, p: Piece, wide: char -> bool, rest: string)
    requires pos <= |src| && src[pos..] == RenderPiece(p, wide) + rest
    requires p.StrPiece?
    ensures LexedAs(src, pos, p, wide)
  {
    hide QuoteBody, Reread, SkipBlank, ReadString, LineAt;
    var body := QuoteBody(p.value, wide);
    Assoc("\"" + body, "\"", rest);
    Assoc("\"", body, "\"" + rest);
    DropPrefix(src, pos, "\"", body + ("\"" + rest));
    assert src[pos + 0] == '"';
    NotBlank(src, pos);
    ReadQuoted(src, pos + 1, p.value, wide, rest);
  }

  lemma {:induction false} LexPunctPiece(src: string, pos: nat, p: Piece, wide: char -> bool, rest: string)
    requires pos <= |src| && src[pos..] == RenderPiece(p, wide) + rest
    requires PieceOk(p) && p.Punct?
    ensures LexedAs(src, pos, p, wide)
  {
    DropPrefix(src, pos, [p.c], rest);
    assert src[pos + 0] == p.c;
  }

  lemma {:induction false} AtShift(t: Token, toks: seq<Token>, pos: nat, ls: seq<Lexeme>)
    requires At(toks, pos, ls)
    ensures At([t] + toks, pos + 1, ls)
    decreases |ls|
  {
    if ls != [] {
      AtShift(t, toks, pos + 1, ls[1..]);
    }
  }

  /** The text after a word never begins with a word character. */
  lemma NextAfterWord(ps: seq<Piece>, wide: char -> bool)
    requires Spaced(ps) && ps != [] && (ps[0].WordPiece? || ps[0].TagPiece?)
    ensures var rest := Render(ps[1..], wide); rest == "" || !IsWordRune(rest[0])
  {
    var p := ps[1];
    assert PieceOk(p);
    assert ps[1..][0] == p;
    if p.Blank? {
      assert IsBlank(p.text[0]);
    }
  }

  /** The tokens from `pos` on begin with `ls`. */
  ghost predicate LexesTo(src: string, pos: nat, ls: seq<Lexeme>) {
    pos <= |src| && Lex(src, pos).Ok? && At(Lex(src, pos).value, 0, ls)
  }

  /** Lexing undoes rendering: the tokens of a well-spaced rendering are its lexemes. */
  lemma {:induction false} LexRender(src: string, pos: nat, ps: seq<Piece>, wide: char -> bool)
    requires pos <= |src| && src[pos..] == Render(ps, wide)
    requires Spaced(ps)
    ensures LexesTo(src, pos, Lexemes(ps, wide) + [Lexeme(Eof, "")])
    decreases |ps|
  {
    hide RenderPiece, PieceLexemes, LexesTo, PieceOk, Spaced;
    var end := [Lexeme(Eof, "")];
    if ps == [] {
      LexEnd(src, pos);
      assert [] + end == end;
    } else {
      var p, more := ps[0], ps[1..];
      SpacedTail(ps);
      DropPrefix(src, pos, RenderPiece(p, wide), Render(more, wide));
      LexRender(src, pos + |RenderPiece(p, wide)|, more, wide);
      Assoc(PieceLexemes(p, wide), Lexemes(more, wide), end);
      LexRenderStep(src, pos, ps, wide, Lexemes(more, wide) + end);
    }
  }

  lemma {:induction false} LexRenderStep(src: string, pos: nat, ps: seq<Piece>, wide: char -> bool, ls: seq<Lexeme>)
    requires pos <= |src| && Spaced(ps) && ps != []
    requires src[pos..] == RenderPiece(ps[0], wide) + Render(ps[1..], wide)
    requires LexesTo(src, pos + |RenderPiece(ps[0], wide)|, ls)
    ensures LexesTo(src, pos, PieceLexemes(ps[0], wide) + ls)
  {
    hide Lex, At, SkipBlank, LexToken, LexedAs, Quote, Render;
    var p := ps[0];
    var rest := Render(ps[1..], wide);
    var next := pos + |RenderPiece(p, wide)|;
    assert PieceOk(p);
    match p {
      case Blank(text) =>
        SkipBlankRun(src, pos, text, rest);
        LexAfterBlank(src, pos, next);
        assert [] + ls == ls;
        return;
      case StrPiece(_) => LexStrPiece(src, pos, p, wide, rest);
      case Punct(_) => LexPunctPiece(src, pos, p, wide, rest);
      case _ =>
        NextAfterWord(ps, wide);
        LexWordPiece(src, pos, p, wide, rest);
    }
    LexOneToken(src, pos, p, wide, ls);
  }

  lemma {:induction false} LexOneToken(src: string, pos: nat, p: Piece, wide: char -> bool, ls: seq<Lexeme>)
    requires LexedAs(src, pos, p, wide)
    requires LexesTo(src, pos + |RenderPiece(p, wide)|, ls)
    ensures LexesTo(src, pos, PieceLexemes(p, wide) + ls)
  {
    hide RenderPiece, PieceLexemes, LexToken;
    var next := pos + |RenderPiece(p, wide)|;
    var token, toks := LexToken(src, pos).value.0, Lex(src, next).value;
    assert Lex(src, pos) == Ok([token] + toks);
    AtShift(token, toks, 0, ls);
    assert PieceLexemes(p, wide) == [PieceLexemes(p, wide)[0]];
    AtHead([token] + toks, 0, PieceLexemes(p, wide)[0], ls);
  }

  lemma LexEnd(src: string, pos: nat)
    requires pos <= |src| && src[pos..] == ""
    ensures LexesTo(src, pos, [Lexeme(Eof, "")])
  {
    assert |src[pos..]| == 0;
    AtOne(Lex(src, pos).value, 0, Lexeme(Eof, ""));
  }

  lemma LexAfterBlank(src: string, pos: nat, next: nat)
    requires pos <= next <= |src| && SkipBlank(src, pos) == SkipBlank(src, next)
    ensures Lex(src, pos) == Lex(src, next)
  {
  }

  lemma SpacedTail(ps: seq<Piece>)
    requires Spaced(ps) && ps != []
    ensures Spaced(ps[1..]) && PieceOk(ps[0])
  {
    var t := ps[1..];
    forall i | 0 <= i < |t|
      ensures PieceOk(t[i])
      ensures t[i].WordPiece? || t[i].TagPiece? ==> i + 1 < |t| && !t[i + 1].WordPiece?
    {
      assert t[i] == ps[i + 1];
    }
  }
}
