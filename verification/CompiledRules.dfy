/** The compiler prints every rule as a well-formed script, which the parser reads back. */
module CompiledRules {
  import opened Wrappers
  import opened Text
  import opened RuleModel
  import opened SieveLexer
  import opened SieveParser
  import opened SieveCompiler
  import opened SieveGrammar
  import opened SieveScripts
  import opened SievePrinting
  import opened CompiledTests

  // ---------- Statements ----------

  function PrintedStatement(a: Action, wide: char -> bool): Statement
    requires ActionWord(a.kind).Some?
  {
    var (word, takesValue) := ActionWord(a.kind).value;
    Statement(word, if takesValue then Some(Reread(a.value, wide)) else None)
  }

  predicate Supported(actions: seq<Action>) {
    forall i :: 0 <= i < |actions| ==> ActionWord(actions[i].kind).Some?
  }

  function PrintedBody(actions: seq<Action>, wide: char -> bool): (body: seq<Statement>)
    requires Supported(actions)
    ensures |body| == |actions|
  {
    seq(|actions|, i requires 0 <= i < |actions| => PrintedStatement(actions[i], wide))
  }

  function PrintedScript(r: Rule, wide: char -> bool): Script
    requires Supported(r.actions)
  {
    Script(
      if Capabilities(r) == [] then [] else [Require("require", StringList(Capabilities(r), false))],
      "if",
      PrintedGroup(r.match_, wide),
      if r.actions == [] then [Statement("keep", None)] else PrintedBody(r.actions, wide))
  }

  function StatementPieces(word: string, value: Option<string>): seq<Piece> {
    [WordPiece(word)] + ((if value.Some? then [Blank(" "), StrPiece(value.value)] else []) + [Punct(';')])
  }

  function ActionPieces(a: Action): seq<Piece>
    requires ActionWord(a.kind).Some?
  {
    var (word, takesValue) := ActionWord(a.kind).value;
    StatementPieces(word, if takesValue then Some(a.value) else None)
  }

  /** An indented line. */
  function LinePieces(ps: seq<Piece>): seq<Piece> {
    [Blank("    ")] + (ps + [Blank("\n")])
  }

  function BodyPieces(actions: seq<Action>): seq<Piece>
    requires Supported(actions)
  {
    if actions == [] then [] else LinePieces(ActionPieces(actions[0])) + BodyPieces(actions[1..])
  }

  lemma {:induction false} LinePrints(ps: seq<Piece>, wide: char -> bool)
    requires Spaced(ps)
    ensures Spaced(LinePieces(ps))
    ensures Render(LinePieces(ps), wide) == "    " + (Render(ps, wide) + "\n")
    ensures Lexemes(LinePieces(ps), wide) == Lexemes(ps, wide)
  {
    var tail := [Blank("\n")];
    SpacedAppend(ps, tail);
    SpacedAppend([Blank("    ")], ps + tail);
    RenderAppend(ps, tail, wide);
    RenderAppend([Blank("    ")], ps + tail, wide);
    assert tail[1..] == [] && [Blank("    ")][1..] == [];
    assert Render(tail, wide) == "\n" && Lexemes(tail, wide) == [];
    assert Render([Blank("    ")], wide) == "    " && Lexemes([Blank("    ")], wide) == [];
  }

  lemma {:induction false} StatementPrints(word: string, value: Option<string>, wide: char -> bool)
    requires word != "" && AllLowerLetters(word)
    ensures Spaced(StatementPieces(word, value))
    ensures Render(StatementPieces(word, value), wide)
         == word + ((if value.Some? then " " + Quote(value.value, wide) else "") + ";")
    ensures Lexemes(StatementPieces(word, value), wide)
         == SpellStatement(Statement(word, if value.Some? then Some(Reread(value.value, wide)) else None))
  {
    hide Quote, Reread, Render, Lexemes, Spaced;
    var middle := if value.Some? then [Blank(" "), StrPiece(value.value)] else [];
    var semi := [Punct(';')];
    StatementSpaced(word, value);
    RenderAppend(middle, semi, wide);
    RenderAppend([WordPiece(word)], middle + semi, wide);
    RenderOne(WordPiece(word), wide);
    RenderOne(Punct(';'), wide);
    if value.Some? {
      RenderTwo(Blank(" "), StrPiece(value.value), wide);
      assert [] + [Lexeme(Str, Reread(value.value, wide))] == [Lexeme(Str, Reread(value.value, wide))];
    } else {
      RenderNone(wide);
    }
  }

  lemma StatementSpaced(word: string, value: Option<string>)
    requires word != "" && AllLowerLetters(word)
    ensures Spaced(StatementPieces(word, value))
  {
    assert forall i :: 0 <= i < |word| ==> IsLowerLetter(word[i]);
  }

  lemma RenderNone(wide: char -> bool)
    ensures Render([], wide) == "" && Lexemes([], wide) == []
  {
  }

  lemma ActionWords(kind: string)
    requires ActionWord(kind).Some?
    ensures var (word, takesValue) := ActionWord(kind).value;
            word != "" && AllLowerLetters(word) && ActionKind(Lower(word)) == Some((kind, takesValue))
  {
    var (word, takesValue) := ActionWord(kind).value;
    assert AllLowerLetters(word);
    FoldLetters(word);
  }

  lemma {:induction false} ActionPrints(a: Action, wide: char -> bool)
    requires CompileAction(a, wide).Ok?
    ensures ActionWord(a.kind).Some?
    ensures Spaced(ActionPieces(a))
    ensures Render(ActionPieces(a), wide) == CompileAction(a, wide).value
    ensures Lexemes(ActionPieces(a), wide) == SpellStatement(PrintedStatement(a, wide))
    ensures StatementOk(PrintedStatement(a, wide))
  {
    hide Quote, Reread, Render, Lexemes, Spaced, SpellStatement, StatementPieces;
    ActionWords(a.kind);
    var (word, takesValue) := ActionWord(a.kind).value;
    hide ActionWord, ActionKind;
    StatementPrints(word, if takesValue then Some(a.value) else None, wide);
    ConcatAction(word, Quote(a.value, wide));
  }

  lemma ConcatAction(word: string, quoted: string)
    ensures Concat([word, " ", quoted, ";"]) == word + ((" " + quoted) + ";")
    ensures Concat([word, ";"]) == word + ("" + ";")
  {
    var a, b := [word, " ", quoted, ";"], [word, ";"];
    assert a[1..] == [" ", quoted, ";"] && a[1..][1..] == [quoted, ";"] && a[1..][1..][1..] == [";"];
    assert [";"][1..] == [] && b[1..] == [";"];
    assert Concat([";"]) == ";";
    assert Concat([quoted, ";"]) == quoted + ";";
    assert Concat([" ", quoted, ";"]) == " " + (quoted + ";");
  }

  lemma {:induction false} BodyPrints(actions: seq<Action>, wide: char -> bool)
    requires CompileActions(actions, wide).Ok?
    ensures Supported(actions)
    ensures Spaced(BodyPieces(actions))
    ensures Render(BodyPieces(actions), wide) == CompileActions(actions, wide).value
    ensures Lexemes(BodyPieces(actions), wide) == SpellBody(PrintedBody(actions, wide))
    ensures forall i :: 0 <= i < |actions| ==> StatementOk(PrintedBody(actions, wide)[i])
    decreases |actions|
  {
    hide Spaced, CompileAction, ActionWord, ActionPieces, LinePieces, PrintedStatement, SpellStatement, StatementOk;
    if actions == [] {
      SpacedNone();
    } else {
      var a, more := actions[0], actions[1..];
      ActionPrints(a, wide);
      BodyPrints(more, wide);
      assert forall i :: 0 < i < |actions| ==> actions[i] == more[i - 1];
      LinePrints(ActionPieces(a), wide);
      SpacedAppend(LinePieces(ActionPieces(a)), BodyPieces(more));
      RenderAppend(LinePieces(ActionPieces(a)), BodyPieces(more), wide);
      var line, rest := CompileAction(a, wide).value, CompileActions(more, wide).value;
      Assoc("    ", line, "\n");
      var body := PrintedBody(actions, wide);
      assert body[1..] == PrintedBody(more, wide);
      assert forall i :: 0 < i < |body| ==> body[i] == body[1..][i - 1];
    }
  }

  // ---------- The require line ----------

  function CapPieces(caps: seq<string>): seq<Piece> {
    if caps == [] then []
    else [StrPiece(caps[0])] + ((if |caps| > 1 then [Punct(','), Blank(" ")] else []) + CapPieces(caps[1..]))
  }

  function RequirePieces(caps: seq<string>): seq<Piece> {
    if caps == [] then []
    else
      [WordPiece("require"), Blank(" "), Punct('[')] + (CapPieces(caps) + [Punct(']'), Punct(';'), Blank("\n\n")])
  }

  predicate AllQuotable(ss: seq<string>, wide: char -> bool) {
    forall i :: 0 <= i < |ss| ==> Quotable(ss[i], wide)
  }

  lemma {:induction false} CapsPrint(caps: seq<string>, wide: char -> bool)
    requires AllQuotable(caps, wide)
    ensures Spaced(CapPieces(caps))
    ensures Render(CapPieces(caps), wide) == Join(QuoteAll(caps, wide), ", ")
    ensures Lexemes(CapPieces(caps), wide) == SpellItems(caps, false)
    decreases |caps|
  {
    hide Quotable, Spaced, Render, Lexemes, Join, SpellItems, CapPieces, QuoteAll;
    if caps == [] {
      NoCap(wide);
    } else {
      assert forall i :: 0 <= i < |caps[1..]| ==> caps[1..][i] == caps[i + 1];
      if |caps| > 1 {
        CapsPrint(caps[1..], wide);
        MoreCaps(caps, wide);
      } else {
        OneCap(caps, wide);
      }
    }
  }

  lemma NoCap(wide: char -> bool)
    ensures Spaced(CapPieces([]))
    ensures Render(CapPieces([]), wide) == Join(QuoteAll([], wide), ", ")
    ensures Lexemes(CapPieces([]), wide) == SpellItems([], false)
  {
  }

  lemma {:induction false} OneCap(caps: seq<string>, wide: char -> bool)
    requires |caps| == 1 && AllQuotable(caps, wide)
    ensures Spaced(CapPieces(caps))
    ensures Render(CapPieces(caps), wide) == Join(QuoteAll(caps, wide), ", ")
    ensures Lexemes(CapPieces(caps), wide) == SpellItems(caps, false)
  {
    hide Quote, Quotable, Reread;
    assert caps[1..] == [];
    assert CapPieces(caps) == [StrPiece(caps[0])];
    assert SpellItems(caps, false) == [Lexeme(Str, caps[0])];
    RereadExact(caps[0], wide);
    RenderOne(StrPiece(caps[0]), wide);
  }

  lemma {:induction false} MoreCaps(caps: seq<string>, wide: char -> bool)
    requires |caps| > 1 && AllQuotable(caps, wide)
    requires Spaced(CapPieces(caps[1..]))
    requires Render(CapPieces(caps[1..]), wide) == Join(QuoteAll(caps[1..], wide), ", ")
    requires Lexemes(CapPieces(caps[1..]), wide) == SpellItems(caps[1..], false)
    ensures Spaced(CapPieces(caps))
    ensures Render(CapPieces(caps), wide) == Join(QuoteAll(caps, wide), ", ")
    ensures Lexemes(CapPieces(caps), wide) == SpellItems(caps, false)
  {
    hide Quote, Quotable, Reread, Spaced, Render, Lexemes;
    var more := caps[1..];
    var comma := [Punct(','), Blank(" ")];
    assert CapPieces(caps) == [StrPiece(caps[0])] + (comma + CapPieces(more));
    assert SpellItems(caps, false) == [Lexeme(Str, caps[0])] + ([Lexeme(Comma, ",")] + SpellItems(more, false));
    assert QuoteAll(caps, wide)[1..] == QuoteAll(more, wide);
    assert Join(QuoteAll(caps, wide), ", ") == Quote(caps[0], wide) + ", " + Join(QuoteAll(more, wide), ", ");
    hide CapPieces, SpellItems, QuoteAll, Join;
    RereadExact(caps[0], wide);
    CapSpaced(caps[0], comma);
    SpacedAppend(comma, CapPieces(more));
    SpacedAppend([StrPiece(caps[0])], comma + CapPieces(more));
    RenderAppend(comma, CapPieces(more), wide);
    RenderAppend([StrPiece(caps[0])], comma + CapPieces(more), wide);
    RenderOne(StrPiece(caps[0]), wide);
    CommaText(wide);
    Assoc(Quote(caps[0], wide), ", ", Join(QuoteAll(more, wide), ", "));
  }

  lemma CommaText(wide: char -> bool)
    ensures Render([Punct(','), Blank(" ")], wide) == ", "
    ensures Lexemes([Punct(','), Blank(" ")], wide) == [Lexeme(Comma, ",")]
  {
    RenderTwo(Punct(','), Blank(" "), wide);
    hide Render, Lexemes;
    assert RenderPiece(Punct(','), wide) + RenderPiece(Blank(" "), wide) == ", ";
  }

  lemma CapSpaced(cap: string, comma: seq<Piece>)
    requires comma == [] || comma == [Punct(','), Blank(" ")]
    ensures Spaced([StrPiece(cap)]) && Spaced(comma)
  {
  }

  lemma {:induction false} RequirePrints(caps: seq<string>, wide: char -> bool)
    requires AllQuotable(caps, wide)
    ensures Spaced(RequirePieces(caps))
    ensures Render(RequirePieces(caps), wide) == RequireLine(caps, wide)
    ensures Lexemes(RequirePieces(caps), wide)
         == SpellRequires(if caps == [] then [] else [Require("require", StringList(caps, false))])
  {
    hide Spaced, CapPieces, QuoteAll, AllQuotable, SpellItems, Render, Lexemes;
    CapsPrint(caps, wide);
    if caps == [] {
      SpacedNone();
      RenderNone(wide);
    } else {
      var head, tail := [WordPiece("require"), Blank(" "), Punct('[')], [Punct(']'), Punct(';'), Blank("\n\n")];
      RequireSpaced();
      SpacedAppend(CapPieces(caps), tail);
      SpacedAppend(head, CapPieces(caps) + tail);
      RenderAppend(CapPieces(caps), tail, wide);
      RenderAppend(head, CapPieces(caps) + tail, wide);
      RequireEnds(wide);
      Assoc("require [", Join(QuoteAll(caps, wide), ", "), "];\n\n");
      RequireSpelling(caps);
    }
  }

  lemma RequireSpaced()
    ensures Spaced([WordPiece("require"), Blank(" "), Punct('[')])
    ensures Spaced([Punct(']'), Punct(';'), Blank("\n\n")])
  {
  }

  lemma {:induction false} RequireEnds(wide: char -> bool)
    ensures Render([WordPiece("require"), Blank(" "), Punct('[')], wide) == "require ["
    ensures Lexemes([WordPiece("require"), Blank(" "), Punct('[')], wide)
         == [Lexeme(Word, "require"), Lexeme(LBracket, "[")]
    ensures Render([Punct(']'), Punct(';'), Blank("\n\n")], wide) == "];\n\n"
    ensures Lexemes([Punct(']'), Punct(';'), Blank("\n\n")], wide)
         == [Lexeme(RBracket, "]"), Lexeme(Semicolon, ";")]
  {
    hide Render, Lexemes;
    assert [WordPiece("require"), Blank(" "), Punct('[')] == [WordPiece("require")] + [Blank(" "), Punct('[')];
    RenderAppend([WordPiece("require")], [Blank(" "), Punct('[')], wide);
    RenderOne(WordPiece("require"), wide);
    RenderTwo(Blank(" "), Punct('['), wide);
    assert [Punct(']'), Punct(';'), Blank("\n\n")] == [Punct(']')] + [Punct(';'), Blank("\n\n")];
    RenderAppend([Punct(']')], [Punct(';'), Blank("\n\n")], wide);
    RenderOne(Punct(']'), wide);
    RenderTwo(Punct(';'), Blank("\n\n"), wide);
  }

  lemma {:induction false} RequireSpelling(caps: seq<string>)
    ensures [Lexeme(Word, "require"), Lexeme(LBracket, "[")]
            + (SpellItems(caps, false) + [Lexeme(RBracket, "]"), Lexeme(Semicolon, ";")])
         == SpellRequires([Require("require", StringList(caps, false))])
  {
    hide SpellItems;
    var r := Require("require", StringList(caps, false));
    assert [r][1..] == [];
    assert SpellRequires([r]) == SpellRequire(r) + SpellRequires([]);
    assert SpellRequires([r]) == SpellRequire(r);
  }

  lemma CapabilitiesAllowed(r: Rule, wide: char -> bool)
    ensures AllQuotable(Capabilities(r), wide)
    ensures forall i :: 0 <= i < |Capabilities(r)| ==> Lower(Trim(Capabilities(r)[i])) in ALLOWED_CAPABILITIES
  {
    var caps := Capabilities(r);
    forall i | 0 <= i < |caps|
      ensures caps[i] in ALLOWED_CAPABILITIES && Quotable(caps[i], wide)
      ensures Lower(Trim(caps[i])) == caps[i]
    {
      assert caps[i] in ALLOWED_CAPABILITIES;
      var cap := caps[i];
      assert forall k :: 0 <= k < |cap| ==> 'a' <= cap[k] <= 'z' || cap[k] == '4';
      TrimSpaceFree(cap);
      assert Lower(cap) == cap;
    }
  }
}
