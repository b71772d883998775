/** Scripts that are accepted and on which a promise fails. */
module SieveWitnesses {
  import opened Wrappers
  import opened Text
  import opened RuleModel
  import opened SieveLexer
  import opened SieveParser
  import opened RulesEngine
  import opened SieveGrammar
  import opened SieveScripts
  import opened SievePrinting
  import opened CompiledTests
  import opened CompiledRules
  import opened SieveRoundTrip
  import opened SieveShape

  // ---------- Scripts around one test ----------

  /** The script that keeps the messages passing a test. */
  function KeepIf(t: Test): Script {
    Script([], "if", t, [Statement("keep", None)])
  }

  function KeepIfPieces(ps: seq<Piece>): seq<Piece> {
    IfPieces() + (ps + (OpenPieces() + (LinesPieces([]) + ClosePieces())))
  }

  /** The pieces are a rendering of the test. */
  ghost predicate PiecesOf(ps: seq<Piece>, t: Test, wide: char -> bool) {
    Spaced(ps) && Lexemes(ps, wide) == Spell(t) && WellSpelled(t)
  }

  lemma {:induction false} KeepIfPrints(ps: seq<Piece>, t: Test, wide: char -> bool)
    requires PiecesOf(ps, t, wide)
    ensures Spaced(KeepIfPieces(ps))
    ensures Lexemes(KeepIfPieces(ps), wide) + [Lexeme(Eof, "")] == SpellScript(KeepIf(t))
  {
    hide Spaced, Render, Lexemes, IfPieces, OpenPieces, LinesPieces, ClosePieces, Spell, SpellBody, WellSpelled;
    var i, open, lines, close := IfPieces(), OpenPieces(), LinesPieces([]), ClosePieces();
    FramePrints(wide);
    LinesPrint([], wide);
    SpacedNone();
    SixSpaced([], i, ps, open, lines, close);
    SixRendered([], i, ps, open, lines, close, wide);
    RenderNone(wide);
    AppendEnd([], [Lexeme(Word, "if")], Lexemes(ps, wide), [Lexeme(LBrace, "{")], Lexemes(lines, wide),
              [Lexeme(RBrace, "}")], [Lexeme(Eof, "")]);
    hide SpellRequires, SpellBlock;
    assert [] + KeepIfPieces(ps) == KeepIfPieces(ps);
    KeepIfSpelling(t);
  }

  lemma KeepIfSpelling(t: Test)
    ensures SpellScript(KeepIf(t))
         == [] + ([Lexeme(Word, "if")]
                  + (Spell(t) + ([Lexeme(LBrace, "{")]
                                 + (SpellBody([Statement("keep", None)]) + ([Lexeme(RBrace, "}")] + [Lexeme(Eof, "")])))))
  {
    hide Spell, SpellBody;
    assert SpellRequires([]) == [];
    assert [Lexeme(RBrace, "}")] + [Lexeme(Eof, "")] == Closing();
  }

  lemma {:induction false} KeepIfSpells(ps: seq<Piece>, t: Test, wide: char -> bool)
    requires PiecesOf(ps, t, wide)
    ensures ScriptOk(KeepIf(t)) && Spells(Render(KeepIfPieces(ps), wide), KeepIf(t))
    ensures BodyActions(KeepIf(t).body) == []
  {
    hide Spaced, Render, Lexemes, KeepIfPieces, Spell, SpellScript, At, Lex, WellSpelled, BodyActions, StatementOk;
    var text := Render(KeepIfPieces(ps), wide);
    KeepIfPrints(ps, t, wide);
    assert text[0..] == text;
    LexRender(text, 0, KeepIfPieces(ps), wide);
    KeepLeavesNothing(wide);
    FoldLetters("if");
  }

  /** Such a script is accepted when its test is. */
  lemma {:induction false} KeepIfAccepted(ps: seq<Piece>, t: Test, existing: Rule, wide: char -> bool)
    requires PiecesOf(ps, t, wide) && Accepts(t, 0)
    ensures ParseText(Render(KeepIfPieces(ps), wide), existing)
         == Ok(existing.(match_ := RootMatch(Denote(t)), actions := []))
  {
    hide ParseText, Spells, Accepts, Denote, BodyActions, ScriptOk, KeepIfPieces, Render, PiecesOf;
    KeepIfSpells(ps, t, wide);
    ParseTextExact(Render(KeepIfPieces(ps), wide), existing, existing.(match_ := RootMatch(Denote(t)), actions := []));
  }

  // ---------- Tests ----------

  function ExistsPieces(fields: seq<string>): seq<Piece> {
    [WordPiece("exists"), Blank(" "), Punct('[')] + (CapPieces(fields) + [Punct(']')])
  }

  function SomeOf(fields: seq<string>): Test {
    Exists("exists", StringList(fields, false))
  }

  lemma {:induction false} FieldsPlain(fields: seq<string>, wide: char -> bool)
    requires fields != [] && forall i :: 0 <= i < |fields| ==> fields[i] in HEADER_FIELDS
    ensures FieldsOk(StringList(fields, false)) && AllQuotable(fields, wide)
  {
    hide Lower, Trim, Fold, Quotable;
    forall i | 0 <= i < |fields|
      ensures NormalizeField(fields[i]) in HEADER_FIELDS && Quotable(fields[i], wide)
    {
      HeaderFieldPlain(fields[i]);
      assert AllLowerLetters(fields[i]);
      RereadLetters(fields[i], wide);
      RereadExact(fields[i], wide);
    }
  }

  lemma {:induction false} ExistsHead(wide: char -> bool)
    ensures Lexemes([WordPiece("exists"), Blank(" "), Punct('[')], wide) == [Lexeme(Word, "exists"), Lexeme(LBracket, "[")]
    ensures Lexemes([Punct(']')], wide) == [Lexeme(RBracket, "]")]
  {
    hide Lexemes, Render;
    assert [WordPiece("exists"), Blank(" "), Punct('[')] == [WordPiece("exists")] + [Blank(" "), Punct('[')];
    RenderAppend([WordPiece("exists")], [Blank(" "), Punct('[')], wide);
    RenderOne(WordPiece("exists"), wide);
    RenderTwo(Blank(" "), Punct('['), wide);
    RenderOne(Punct(']'), wide);
  }

  lemma {:induction false} ExistsSpelling(fields: seq<string>)
    ensures Spell(SomeOf(fields))
         == [Lexeme(Word, "exists"), Lexeme(LBracket, "[")] + (SpellItems(fields, false) + [Lexeme(RBracket, "]")])
  {
    hide SpellItems;
    var rest := SpellItems(fields, false) + [Lexeme(RBracket, "]")];
    assert [Lexeme(Word, "exists"), Lexeme(LBracket, "[")] == [Lexeme(Word, "exists")] + [Lexeme(LBracket, "[")];
    Assoc([Lexeme(Word, "exists")], [Lexeme(LBracket, "[")], rest);
  }

  lemma {:induction false} ExistsPrints(fields: seq<string>, wide: char -> bool)
    requires fields != [] && forall i :: 0 <= i < |fields| ==> fields[i] in HEADER_FIELDS
    ensures PiecesOf(ExistsPieces(fields), SomeOf(fields), wide)
  {
    FieldsPlain(fields, wide);
    hide Spaced, Lexemes, Render, CapPieces, SpellItems, FieldsOk, AllQuotable, Spell;
    CapsPrint(fields, wide);
    var head, tail := [WordPiece("exists"), Blank(" "), Punct('[')], [Punct(']')];
    ExistsSpaced();
    SpacedAppend(CapPieces(fields), tail);
    SpacedAppend(head, CapPieces(fields) + tail);
    RenderAppend(CapPieces(fields), tail, wide);
    RenderAppend(head, CapPieces(fields) + tail, wide);
    ExistsHead(wide);
    ExistsSpelling(fields);
  }

  lemma ExistsSpaced()
    ensures Spaced([WordPiece("exists"), Blank(" "), Punct('[')]) && Spaced([Punct(']')])
  {
  }

  function NotPieces(inner: seq<Piece>): seq<Piece> {
    [WordPiece("not"), Blank(" ")] + inner
  }

  lemma {:induction false} NotPieced(inner: seq<Piece>, t: Test, wide: char -> bool)
    requires PiecesOf(inner, t, wide)
    ensures PiecesOf(NotPieces(inner), Not("not", t), wide)
  {
    hide Spaced, Lexemes, Render;
    NotPrints(inner, wide);
    assert EqualFold("not", "not");
  }

  function AllOfPieces(inner: seq<Piece>): seq<Piece> {
    [WordPiece("allof"), Punct('(')] + (inner + [Punct(')')])
  }

  lemma {:induction false} AllOfPieced(inner: seq<Piece>, t: Test, wide: char -> bool)
    requires PiecesOf(inner, t, wide)
    ensures PiecesOf(AllOfPieces(inner), Group("allof", [t]), wide)
  {
    hide Spaced, Lexemes, Render, WellSpelled;
    BracketPrints("allof", inner, wide);
    GroupOfOne(t);
  }

  lemma GroupOfOne(t: Test)
    requires WellSpelled(t)
    ensures WellSpelled(Group("allof", [t]))
    ensures Spell(Group("allof", [t]))
         == [Lexeme(Word, "allof")] + ([Lexeme(LParen, "(")] + (Spell(t) + [Lexeme(RParen, ")")]))
  {
    LoneTest(t, 0);
    assert EqualFold("allof", "allof");
  }

  // ---------- A negated root ----------

  /** An accepted script whose rule matches exactly the messages the script's test turns down. */
  lemma {:induction false} NegatedRootLost(existing: Rule, wide: char -> bool)
    ensures exists text, s ::
              && ScriptOk(s) && Spells(text, s) && ParseText(text, existing).Ok?
              && forall input, p ::
                   GroupMatches(ParseText(text, existing).value.match_, input, p) == !Holds(s.test, input, p)
  {
    hide GroupMatches, Holds, ParseText, PiecesOf, KeepIfPieces, Render, ScriptOk, Spells;
    var fields := ["from", "to"];
    var ps, t := NotPieces(ExistsPieces(fields)), Not("not", SomeOf(fields));
    ExistsPrints(fields, wide);
    NotPieced(ExistsPieces(fields), SomeOf(fields), wide);
    KeepIfSpells(ps, t, wide);
    KeepIfAccepted(ps, t, existing, wide);
    forall input, p
      ensures GroupMatches(RootMatch(Denote(t)), input, p) == !Holds(t, input, p)
    {
      PiecesWellSpelled(ps, t, wide);
      RootMeans(t, input, p);
    }
    var text := Render(KeepIfPieces(ps), wide);
    assert ScriptOk(KeepIf(t)) && Spells(text, KeepIf(t)) && KeepIf(t).test == t;
  }

  lemma PiecesWellSpelled(ps: seq<Piece>, t: Test, wide: char -> bool)
    requires PiecesOf(ps, t, wide)
    ensures WellSpelled(t)
  {
  }

  // ---------- One level too many ----------

  function Nested(levels: nat): Test {
    if levels == 0 then SomeOf(["from", "to"]) else Group("allof", [Nested(levels - 1)])
  }

  function NestedPieces(levels: nat): seq<Piece> {
    if levels == 0 then ExistsPieces(["from", "to"]) else AllOfPieces(NestedPieces(levels - 1))
  }

  lemma {:induction false} NestedShape(levels: nat)
    ensures NoEmptyGroup(Nested(levels)) && Depth(Nested(levels)) == levels && Levels(Nested(levels)) == levels + 1
    decreases levels
  {
    if levels > 0 {
      NestedShape(levels - 1);
      LoneGroupShape(Nested(levels - 1));
    }
  }

  lemma {:induction false} LoneGroupShape(t: Test)
    ensures var g := Group("allof", [t]);
            NoEmptyGroup(g) == NoEmptyGroup(t) && Depth(g) == 1 + Depth(t) && Levels(g) == 1 + Levels(t)
  {
    assert [t][0] == t && [t][1..] == [];
    assert DepthAll([t][1..]) == 0 && LevelsAll([t][1..]) == 0 && NoEmptyGroups([t][1..]);
    assert NoEmptyGroups([t]) == NoEmptyGroup(t);
    assert DepthAll([t]) == Depth(t) && LevelsAll([t]) == Levels(t);
  }

  lemma {:induction false} NestedPrints(levels: nat, wide: char -> bool)
    ensures PiecesOf(NestedPieces(levels), Nested(levels), wide)
    decreases levels
  {
    hide PiecesOf, ExistsPieces, AllOfPieces;
    if levels == 0 {
      ExistsPrints(["from", "to"], wide);
    } else {
      NestedPrints(levels - 1, wide);
      AllOfPieced(NestedPieces(levels - 1), Nested(levels - 1), wide);
    }
  }

  /** The bound 33 is met: some text is accepted with a tree that the shape check turns down. */
  lemma {:induction false} ParserExceedsValidator(existing: Rule, wide: char -> bool)
    ensures exists text ::
              && ParseText(text, existing).Ok?
              && GroupDepth(ParseText(text, existing).value.match_) == MAX_TEST_NESTING_DEPTH + 1
              && ValidateMatchShape(ParseText(text, existing).value.match_).Err?
  {
    hide ParseText, PiecesOf, KeepIfPieces, Render, NestedPieces, Nested, ValidateMatchShape;
    var t, ps := Nested(MAX_TEST_NESTING_DEPTH), NestedPieces(MAX_TEST_NESTING_DEPTH);
    NestedShape(MAX_TEST_NESTING_DEPTH);
    NestedPrints(MAX_TEST_NESTING_DEPTH, wide);
    KeepIfAccepted(ps, t, existing, wide);
    RootShaped(t);
    ValidateExact(RootMatch(Denote(t)));
    assert ParseText(Render(KeepIfPieces(ps), wide), existing).Ok?;
  }
}
