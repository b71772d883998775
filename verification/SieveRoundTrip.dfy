/** Compiling a rule and parsing the script back: what comes back, when it is the same rule, and
    when it at least matches the same messages. */
module SieveRoundTrip {
  import opened Wrappers
  import opened Text
  import opened RuleModel
  import opened SieveLexer
  import opened SieveParser
  import opened SieveCompiler
  import opened SieveGrammar
  import opened SieveScripts
  import opened SievePrinting
  import opened CompiledTests
  import opened CompiledRules
  import opened SieveRejections

  // ---------- The compiled text spells the printed script ----------

  function LinesPieces(actions: seq<Action>): seq<Piece>
    requires Supported(actions)
  {
    if actions == [] then LinePieces(StatementPieces("keep", None)) else BodyPieces(actions)
  }

  function OpenPieces(): seq<Piece> {
    [Blank(" "), Punct('{'), Blank("\n")]
  }

  function ClosePieces(): seq<Piece> {
    [Punct('}'), Blank("\n")]
  }

  function IfPieces(): seq<Piece> {
    [WordPiece("if"), Blank(" ")]
  }

  function RulePieces(r: Rule): seq<Piece>
    requires Supported(r.actions)
  {
    RequirePieces(Capabilities(r))
    + (IfPieces() + (GroupPieces(r.match_) + (OpenPieces() + (LinesPieces(r.actions) + ClosePieces()))))
  }

  lemma {:induction false} FramePrints(wide: char -> bool)
    ensures Spaced(IfPieces()) && Spaced(OpenPieces()) && Spaced(ClosePieces())
    ensures Render(IfPieces(), wide) == "if " && Lexemes(IfPieces(), wide) == [Lexeme(Word, "if")]
    ensures Render(OpenPieces(), wide) == " {\n" && Lexemes(OpenPieces(), wide) == [Lexeme(LBrace, "{")]
    ensures Render(ClosePieces(), wide) == "}\n" && Lexemes(ClosePieces(), wide) == [Lexeme(RBrace, "}")]
  {
    FrameSpaced();
    hide Render, Lexemes, Spaced;
    RenderTwo(WordPiece("if"), Blank(" "), wide);
    assert OpenPieces() == [Blank(" ")] + [Punct('{'), Blank("\n")];
    RenderAppend([Blank(" ")], [Punct('{'), Blank("\n")], wide);
    RenderOne(Blank(" "), wide);
    RenderTwo(Punct('{'), Blank("\n"), wide);
    RenderTwo(Punct('}'), Blank("\n"), wide);
  }

  lemma FrameSpaced()
    ensures Spaced(IfPieces()) && Spaced(OpenPieces()) && Spaced(ClosePieces())
  {
  }

  /** The lines of the body: one per action, or a single keep. */
  lemma {:induction false} LinesPrint(actions: seq<Action>, wide: char -> bool)
    requires CompileActions(actions, wide).Ok?
    ensures Supported(actions)
    ensures Spaced(LinesPieces(actions))
    ensures Render(LinesPieces(actions), wide)
         == (if actions == [] then "    keep;\n" else "") + CompileActions(actions, wide).value
    ensures Lexemes(LinesPieces(actions), wide)
         == SpellBody(if actions == [] then [Statement("keep", None)] else PrintedBody(actions, wide))
  {
    hide Spaced, Render, Lexemes, BodyPieces, StatementPieces, LinePieces, PrintedBody, SpellStatement;
    BodyPrints(actions, wide);
    if actions == [] {
      StatementPrints("keep", None, wide);
      LinePrints(StatementPieces("keep", None), wide);
      var s := Statement("keep", None);
      assert [s][1..] == [];
      assert SpellBody([s]) == SpellStatement(s) + SpellBody([]);
      assert SpellStatement(s) + [] == SpellStatement(s);
      assert "    " + (("keep" + ("" + ";")) + "\n") == "    keep;\n" + "";
    } else {
      assert "" + CompileActions(actions, wide).value == CompileActions(actions, wide).value;
    }
  }

  lemma {:induction false} RegroupText(a: string, b: string, c: string, d: string, e: string, f: string, g: string)
    ensures a + b + c + d + e + f + g == a + (b + (c + (d + ((e + f) + g))))
  {
  }

  lemma {:induction false} AppendEnd<T>(a: seq<T>, b: seq<T>, c: seq<T>, d: seq<T>, e: seq<T>, f: seq<T>, g: seq<T>)
    ensures (a + (b + (c + (d + (e + f))))) + g == a + (b + (c + (d + (e + (f + g)))))
  {
  }

  lemma {:induction false} RulePrints(r: Rule, wide: char -> bool)
    requires CompileText(r, wide).Ok? && TidyGroup(r.match_)
    ensures Supported(r.actions)
    ensures Spaced(RulePieces(r))
    ensures Render(RulePieces(r), wide) == CompileText(r, wide).value
    ensures Lexemes(RulePieces(r), wide) + [Lexeme(Eof, "")] == SpellScript(PrintedScript(r, wide))
  {
    hide Spaced, Render, Lexemes, RequirePieces, IfPieces, GroupPieces, OpenPieces, LinesPieces, ClosePieces;
    hide TidyGroup, CompileGroup, CompileActions, Capabilities, RequireLine, SpellRequires, PrintedGroup, PrintedBody;
    hide SpellBody, Spell;
    LinesPrint(r.actions, wide);
    var req, i, grp, open, lines, close :=
      RequirePieces(Capabilities(r)), IfPieces(), GroupPieces(r.match_), OpenPieces(), LinesPieces(r.actions), ClosePieces();
    CapabilitiesAllowed(r, wide);
    RequirePrints(Capabilities(r), wide);
    FramePrints(wide);
    GroupPrints(r.match_, wide);
    SixSpaced(req, i, grp, open, lines, close);
    SixRendered(req, i, grp, open, lines, close, wide);
    RegroupText(RequireLine(Capabilities(r), wide), "if ", CompileGroup(r.match_, wide).value, " {\n",
                if r.actions == [] then "    keep;\n" else "", CompileActions(r.actions, wide).value, "}\n");
    AppendEnd(Lexemes(req, wide), [Lexeme(Word, "if")], Lexemes(grp, wide), [Lexeme(LBrace, "{")],
              Lexemes(lines, wide), [Lexeme(RBrace, "}")], [Lexeme(Eof, "")]);
    assert [Lexeme(RBrace, "}")] + [Lexeme(Eof, "")] == Closing();
  }

  lemma {:induction false} SixSpaced(a: seq<Piece>, b: seq<Piece>, c: seq<Piece>, d: seq<Piece>, e: seq<Piece>,
                                     f: seq<Piece>)
    requires Spaced(a) && Spaced(b) && Spaced(c) && Spaced(d) && Spaced(e) && Spaced(f)
    ensures Spaced(a + (b + (c + (d + (e + f)))))
  {
    hide Spaced;
    SpacedAppend(e, f);
    SpacedAppend(d, e + f);
    SpacedAppend(c, d + (e + f));
    SpacedAppend(b, c + (d + (e + f)));
    SpacedAppend(a, b + (c + (d + (e + f))));
  }

  lemma {:induction false} SixRendered(a: seq<Piece>, b: seq<Piece>, c: seq<Piece>, d: seq<Piece>, e: seq<Piece>,
                                       f: seq<Piece>, wide: char -> bool)
    ensures Render(a + (b + (c + (d + (e + f)))), wide)
         == Render(a, wide) + (Render(b, wide) + (Render(c, wide) + (Render(d, wide) + (Render(e, wide) + Render(f, wide)))))
    ensures Lexemes(a + (b + (c + (d + (e + f)))), wide)
         == Lexemes(a, wide)
            + (Lexemes(b, wide) + (Lexemes(c, wide) + (Lexemes(d, wide) + (Lexemes(e, wide) + Lexemes(f, wide)))))
  {
    hide Render, Lexemes;
    RenderAppend(e, f, wide);
    RenderAppend(d, e + f, wide);
    RenderAppend(c, d + (e + f), wide);
    RenderAppend(b, c + (d + (e + f)), wide);
    RenderAppend(a, b + (c + (d + (e + f))), wide);
  }

  lemma {:induction false} TidySpells(r: Rule, wide: char -> bool)
    requires CompileText(r, wide).Ok? && TidyGroup(r.match_)
    ensures Supported(r.actions)
    ensures ScriptOk(PrintedScript(r, wide)) && Spells(CompileText(r, wide).value, PrintedScript(r, wide))
  {
    hide Spaced, Render, Lexemes, SpellScript, At, Lex, RulePieces, CompileText;
    var text := CompileText(r, wide).value;
    RulePrints(r, wide);
    assert text[0..] == text;
    LexRender(text, 0, RulePieces(r), wide);
    PrintedScriptOk(r, wide);
  }

  /** Every script the compiler emits for a rule with tidy comparators is well-formed and spells
      the printed syntax tree, whatever its values contain; with an untidy one it spells none. */
  lemma {:induction false} CompiledSpells(r: Rule, wide: char -> bool)
    requires CompileText(r, wide).Ok?
    ensures Supported(r.actions)
    ensures TidyGroup(r.match_) ==>
              ScriptOk(PrintedScript(r, wide)) && Spells(CompileText(r, wide).value, PrintedScript(r, wide))
    ensures !TidyGroup(r.match_) ==> forall s :: ScriptOk(s) ==> !Spells(CompileText(r, wide).value, s)
  {
    hide CompileGroup, CompileActions, TidyGroup, ScriptOk, Spells, PrintedScript, RequireLine, Capabilities;
    BodyPrints(r.actions, wide);
    if TidyGroup(r.match_) {
      TidySpells(r, wide);
    } else {
      UntidyRejected(r, r, wide);
    }
  }

  lemma {:induction false} PrintedScriptOk(r: Rule, wide: char -> bool)
    requires CompileText(r, wide).Ok? && TidyGroup(r.match_)
    ensures Supported(r.actions)
    ensures ScriptOk(PrintedScript(r, wide))
  {
    hide Capabilities, GroupPieces, Render, Lexemes, Spaced, TidyGroup, BodyPieces, PrintedBody;
    hide WellSpelled, PrintedGroup, CompileGroup, CompileActions, Trim, Lower, Fold;
    CapabilitiesAllowed(r, wide);
    GroupPrints(r.match_, wide);
    BodyPrints(r.actions, wide);
    KeepOk();
  }

  lemma KeepOk()
    ensures StatementOk(Statement("keep", None))
  {
    FoldLetters("keep");
  }

  // ---------- What the printed script denotes ----------

  function ReprintedLeaf(c: Condition, wide: char -> bool): Condition {
    var field := Lower(Trim(c.field));
    if field in HEADER_FIELDS && EqualFold(c.comparator, "exists") then Condition(c.negate, None, field, "exists", "")
    else Condition(c.negate, None, field, TagWord(c.comparator), Reread(c.value, wide))
  }

  function ReprintedCondition(c: Condition, wide: char -> bool): Condition {
    if c.group.Some? then Condition(c.negate, Some(ReprintedGroup(c.group.value, wide)), "", "", "")
    else ReprintedLeaf(c, wide)
  }

  function ReprintedConditions(cs: seq<Condition>, wide: char -> bool): (r: seq<Condition>)
    ensures |r| == |cs|
  {
    if cs == [] then [] else [ReprintedCondition(cs[0], wide)] + ReprintedConditions(cs[1..], wide)
  }

  function ReprintedGroup(g: MatchGroup, wide: char -> bool): MatchGroup {
    MatchGroup(GroupOp(g.op), ReprintedConditions(g.conditions, wide))
  }

  function ReprintedAction(a: Action, wide: char -> bool): Action
    requires ActionWord(a.kind).Some?
  {
    Action(a.kind, if ActionWord(a.kind).value.1 then Reread(a.value, wide) else "")
  }

  function ReprintedActions(actions: seq<Action>, wide: char -> bool): seq<Action>
    requires Supported(actions)
  {
    seq(|actions|, i requires 0 <= i < |actions| => ReprintedAction(actions[i], wide))
  }

  lemma {:induction false} ReprintedAt(cs: seq<Condition>, wide: char -> bool, i: nat)
    requires i < |cs|
    ensures ReprintedConditions(cs, wide)[i] == ReprintedCondition(cs[i], wide)
  {
    if i > 0 {
      ReprintedAt(cs[1..], wide, i - 1);
    }
  }

  lemma {:induction false} OneField(field: string, comparator: string, value: string)
    requires field in HEADER_FIELDS
    ensures FieldsToCondition([field], comparator, value) == Leaf(field, comparator, value)
  {
    assert AllLowerLetters(field);
    PlainField(field);
  }

  lemma KnownLeaf(c: Condition, wide: char -> bool)
    requires CompileLeaf(c, wide).Ok?
    ensures Lower(Trim(c.field)) in {"from", "to", "cc", "bcc", "subject", "body", "keyword"}
  {
    hide Concat, Quote, ComparatorTag, EqualFold, Lower, Trim;
  }

  lemma {:induction false} LeafDenotes(c: Condition, wide: char -> bool)
    requires CompileLeaf(c, wide).Ok?
    ensures Denote(PrintedLeaf(c, wide)) == ReprintedLeaf(c, wide).(negate := false)
  {
    hide TagWord, Reread, Trim, Lower, EqualFold, FieldsToCondition, CompileLeaf;
    TagIsTag(c.comparator);
    KnownLeaf(c, wide);
    var field := Lower(Trim(c.field));
    if field in HEADER_FIELDS {
      OneField(field, "exists", "");
      OneField(field, TagWord(c.comparator), Reread(c.value, wide));
    }
  }

  lemma {:induction false} ConditionDenotes(c: Condition, wide: char -> bool)
    requires CompileCondition(c, wide).Ok?
    ensures Denote(PrintedCondition(c, wide)) == ReprintedCondition(c, wide)
    decreases c, 1
  {
    hide PrintedLeaf, CompileLeaf, ReprintedLeaf;
    if c.group.Some? {
      GroupDenotes(c.group.value, wide);
    } else {
      LeafDenotes(c, wide);
      LeafKeepsNegate(c, wide);
    }
  }

  lemma LeafKeepsNegate(c: Condition, wide: char -> bool)
    ensures ReprintedLeaf(c, wide).negate == c.negate
  {
  }

  lemma {:induction false} GroupDenotes(g: MatchGroup, wide: char -> bool)
    requires CompileGroup(g, wide).Ok?
    ensures Denote(PrintedGroup(g, wide)) == GroupCondition(ReprintedGroup(g, wide))
    decreases g, 0
  {
    PlainField("allof");
    PlainField("anyof");
    ConditionsDenote(g.conditions, wide);
  }

  lemma {:induction false} ConditionsDenote(cs: seq<Condition>, wide: char -> bool)
    requires CompileConditions(cs, wide).Ok?
    ensures DenoteAll(PrintedConditions(cs, wide)) == ReprintedConditions(cs, wide)
    decreases cs, 0
  {
    if cs != [] {
      ConditionDenotes(cs[0], wide);
      ConditionsDenote(cs[1..], wide);
      assert PrintedConditions(cs, wide)[1..] == PrintedConditions(cs[1..], wide);
    }
  }

  lemma {:induction false} BodyDenotes(actions: seq<Action>, wide: char -> bool)
    requires Supported(actions)
    requires forall i :: 0 <= i < |actions| ==> StatementOk(PrintedBody(actions, wide)[i])
    ensures BodyActions(PrintedBody(actions, wide)) == ReprintedActions(actions, wide)
    decreases |actions|
  {
    hide StatementOk, ReprintedAction, StatementAction, PrintedStatement, ActionWord;
    if actions != [] {
      var body, more := PrintedBody(actions, wide), actions[1..];
      assert body[1..] == PrintedBody(more, wide);
      assert forall i :: 0 <= i < |more| ==> PrintedBody(more, wide)[i] == body[i + 1];
      BodyDenotes(more, wide);
      StatementDenotes(actions[0], wide);
      assert ReprintedActions(actions, wide) == [ReprintedAction(actions[0], wide)] + ReprintedActions(more, wide);
    }
  }

  lemma StatementDenotes(a: Action, wide: char -> bool)
    requires ActionWord(a.kind).Some?
    ensures StatementOk(PrintedStatement(a, wide))
    ensures StatementAction(PrintedStatement(a, wide)) == ReprintedAction(a, wide)
    ensures ReprintedAction(a, wide).kind != "keep"
  {
    ActionWords(a.kind);
  }

  // ---------- Nesting ----------

  lemma {:induction false} PrintedNesting(c: Condition, wide: char -> bool)
    ensures Depth(PrintedCondition(c, wide)) == ConditionDepth(c)
    ensures NoEmptyGroup(PrintedCondition(c, wide)) == PopulatedCondition(c)
    decreases c, 1
  {
    hide PrintedLeaf;
    if c.group.Some? {
      GroupNesting(c.group.value, wide);
    } else {
      LeafNesting(c, wide);
    }
  }

  lemma LeafNesting(c: Condition, wide: char -> bool)
    ensures Depth(PrintedLeaf(c, wide)) == 0 && NoEmptyGroup(PrintedLeaf(c, wide))
  {
  }

  lemma {:induction false} GroupNesting(g: MatchGroup, wide: char -> bool)
    ensures Depth(PrintedGroup(g, wide)) == PrintedDepth(g)
    ensures NoEmptyGroup(PrintedGroup(g, wide)) == Populated(g)
    decreases g, 0
  {
    ConditionsNesting(g.conditions, wide);
  }

  lemma {:induction false} ConditionsNesting(cs: seq<Condition>, wide: char -> bool)
    ensures DepthAll(PrintedConditions(cs, wide)) == PrintedDepths(cs)
    ensures NoEmptyGroups(PrintedConditions(cs, wide)) <==> forall i :: 0 <= i < |cs| ==> PopulatedCondition(cs[i])
    decreases cs, 0
  {
    hide PopulatedCondition, PrintedCondition, ConditionDepth;
    if cs != [] {
      PrintedNesting(cs[0], wide);
      ConditionsNesting(cs[1..], wide);
      var ts := PrintedConditions(cs, wide);
      assert ts[1..] == PrintedConditions(cs[1..], wide);
      assert forall i :: 0 < i < |cs| ==> cs[i] == cs[1..][i - 1];
      assert forall i :: 0 <= i < |cs[1..]| ==> cs[1..][i] == cs[i + 1];
    }
  }

  // ---------- Main results ----------

  /** Parsing the script of a tidy rule gives its reprinted form when no group is empty and the
      printed nesting is at most 32; otherwise the script is rejected. */
  lemma {:induction false} TidyReparse(r: Rule, existing: Rule, wide: char -> bool)
    requires CompileText(r, wide).Ok? && TidyGroup(r.match_)
    ensures Supported(r.actions)
    ensures var reparsed := ParseText(CompileText(r, wide).value, existing);
            if Populated(r.match_) && PrintedDepth(r.match_) <= MAX_TEST_NESTING_DEPTH
            then reparsed == Ok(existing.(match_ := ReprintedGroup(r.match_, wide),
                                          actions := ReprintedActions(r.actions, wide)))
            else reparsed.Err?
  {
    hide CompileActions, CompileGroup, TidyGroup, Populated, PrintedDepth, Lex, At, SpellScript, ScriptOk;
    hide PrintedBody, PrintedGroup, ReprintedActions, ReprintedGroup, BodyActions, ParseScript;
    TidySpells(r, wide);
    var s := PrintedScript(r, wide);
    var text := CompileText(r, wide).value;
    GroupNesting(r.match_, wide);
    GroupDenotes(r.match_, wide);
    BodyPrints(r.actions, wide);
    BodyDenotes(r.actions, wide);
    if r.actions == [] {
      KeepLeavesNothing(wide);
    }
    ReadScript(Lex(text, 0).value, s);
  }

  /** Which compiled scripts the parser reads: every comparator prints as a tag and blanks, no group
      is empty and the printed nesting is at most 32. */
  predicate Readable(g: MatchGroup) {
    TidyGroup(g) && Populated(g) && PrintedDepth(g) <= MAX_TEST_NESTING_DEPTH
  }

  /** Parsing a compiled rule gives its reprinted form when it is readable; otherwise the script is
      rejected. */
  lemma {:induction false} ReparseExact(r: Rule, existing: Rule, wide: char -> bool)
    requires CompileText(r, wide).Ok?
    ensures Supported(r.actions)
    ensures var reparsed := ParseText(CompileText(r, wide).value, existing);
            if Readable(r.match_)
            then reparsed == Ok(existing.(match_ := ReprintedGroup(r.match_, wide),
                                          actions := ReprintedActions(r.actions, wide)))
            else reparsed.Err?
  {
    hide ParseText, TidyGroup, Populated, PrintedDepth, CompileGroup, CompileActions, RequireLine, Capabilities,
         ReprintedGroup, ReprintedActions;
    BodyPrints(r.actions, wide);
    if TidyGroup(r.match_) {
      TidyReparse(r, existing, wide);
    } else {
      UntidyRejected(r, existing, wide);
    }
  }

  lemma KeepLeavesNothing(wide: char -> bool)
    ensures StatementOk(Statement("keep", None)) && BodyActions([Statement("keep", None)]) == []
    ensures ReprintedActions([], wide) == []
  {
    KeepOk();
    FoldLetters("keep");
    assert [Statement("keep", None)][1..] == [];
    assert BodyActions([]) == [];
  }

  /** A rule of one condition. */
  function LoneRule(c: Condition): Rule {
    Rule("", "", true, 0, RuleScope([]), MatchGroup("allof", [c]), [], 0)
  }

  lemma {:induction false} LoneTree(c: Condition, wide: char -> bool)
    requires c.group == None && CompileLeaf(c, wide).Ok?
    ensures var g := LoneRule(c).match_;
            && CompileGroup(g, wide).Ok? && Populated(g) && PrintedDepth(g) <= 2 && TidyGroup(g) == Tidy(c.comparator)
            && ReprintedGroup(g, wide) == MatchGroup("allof", [ReprintedLeaf(c, wide)])
  {
    hide CompileLeaf, Tidy, ReprintedLeaf, Join;
    var g := MatchGroup("allof", [c]);
    PlainField("allof");
    hide Trim, Lower;
    assert g.conditions[0] == c && g.conditions[1..] == [];
    assert CompileConditions(g.conditions[1..], wide) == Ok([]);
    assert CompileCondition(c, wide).Ok?;
    assert ReprintedConditions([c], wide) == [ReprintedLeaf(c, wide)] + ReprintedConditions([], wide);
    assert TidyGroup(g) == TidyCondition(g.conditions[0]);
    assert PrintedDepths(g.conditions[1..]) == 0 && PrintedDepths(g.conditions) == ConditionDepth(c);
  }

  /** A single leaf makes a rule whose script is accepted exactly when its comparator is tidy. */
  lemma {:induction false} LoneReparse(c: Condition, existing: Rule, wide: char -> bool)
    requires c.group == None && CompileLeaf(c, wide).Ok?
    ensures CompileText(LoneRule(c), wide).Ok? && TidyGroup(LoneRule(c).match_) == Tidy(c.comparator)
    ensures var reparsed := ParseText(CompileText(LoneRule(c), wide).value, existing);
            if Tidy(c.comparator)
            then reparsed == Ok(existing.(match_ := MatchGroup("allof", [ReprintedLeaf(c, wide)]), actions := []))
            else reparsed.Err?
  {
    LoneTree(c, wide);
    hide CompileGroup, Tidy, ReprintedLeaf, ReprintedGroup, ParseText, RequireLine, Capabilities, PrintedDepth, Populated,
         TidyGroup;
    assert CompileActions(LoneRule(c).actions, wide) == Ok("");
    ReparseExact(LoneRule(c), existing, wide);
    KeepLeavesNothing(wide);
  }

  // ---------- Canonical rules ----------

  /** The leaf fields the parser produces. */
  predicate ShapedLeaf(c: Condition) {
    if c.field in HEADER_FIELDS then c.comparator in COMPARATOR_TAGS || (c.comparator == "exists" && c.value == "")
    else (c.field == "body" || c.field == "keyword") && c.comparator in COMPARATOR_TAGS
  }

  /** The trees the parser produces: lower-case operators, fields and comparators, no empty group,
      no leaf data on a group condition. */
  predicate ShapedCondition(c: Condition) {
    if c.group.Some? then c.field == "" && c.comparator == "" && c.value == "" && Shaped(c.group.value)
    else ShapedLeaf(c)
  }

  predicate Shaped(g: MatchGroup) {
    && (g.op == "allof" || g.op == "anyof")
    && g.conditions != []
    && forall i :: 0 <= i < |g.conditions| ==> ShapedCondition(g.conditions[i])
  }

  predicate QuotableCondition(c: Condition, wide: char -> bool) {
    if c.group.Some? then QuotableGroup(c.group.value, wide) else Quotable(c.value, wide)
  }

  /** Every value of the tree can be quoted without an escape other than for quotes and backslashes. */
  predicate QuotableGroup(g: MatchGroup, wide: char -> bool) {
    forall i :: 0 <= i < |g.conditions| ==> QuotableCondition(g.conditions[i], wide)
  }

  predicate CanonicalAction(a: Action, wide: char -> bool) {
    && ActionWord(a.kind).Some?
    && if ActionWord(a.kind).value.1 then Quotable(a.value, wide) else a.value == ""
  }

  predicate Canonical(r: Rule, wide: char -> bool) {
    && Shaped(r.match_)
    && QuotableGroup(r.match_, wide)
    && PrintedDepth(r.match_) <= MAX_TEST_NESTING_DEPTH
    && forall i :: 0 <= i < |r.actions| ==> CanonicalAction(r.actions[i], wide)
  }

  lemma PlainTag(comparator: string)
    requires comparator in COMPARATOR_TAGS
    ensures Tidy(comparator) && TagWord(comparator) == comparator && !EqualFold(comparator, "exists")
  {
    assert AllLowerLetters(comparator);
    PlainField(comparator);
    PlainField("exists");
  }

  lemma {:induction false} PlainExists()
    ensures Tidy("exists") && EqualFold("exists", "exists")
  {
    PlainField("exists");
  }

  /** A shaped leaf compiles, and reprints as itself exactly when its value is quotable. */
  lemma {:induction false} LeafExact(c: Condition, wide: char -> bool)
    requires c.group == None && ShapedLeaf(c)
    ensures Tidy(c.comparator) && CompileLeaf(c, wide).Ok?
    ensures ReprintedLeaf(c, wide) == c <==> Quotable(c.value, wide)
  {
    hide Quote, Concat, Reread, Quotable, EqualFold, Tidy, TagWord, ComparatorTag, Lower, Trim;
    assert c.field in {"from", "to", "cc", "bcc", "subject", "body", "keyword"};
    KnownFieldPlain(c.field);
    RereadExact(c.value, wide);
    if c.comparator == "exists" {
      PlainExists();
      QuotableEmpty(wide);
    } else {
      PlainTag(c.comparator);
    }
  }

  lemma KnownFieldPlain(f: string)
    requires f in {"from", "to", "cc", "bcc", "subject", "body", "keyword"}
    ensures Lower(Trim(f)) == f
  {
    assert AllLowerLetters(f);
    PlainField(f);
  }

  lemma QuotableEmpty(wide: char -> bool)
    ensures Quotable("", wide)
  {
  }

  lemma {:induction false} ConditionExact(c: Condition, wide: char -> bool)
    requires ShapedCondition(c)
    ensures TidyCondition(c) && PopulatedCondition(c) && CompileCondition(c, wide).Ok?
    ensures ReprintedCondition(c, wide) == c <==> QuotableCondition(c, wide)
    decreases c, 1
  {
    hide ShapedLeaf, CompileLeaf, ReprintedLeaf, Quotable, Tidy;
    if c.group.Some? {
      GroupExact(c.group.value, wide);
    } else {
      LeafExact(c, wide);
    }
  }

  lemma {:induction false} GroupExact(g: MatchGroup, wide: char -> bool)
    requires Shaped(g)
    ensures TidyGroup(g) && Populated(g) && CompileGroup(g, wide).Ok?
    ensures ReprintedGroup(g, wide) == g <==> QuotableGroup(g, wide)
    decreases g, 0
  {
    hide ShapedCondition, TidyCondition, PopulatedCondition, QuotableCondition;
    PlainField("allof");
    PlainField("anyof");
    ConditionsExact(g.conditions, wide);
  }

  lemma {:induction false} ConditionsExact(cs: seq<Condition>, wide: char -> bool)
    requires forall i :: 0 <= i < |cs| ==> ShapedCondition(cs[i])
    ensures forall i :: 0 <= i < |cs| ==> TidyCondition(cs[i]) && PopulatedCondition(cs[i])
    ensures CompileConditions(cs, wide).Ok?
    ensures ReprintedConditions(cs, wide) == cs <==> forall i :: 0 <= i < |cs| ==> QuotableCondition(cs[i], wide)
    decreases cs, 0
  {
    hide ShapedCondition, TidyCondition, PopulatedCondition, QuotableCondition, CompileCondition, ReprintedCondition;
    if cs != [] {
      ConditionExact(cs[0], wide);
      assert forall i :: 0 <= i < |cs[1..]| ==> cs[1..][i] == cs[i + 1];
      assert forall i :: 0 < i < |cs| ==> cs[i] == cs[1..][i - 1];
      ConditionsExact(cs[1..], wide);
      var rs := ReprintedConditions(cs, wide);
      assert rs[1..] == ReprintedConditions(cs[1..], wide);
      assert rs == [rs[0]] + rs[1..] && cs == [cs[0]] + cs[1..];
    }
  }

  lemma {:induction false} ActionsExact(actions: seq<Action>, wide: char -> bool)
    ensures Supported(actions) ==> CompileActions(actions, wide).Ok?
    ensures Supported(actions) ==>
              (ReprintedActions(actions, wide) == actions
               <==> forall i :: 0 <= i < |actions| ==> CanonicalAction(actions[i], wide))
    decreases |actions|
  {
    hide ActionWord, ReprintedAction, CanonicalAction, CompileAction;
    if Supported(actions) && actions != [] {
      var more := actions[1..];
      assert forall i :: 0 <= i < |more| ==> more[i] == actions[i + 1];
      assert forall i :: 0 < i < |actions| ==> actions[i] == more[i - 1];
      ActionsExact(more, wide);
      ActionExact(actions[0], wide);
      var rs := ReprintedActions(actions, wide);
      assert rs[1..] == ReprintedActions(more, wide);
      assert rs == [rs[0]] + rs[1..] && actions == [actions[0]] + more;
    }
  }

  lemma {:induction false} ActionExact(a: Action, wide: char -> bool)
    requires ActionWord(a.kind).Some?
    ensures CompileAction(a, wide).Ok?
    ensures ReprintedAction(a, wide) == a <==> CanonicalAction(a, wide)
  {
    hide Reread, Quotable, Quote, Concat;
    RereadExact(a.value, wide);
  }

  // ---------- Parsed trees are shaped ----------

  lemma {:induction false} TestShaped(t: Test)
    requires WellSpelled(t) && NoEmptyGroup(t)
    ensures ShapedCondition(Denote(t))
    decreases t, 1
  {
    match t {
      case Not(_, inner) => TestShaped(inner);
      case Group(word, tests) =>
        GroupWord(word);
        TestsShaped(tests);
      case Header(_, tag, fields, value) => FieldsShaped(fields, TagOr(tag, "is"), value);
      case Exists(_, fields) => FieldsShaped(fields, "exists", "");
      case Body(_, _, _) =>
      case HasFlag(_, _, _) =>
    }
  }

  lemma {:induction false} TestsShaped(tests: seq<Test>)
    requires NoEmptyGroups(tests) && forall i :: 0 <= i < |tests| ==> WellSpelled(tests[i])
    ensures forall i :: 0 <= i < |tests| ==> ShapedCondition(DenoteAll(tests)[i])
    decreases tests, 0
  {
    hide WellSpelled, ShapedCondition;
    NoEmptyGroupsAll(tests);
    forall i | 0 <= i < |tests|
      ensures ShapedCondition(DenoteAll(tests)[i])
    {
      DenoteAllAt(tests, i);
      TestShaped(tests[i]);
    }
  }

  lemma {:induction false} FieldsShaped(l: StringList, comparator: string, value: string)
    requires FieldsOk(l)
    requires comparator in COMPARATOR_TAGS || (comparator == "exists" && value == "")
    ensures ShapedCondition(FieldsToCondition(l.items, comparator, value))
  {
    hide NormalizeField;
    var c := FieldsToCondition(l.items, comparator, value);
    if |l.items| > 1 {
      var cs := c.group.value.conditions;
      forall i | 0 <= i < |cs|
        ensures ShapedCondition(cs[i])
      {
        assert cs[i] == Leaf(NormalizeField(l.items[i]), comparator, value);
      }
    }
  }

  /** Every accepted script yields a shaped tree. */
  lemma {:induction false} ParsedShaped(text: string, existing: Rule)
    requires ParseText(text, existing).Ok?
    ensures Shaped(ParseText(text, existing).value.match_)
    ensures Supported(ParseText(text, existing).value.actions)
  {
    hide Lex, At, SpellScript, ParseScript, Lower, Trim, EqualFold;
    var s := RecoverScript(Lex(text, 0).value);
    TestShaped(s.test);
    BodySupported(s.body);
  }

  lemma {:induction false} BodySupported(body: seq<Statement>)
    requires forall i :: 0 <= i < |body| ==> StatementOk(body[i])
    ensures Supported(BodyActions(body))
    ensures forall i :: 0 <= i < |BodyActions(body)| ==>
              !ActionWord(BodyActions(body)[i].kind).value.1 ==> BodyActions(body)[i].value == ""
    decreases |body|
  {
    if body != [] {
      assert forall i :: 0 <= i < |body[1..]| ==> body[1..][i] == body[i + 1];
      BodySupported(body[1..]);
    }
  }

  /** The round trip: a rule compiles and parses back to itself exactly when it is canonical. */
  lemma {:induction false} RoundTripExact(r: Rule, wide: char -> bool)
    ensures CompileText(r, wide).Ok? && ParseText(CompileText(r, wide).value, r) == Ok(r)
       <==> Canonical(r, wide)
  {
    hide Shaped, QuotableGroup, PrintedDepth, CompileGroup, CompileActions, ParseText, TidyGroup, Populated;
    hide ReprintedGroup, ReprintedActions, CanonicalAction, Capabilities, RequireLine;
    if Canonical(r, wide) {
      SupportedIfCanonical(r.actions, wide);
    }
    ActionsExact(r.actions, wide);
    if CompileText(r, wide).Ok? && ParseText(CompileText(r, wide).value, r) == Ok(r) {
      ParsedShaped(CompileText(r, wide).value, r);
    }
    if Shaped(r.match_) {
      GroupExact(r.match_, wide);
      if CompileText(r, wide).Ok? {
        ReparseExact(r, r, wide);
      }
    }
  }

  lemma SupportedIfCanonical(actions: seq<Action>, wide: char -> bool)
    requires forall i :: 0 <= i < |actions| ==> CanonicalAction(actions[i], wide)
    ensures Supported(actions)
  {
  }

  /** What parsing returned compiles again, and parsing that gives the first result exactly if its
      values are quotable and its printed nesting is at most 32. */
  lemma {:induction false} ReparseStable(text: string, existing: Rule, wide: char -> bool)
    requires ParseText(text, existing).Ok?
    ensures var r := ParseText(text, existing).value;
            && CompileText(r, wide).Ok?
            && (ParseText(CompileText(r, wide).value, r) == Ok(r)
                <==> && QuotableGroup(r.match_, wide) && PrintedDepth(r.match_) <= MAX_TEST_NESTING_DEPTH
                     && forall i :: 0 <= i < |r.actions| ==> Quotable(r.actions[i].value, wide))
  {
    hide ParseText, Shaped, QuotableGroup, PrintedDepth, CompileGroup, CompileActions, Quotable, ActionWord, RequireLine,
         Capabilities, ReprintedGroup, ReprintedActions;
    var r := ParseText(text, existing).value;
    ParsedShaped(text, existing);
    ParsedValueless(text, existing);
    GroupExact(r.match_, wide);
    ActionsExact(r.actions, wide);
    RoundTripExact(r, wide);
    QuotableEmpty(wide);
  }

  lemma {:induction false} ParsedValueless(text: string, existing: Rule)
    requires ParseText(text, existing).Ok?
    ensures var actions := ParseText(text, existing).value.actions;
            forall i :: 0 <= i < |actions| ==>
              ActionWord(actions[i].kind).Some? && (!ActionWord(actions[i].kind).value.1 ==> actions[i].value == "")
  {
    hide Lex, At, SpellScript, ParseScript, Lower, Trim, EqualFold;
    var s := RecoverScript(Lex(text, 0).value);
    BodySupported(s.body);
  }
}
