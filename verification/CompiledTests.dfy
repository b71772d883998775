/** The compiler prints every match tree as a well-spelled test. */
module CompiledTests {
  import opened Wrappers
  import opened Text
  import opened RuleModel
  import opened SieveLexer
  import opened SieveCompiler
  import opened SieveGrammar
  import opened SievePrinting

  // ---------- The printed shape of a match tree ----------

  /** A group without conditions prints as `allof()`, which no parser of the language reads. */
  predicate Populated(g: MatchGroup) {
    g.conditions != [] && forall i :: 0 <= i < |g.conditions| ==> PopulatedCondition(g.conditions[i])
  }

  predicate PopulatedCondition(c: Condition) {
    c.group.Some? ==> Populated(c.group.value)
  }

  /** The nesting of groups and negations in the printed script. */
  function PrintedDepth(g: MatchGroup): nat {
    1 + PrintedDepths(g.conditions)
  }

  function ConditionDepth(c: Condition): nat {
    (if c.negate then 1 else 0) + (if c.group.Some? then PrintedDepth(c.group.value) else 0)
  }

  function PrintedDepths(cs: seq<Condition>): nat {
    if cs == [] then 0
    else
      var a, b := ConditionDepth(cs[0]), PrintedDepths(cs[1..]);
      if a > b then a else b
  }

  /** The tag a comparator stands for. */
  function TagWord(comparator: string): string {
    if Lower(Trim(comparator)) in COMPARATOR_TAGS then Lower(Trim(comparator)) else "is"
  }

  predicate AllBlank(s: string) {
    forall i :: 0 <= i < |s| ==> IsBlank(s[i])
  }

  /** The comparator prints as one of the four tags, followed by nothing but blanks the lexer skips:
      the printer lower-cases it without trimming it. */
  predicate Tidy(comparator: string) {
    var tag, printed := TagWord(comparator), ComparatorTag(comparator);
    tag <= printed && AllBlank(printed[|tag|..])
  }

  /** The blanks printed after the tag. */
  function Padding(comparator: string): string {
    var tag, printed := TagWord(comparator), ComparatorTag(comparator);
    if |tag| <= |printed| then printed[|tag|..] else ""
  }

  predicate TidyGroup(g: MatchGroup) {
    forall i :: 0 <= i < |g.conditions| ==> TidyCondition(g.conditions[i])
  }

  predicate TidyCondition(c: Condition) {
    if c.group.Some? then TidyGroup(c.group.value) else Tidy(c.comparator)
  }

  lemma TagIsTag(comparator: string)
    ensures TagWord(comparator) in COMPARATOR_TAGS
    ensures Lower(TagWord(comparator)) == TagWord(comparator)
    ensures AllWordRunes(TagWord(comparator))
  {
    var tag := TagWord(comparator);
    assert tag in COMPARATOR_TAGS;
    assert AllLowerLetters(tag);
    FoldLetters(tag);
  }

  /** The printed tag is the tag word and its padding. */
  lemma {:induction false} TagText(comparator: string)
    requires Tidy(comparator)
    ensures (":" + TagWord(comparator)) + (Padding(comparator) + " ") == (":" + ComparatorTag(comparator)) + " "
    ensures AllBlank(Padding(comparator) + " ")
  {
    hide ComparatorTag, TagWord;
    assert ComparatorTag(comparator) == TagWord(comparator) + Padding(comparator);
  }

  // ---------- The syntax tree the compiler prints ----------

  function PrintedLeaf(c: Condition, wide: char -> bool): Test {
    var field := Lower(Trim(c.field));
    var tag := Some(TagWord(c.comparator));
    var value := Reread(c.value, wide);
    if field in HEADER_FIELDS then
      if EqualFold(c.comparator, "exists") then Exists("exists", StringList([field], false))
      else Header("header", tag, StringList([field], false), value)
    else if field == "body" then Body("body", tag, value)
    else HasFlag("hasflag", tag, value)
  }

  function PrintedCondition(c: Condition, wide: char -> bool): Test {
    var inner := if c.group.Some? then PrintedGroup(c.group.value, wide) else PrintedLeaf(c, wide);
    if c.negate then Not("not", inner) else inner
  }

  function PrintedConditions(cs: seq<Condition>, wide: char -> bool): (ts: seq<Test>)
    ensures |ts| == |cs|
  {
    if cs == [] then [] else [PrintedCondition(cs[0], wide)] + PrintedConditions(cs[1..], wide)
  }

  function PrintedGroup(g: MatchGroup, wide: char -> bool): Test {
    Group(GroupOp(g.op), PrintedConditions(g.conditions, wide))
  }

  // ---------- Pieces of the printed text ----------

  function TagPieces(tag: string, pad: string): seq<Piece> {
    [Blank(" "), TagPiece(tag), Blank(pad)]
  }

  function FieldPieces(field: string): seq<Piece> {
    [Punct('['), StrPiece(field), Punct(']')]
  }

  function LeafPieces(c: Condition): seq<Piece> {
    var field := Lower(Trim(c.field));
    var tag, pad := TagWord(c.comparator), Padding(c.comparator) + " ";
    if field in HEADER_FIELDS then
      if EqualFold(c.comparator, "exists") then
        [WordPiece("exists"), Blank(" "), Punct('['), StrPiece(field), Punct(']')]
      else
        [WordPiece("header"), Blank(" "), TagPiece(tag), Blank(pad), Punct('['), StrPiece(field), Punct(']'),
         Blank(" "), StrPiece(c.value)]
    else
      [WordPiece(if field == "body" then "body" else "hasflag"), Blank(" "), TagPiece(tag), Blank(pad), StrPiece(c.value)]
  }

  function ConditionPieces(c: Condition): seq<Piece> {
    var inner := if c.group.Some? then GroupPieces(c.group.value) else LeafPieces(c);
    if c.negate then [WordPiece("not"), Blank(" ")] + inner else inner
  }

  function ListPieces(cs: seq<Condition>): seq<Piece> {
    if cs == [] then []
    else if |cs| == 1 then ConditionPieces(cs[0])
    else ConditionPieces(cs[0]) + ([Punct(','), Blank(" ")] + ListPieces(cs[1..]))
  }

  function GroupPieces(g: MatchGroup): seq<Piece> {
    [WordPiece(GroupOp(g.op)), Punct('(')] + (ListPieces(g.conditions) + [Punct(')')])
  }

  /** What a rendering must be for the compiler's text `s` of a test `t`. */
  ghost predicate Prints(ps: seq<Piece>, s: string, t: Test, wide: char -> bool) {
    Spaced(ps) && Render(ps, wide) == s && Lexemes(ps, wide) == Spell(t) && WellSpelled(t)
  }

  lemma {:induction false} RenderConcat(ps: seq<Piece>, wide: char -> bool)
    ensures Render(ps, wide) == Concat(seq(|ps|, i requires 0 <= i < |ps| => RenderPiece(ps[i], wide)))
    decreases |ps|
  {
    var parts := seq(|ps|, i requires 0 <= i < |ps| => RenderPiece(ps[i], wide));
    if ps != [] {
      RenderConcat(ps[1..], wide);
      assert parts[1..] == seq(|ps[1..]|, i requires 0 <= i < |ps[1..]| => RenderPiece(ps[1..][i], wide));
    }
  }

  lemma RereadLetters(s: string, wide: char -> bool)
    requires AllLowerLetters(s)
    ensures Reread(s, wide) == s
  {
    RereadExact(s, wide);
    assert forall i :: 0 <= i < |s| ==> IsLowerLetter(s[i]);
  }

  // Lexemes of the fixed segments a leaf is made of.

  lemma {:induction false} LexemesCons(p: Piece, rest: seq<Piece>, wide: char -> bool)
    ensures Lexemes([p] + rest, wide) == PieceLexemes(p, wide) + Lexemes(rest, wide)
  {
    assert ([p] + rest)[1..] == rest;
  }

  lemma {:induction false} TagLexemes(tag: string, pad: string, rest: seq<Piece>, wide: char -> bool)
    ensures Lexemes(TagPieces(tag, pad) + rest, wide) == [Lexeme(ColonTag, tag)] + Lexemes(rest, wide)
  {
    var a, b, c := Blank(" "), TagPiece(tag), Blank(pad);
    assert TagPieces(tag, pad) + rest == [a] + ([b] + ([c] + rest));
    LexemesCons(a, [b] + ([c] + rest), wide);
    LexemesCons(b, [c] + rest, wide);
    LexemesCons(c, rest, wide);
    assert Lexemes([c] + rest, wide) == Lexemes(rest, wide);
  }

  lemma {:induction false} FieldLexemes(field: string, rest: seq<Piece>, wide: char -> bool)
    requires AllLowerLetters(field)
    ensures Lexemes(FieldPieces(field) + rest, wide) == SpellList(StringList([field], false)) + Lexemes(rest, wide)
  {
    hide Lexemes, Reread;
    var a, b, c := Punct('['), StrPiece(field), Punct(']');
    assert FieldPieces(field) + rest == [a] + ([b] + ([c] + rest));
    LexemesCons(a, [b] + ([c] + rest), wide);
    LexemesCons(b, [c] + rest, wide);
    LexemesCons(c, rest, wide);
    RereadLetters(field, wide);
    assert [field][1..] == [];
    assert SpellItems([field], false) == [Lexeme(Str, field)];
    assert SpellList(StringList([field], false))
        == [Lexeme(LBracket, "["), Lexeme(Str, field), Lexeme(RBracket, "]")];
  }

  lemma {:induction false} ValueLexemes(value: string, wide: char -> bool)
    ensures Lexemes([StrPiece(value)], wide) == [Lexeme(Str, Reread(value, wide))]
    ensures Lexemes([Blank(" "), StrPiece(value)], wide) == [Lexeme(Str, Reread(value, wide))]
  {
    assert [StrPiece(value)] == [StrPiece(value)] + [];
    LexemesCons(StrPiece(value), [], wide);
    assert [Blank(" "), StrPiece(value)] == [Blank(" ")] + [StrPiece(value)];
    LexemesCons(Blank(" "), [StrPiece(value)], wide);
  }

  lemma {:induction false} SpacedLeaf(c: Condition)
    requires Tidy(c.comparator)
    ensures Spaced(LeafPieces(c))
  {
    hide Trim, Lower, EqualFold, ComparatorTag, TagWord, Padding, Tidy;
    TagIsTag(c.comparator);
    TagText(c.comparator);
  }

  lemma {:induction false} LeafText(c: Condition, wide: char -> bool)
    requires CompileLeaf(c, wide).Ok? && Tidy(c.comparator)
    ensures Render(LeafPieces(c), wide) == CompileLeaf(c, wide).value
  {
    hide Quote, ComparatorTag, Lower, Trim, EqualFold, Concat, Render, TagWord, Padding, Tidy;
    TagText(c.comparator);
    var ps := LeafPieces(c);
    RenderConcat(ps, wide);
    var parts := seq(|ps|, i requires 0 <= i < |ps| => RenderPiece(ps[i], wide));
    var field := Lower(Trim(c.field));
    var tag, pad, printed := ":" + TagWord(c.comparator), Padding(c.comparator) + " ", ":" + ComparatorTag(c.comparator);
    if field in HEADER_FIELDS {
      if EqualFold(c.comparator, "exists") {
        assert parts == ["exists", " ", "[", Quote(field, wide), "]"];
      } else {
        var tail := ["[", Quote(field, wide), "]", " ", Quote(c.value, wide)];
        assert parts == ["header", " ", tag, pad] + tail;
        ConcatRegroup("header", " ", tag, pad, printed, " ", tail);
        assert ["header", " ", printed, " "] + tail
            == ["header", " ", printed, " ", "[", Quote(field, wide), "]", " ", Quote(c.value, wide)];
      }
    } else {
      var word := if field == "body" then "body" else "hasflag";
      assert parts == [word, " ", tag, pad] + [Quote(c.value, wide)];
      ConcatRegroup(word, " ", tag, pad, printed, " ", [Quote(c.value, wide)]);
      assert [word, " ", printed, " "] + [Quote(c.value, wide)] == [word, " ", printed, " ", Quote(c.value, wide)];
    }
  }

  lemma {:induction false} ConcatRegroup(a: string, b: string, x: string, y: string, x': string, y': string, tail: seq<string>)
    requires x + y == x' + y'
    ensures Concat([a, b, x, y] + tail) == Concat([a, b, x', y'] + tail)
  {
    ConcatFour(a, b, x, y, tail);
    ConcatFour(a, b, x', y', tail);
    hide Concat;
    assert x + (y + Concat(tail)) == (x + y) + Concat(tail);
    assert x' + (y' + Concat(tail)) == (x' + y') + Concat(tail);
  }

  lemma ConcatCons(head: string, tail: seq<string>)
    ensures Concat([head] + tail) == head + Concat(tail)
  {
  }

  lemma {:induction false} ConcatFour(a: string, b: string, x: string, y: string, tail: seq<string>)
    ensures Concat([a, b, x, y] + tail) == a + (b + (x + (y + Concat(tail))))
  {
    hide Concat;
    assert [a, b, x, y] + tail == [a] + ([b] + ([x] + ([y] + tail)));
    ConcatCons(a, [b] + ([x] + ([y] + tail)));
    ConcatCons(b, [x] + ([y] + tail));
    ConcatCons(x, [y] + tail);
    ConcatCons(y, tail);
  }

  lemma {:induction false} ExistsLexemes(field: string, wide: char -> bool)
    requires AllLowerLetters(field)
    ensures Lexemes([WordPiece("exists"), Blank(" "), Punct('['), StrPiece(field), Punct(']')], wide)
         == [Lexeme(Word, "exists")] + SpellList(StringList([field], false))
  {
    hide SpellList, AllLowerLetters;
    var ps := [WordPiece("exists"), Blank(" "), Punct('['), StrPiece(field), Punct(']')];
    assert ps == [WordPiece("exists")] + ([Blank(" ")] + (FieldPieces(field) + []));
    LexemesCons(WordPiece("exists"), [Blank(" ")] + (FieldPieces(field) + []), wide);
    LexemesCons(Blank(" "), FieldPieces(field) + [], wide);
    FieldLexemes(field, [], wide);
    LexemesNone(wide);
  }

  lemma {:induction false} HeaderLexemes(tag: string, pad: string, field: string, value: string, wide: char -> bool)
    requires AllLowerLetters(field)
    ensures Lexemes([WordPiece("header"), Blank(" "), TagPiece(tag), Blank(pad), Punct('['), StrPiece(field), Punct(']'),
                     Blank(" "), StrPiece(value)], wide)
         == [Lexeme(Word, "header")]
            + ([Lexeme(ColonTag, tag)] + (SpellList(StringList([field], false)) + [Lexeme(Str, Reread(value, wide))]))
  {
    hide SpellList, AllLowerLetters, Reread, Lexemes;
    var ps := [WordPiece("header"), Blank(" "), TagPiece(tag), Blank(pad), Punct('['), StrPiece(field), Punct(']'),
               Blank(" "), StrPiece(value)];
    var tail := [Blank(" "), StrPiece(value)];
    assert ps == [WordPiece("header")] + (TagPieces(tag, pad) + (FieldPieces(field) + tail));
    LexemesCons(WordPiece("header"), TagPieces(tag, pad) + (FieldPieces(field) + tail), wide);
    TagLexemes(tag, pad, FieldPieces(field) + tail, wide);
    FieldLexemes(field, tail, wide);
    ValueLexemes(value, wide);
  }

  lemma {:induction false} ValueTestLexemes(word: string, tag: string, pad: string, value: string, wide: char -> bool)
    ensures Lexemes([WordPiece(word), Blank(" "), TagPiece(tag), Blank(pad), StrPiece(value)], wide)
         == [Lexeme(Word, word)] + ([Lexeme(ColonTag, tag)] + [Lexeme(Str, Reread(value, wide))])
  {
    hide Reread, Lexemes;
    var ps := [WordPiece(word), Blank(" "), TagPiece(tag), Blank(pad), StrPiece(value)];
    assert ps == [WordPiece(word)] + (TagPieces(tag, pad) + [StrPiece(value)]);
    LexemesCons(WordPiece(word), TagPieces(tag, pad) + [StrPiece(value)], wide);
    TagLexemes(tag, pad, [StrPiece(value)], wide);
    ValueLexemes(value, wide);
  }

  lemma {:induction false} LeafLexemes(c: Condition, wide: char -> bool)
    requires CompileLeaf(c, wide).Ok?
    ensures Lexemes(LeafPieces(c), wide) == Spell(PrintedLeaf(c, wide))
  {
    hide TagWord, Padding, ComparatorTag, Lower, Trim, EqualFold, Lexemes, SpellList, Reread, Concat, Quote, TagPieces,
         FieldPieces;
    var field := Lower(Trim(c.field));
    var tag, pad := TagWord(c.comparator), Padding(c.comparator) + " ";
    if field in HEADER_FIELDS {
      assert AllLowerLetters(field);
      ExistsLexemes(field, wide);
      HeaderLexemes(tag, pad, field, c.value, wide);
    } else {
      ValueTestLexemes(if field == "body" then "body" else "hasflag", tag, pad, c.value, wide);
    }
  }

  lemma LexemesNone(wide: char -> bool)
    ensures Lexemes([], wide) == []
  {
  }

  lemma {:induction false} LeafSpelled(c: Condition, wide: char -> bool)
    requires CompileLeaf(c, wide).Ok?
    ensures WellSpelled(PrintedLeaf(c, wide))
  {
    hide TagWord, Reread, Trim, Lower, Fold, CompileLeaf, FieldsOk;
    TagIsTag(c.comparator);
    var field := Lower(Trim(c.field));
    if field in HEADER_FIELDS {
      HeaderFieldPlain(field);
      OneHeaderField(field);
    }
  }

  lemma OneHeaderField(field: string)
    requires field in HEADER_FIELDS && Lower(Trim(field)) == field
    ensures FieldsOk(StringList([field], false))
  {
  }

  lemma {:induction false} LeafPrints(c: Condition, wide: char -> bool)
    requires CompileLeaf(c, wide).Ok? && Tidy(c.comparator)
    ensures Prints(LeafPieces(c), CompileLeaf(c, wide).value, PrintedLeaf(c, wide), wide)
  {
    SpacedLeaf(c);
    LeafText(c, wide);
    LeafLexemes(c, wide);
    LeafSpelled(c, wide);
  }

  // ---------- Conditions, groups and lists ----------

  lemma {:induction false} ConditionPrints(c: Condition, wide: char -> bool)
    requires CompileCondition(c, wide).Ok? && TidyCondition(c)
    ensures Prints(ConditionPieces(c), CompileCondition(c, wide).value, PrintedCondition(c, wide), wide)
    decreases c, 1
  {
    hide LeafPieces, CompileLeaf, PrintedLeaf, Tidy, Spaced;
    if c.group.Some? {
      GroupPrints(c.group.value, wide);
    } else {
      LeafPrints(c, wide);
    }
    if c.negate {
      var inner := if c.group.Some? then GroupPieces(c.group.value) else LeafPieces(c);
      NotPrints(inner, wide);
    }
  }

  lemma {:induction false} NotPrints(inner: seq<Piece>, wide: char -> bool)
    requires Spaced(inner)
    ensures var ps := [WordPiece("not"), Blank(" ")] + inner;
            && Spaced(ps)
            && Render(ps, wide) == "not " + Render(inner, wide)
            && Lexemes(ps, wide) == [Lexeme(Word, "not")] + Lexemes(inner, wide)
  {
    var head := [WordPiece("not"), Blank(" ")];
    SpacedAppend(head, inner);
    RenderAppend(head, inner, wide);
    assert head[1..] == [Blank(" ")] && head[1..][1..] == [];
    assert Render(head, wide) == "not " && Lexemes(head, wide) == [Lexeme(Word, "not")];
  }

  lemma {:induction false} GroupPrints(g: MatchGroup, wide: char -> bool)
    requires CompileGroup(g, wide).Ok? && TidyGroup(g)
    ensures Prints(GroupPieces(g), CompileGroup(g, wide).value, PrintedGroup(g, wide), wide)
    decreases g, 0
  {
    hide Spaced, TidyCondition, Trim, Lower, Fold, Render, Lexemes, Join, ListPieces, CompileConditions, PrintedConditions,
         SpellAll;
    ListPrints(g.conditions, wide);
    var parts := CompileConditions(g.conditions, wide).value;
    var ts := PrintedConditions(g.conditions, wide);
    BracketPrints(GroupOp(g.op), ListPieces(g.conditions), wide);
    Assoc(GroupOp(g.op), "(", Join(parts, ", ") + ")");
    Assoc(GroupOp(g.op) + "(", Join(parts, ", "), ")");
    PlainField("allof");
    PlainField("anyof");
  }

  lemma {:induction false} BracketPrints(op: string, body: seq<Piece>, wide: char -> bool)
    requires op == "allof" || op == "anyof"
    requires Spaced(body)
    ensures var ps := [WordPiece(op), Punct('(')] + (body + [Punct(')')]);
            && Spaced(ps)
            && Render(ps, wide) == op + ("(" + (Render(body, wide) + ")"))
            && Lexemes(ps, wide)
               == [Lexeme(Word, op)] + ([Lexeme(LParen, "(")] + (Lexemes(body, wide) + [Lexeme(RParen, ")")]))
  {
    hide Render, Lexemes, Spaced;
    var head, tail := [WordPiece(op), Punct('(')], [Punct(')')];
    SpacedBrackets(op);
    SpacedAppend(body, tail);
    SpacedAppend(head, body + tail);
    RenderAppend(body, tail, wide);
    RenderAppend(head, body + tail, wide);
    RenderOne(Punct(')'), wide);
    RenderTwo(WordPiece(op), Punct('('), wide);
  }

  lemma SpacedBrackets(op: string)
    requires op == "allof" || op == "anyof"
    ensures Spaced([WordPiece(op), Punct('(')]) && Spaced([Punct(')')])
  {
  }

  lemma {:induction false} ListPrints(cs: seq<Condition>, wide: char -> bool)
    requires CompileConditions(cs, wide).Ok? && forall i :: 0 <= i < |cs| ==> TidyCondition(cs[i])
    ensures Spaced(ListPieces(cs))
    ensures Render(ListPieces(cs), wide) == Join(CompileConditions(cs, wide).value, ", ")
    ensures Lexemes(ListPieces(cs), wide) == SpellAll(PrintedConditions(cs, wide))
    ensures forall i :: 0 <= i < |cs| ==> WellSpelled(PrintedConditions(cs, wide)[i])
    decreases cs, 0
  {
    hide Spaced, TidyCondition, WellSpelled;
    if cs != [] {
      ConditionPrints(cs[0], wide);
      forall i | 0 <= i < |cs[1..]|
        ensures TidyCondition(cs[1..][i])
      {
        assert cs[1..][i] == cs[i + 1];
      }
      ListPrints(cs[1..], wide);
      JoinPrints(cs, wide);
    } else {
      SpacedNone();
    }
  }

  lemma SpacedNone()
    ensures Spaced([])
  {
  }

  lemma {:induction false} JoinPrints(cs: seq<Condition>, wide: char -> bool)
    requires CompileConditions(cs, wide).Ok? && cs != []
    requires Prints(ConditionPieces(cs[0]), CompileCondition(cs[0], wide).value, PrintedCondition(cs[0], wide), wide)
    requires Spaced(ListPieces(cs[1..]))
    requires Render(ListPieces(cs[1..]), wide) == Join(CompileConditions(cs[1..], wide).value, ", ")
    requires Lexemes(ListPieces(cs[1..]), wide) == SpellAll(PrintedConditions(cs[1..], wide))
    requires forall i :: 0 <= i < |cs[1..]| ==> WellSpelled(PrintedConditions(cs[1..], wide)[i])
    ensures Spaced(ListPieces(cs))
    ensures Render(ListPieces(cs), wide) == Join(CompileConditions(cs, wide).value, ", ")
    ensures Lexemes(ListPieces(cs), wide) == SpellAll(PrintedConditions(cs, wide))
    ensures forall i :: 0 <= i < |cs| ==> WellSpelled(PrintedConditions(cs, wide)[i])
  {
    hide Spaced, WellSpelled, CompileCondition, PrintedCondition, ConditionPieces;
    var parts, ts := CompileConditions(cs, wide).value, PrintedConditions(cs, wide);
    assert parts[1..] == CompileConditions(cs[1..], wide).value;
    assert ts[1..] == PrintedConditions(cs[1..], wide);
    forall i | 0 <= i < |cs|
      ensures WellSpelled(ts[i])
    {
      assert i > 0 ==> ts[i] == ts[1..][i - 1];
    }
    if |cs| > 1 {
      CommaPrints(ConditionPieces(cs[0]), ListPieces(cs[1..]), wide);
      Assoc(parts[0], ", ", Join(parts[1..], ", "));
    }
  }

  lemma {:induction false} CommaPrints(head: seq<Piece>, rest: seq<Piece>, wide: char -> bool)
    requires Spaced(head) && Spaced(rest)
    ensures var ps := head + ([Punct(','), Blank(" ")] + rest);
            && Spaced(ps)
            && Render(ps, wide) == Render(head, wide) + (", " + Render(rest, wide))
            && Lexemes(ps, wide) == Lexemes(head, wide) + ([Lexeme(Comma, ",")] + Lexemes(rest, wide))
  {
    hide Render, Lexemes, Spaced;
    var comma := [Punct(','), Blank(" ")];
    SpacedComma();
    SpacedAppend(comma, rest);
    SpacedAppend(head, comma + rest);
    RenderAppend(comma, rest, wide);
    RenderAppend(head, comma + rest, wide);
    RenderTwo(Punct(','), Blank(" "), wide);
  }

  lemma SpacedComma()
    ensures Spaced([Punct(','), Blank(" ")])
  {
  }
}
