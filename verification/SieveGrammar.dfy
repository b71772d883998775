/** The grammar of the script subset as concrete syntax trees, their spelling as tokens and their
    meaning.  The parser accepts exactly the spellings of well-spelled trees whose nesting stays
    within its bound, and the rule it builds means what the tree means. */
module SieveGrammar {
  import opened Wrappers
  import opened Text
  import opened RuleModel
  import opened SieveLexer
  import opened SieveParser
  import opened RulesEngine

  /** A bracketed string list; a comma may follow the last item. */
  datatype StringList = StringList(items: seq<string>, trailingComma: bool)

  /** A test as written: keywords keep their spelling, an omitted comparator stays omitted. */
  datatype Test =
    | Not(word: string, inner: Test)
    | Group(word: string, tests: seq<Test>)
    | Header(word: string, tag: Option<string>, fields: StringList, value: string)
    | Exists(word: string, fields: StringList)
    | Body(word: string, tag: Option<string>, value: string)
    | HasFlag(word: string, tag: Option<string>, value: string)

  datatype Lexeme = Lexeme(kind: TokKind, text: string)

  predicate Same(t: Token, l: Lexeme) {
    t.kind == l.kind && (l.kind in {Word, Str, ColonTag} ==> t.text == l.text)
  }

  /** The tokens from `pos` on begin with the given lexemes. */
  predicate At(toks: seq<Token>, pos: nat, ls: seq<Lexeme>)
    decreases |ls|
  {
    if ls == [] then pos <= |toks|
    else pos < |toks| && Same(toks[pos], ls[0]) && At(toks, pos + 1, ls[1..])
  }

  lemma {:induction false} AtSplit(toks: seq<Token>, pos: nat, a: seq<Lexeme>, b: seq<Lexeme>)
    ensures At(toks, pos, a + b) <==> At(toks, pos, a) && At(toks, pos + |a|, b)
    decreases |a|
  {
    if a == [] {
      assert a + b == b;
    } else {
      assert (a + b)[1..] == a[1..] + b;
      AtSplit(toks, pos + 1, a[1..], b);
    }
  }

  /** Reads one lexeme off the front. */
  lemma {:induction false} AtHead(toks: seq<Token>, pos: nat, l: Lexeme, rest: seq<Lexeme>)
    ensures At(toks, pos, [l] + rest) <==> pos < |toks| && Same(toks[pos], l) && At(toks, pos + 1, rest)
  {
    assert ([l] + rest)[1..] == rest;
  }

  lemma {:induction false} AtOne(toks: seq<Token>, pos: nat, l: Lexeme)
    ensures At(toks, pos, [l]) <==> pos < |toks| && Same(toks[pos], l)
  {
    assert [l][1..] == [];
  }

  // ---------- Spelling ----------

  function SpellItems(items: seq<string>, trailingComma: bool): seq<Lexeme> {
    if items == [] then []
    else
      [Lexeme(Str, items[0])]
      + ((if |items| > 1 || trailingComma then [Lexeme(Comma, ",")] else []) + SpellItems(items[1..], trailingComma))
  }

  function SpellList(l: StringList): seq<Lexeme> {
    [Lexeme(LBracket, "[")] + (SpellItems(l.items, l.trailingComma) + [Lexeme(RBracket, "]")])
  }

  function SpellTag(tag: Option<string>): seq<Lexeme> {
    if tag.Some? then [Lexeme(ColonTag, tag.value)] else []
  }

  function Spell(t: Test): (ls: seq<Lexeme>)
    ensures ls != []
  {
    [Lexeme(Word, t.word)]
    + match t
      case Not(_, inner) => Spell(inner)
      case Group(_, tests) => [Lexeme(LParen, "(")] + (SpellAll(tests) + [Lexeme(RParen, ")")])
      case Header(_, tag, fields, value) => SpellTag(tag) + (SpellList(fields) + [Lexeme(Str, value)])
      case Exists(_, fields) => SpellList(fields)
      case Body(_, tag, value) => SpellTag(tag) + [Lexeme(Str, value)]
      case HasFlag(_, tag, value) => SpellTag(tag) + [Lexeme(Str, value)]
  }

  function SpellAll(tests: seq<Test>): seq<Lexeme> {
    if tests == [] then []
    else if |tests| == 1 then Spell(tests[0])
    else Spell(tests[0]) + ([Lexeme(Comma, ",")] + SpellAll(tests[1..]))
  }

  // ---------- Well-spelled trees ----------

  predicate TagOk(tag: Option<string>) {
    tag.Some? ==> Lower(tag.value) in COMPARATOR_TAGS
  }

  predicate ListOk(l: StringList) {
    l.trailingComma ==> l.items != []
  }

  predicate FieldsOk(l: StringList) {
    ListOk(l) && l.items != [] && forall i :: 0 <= i < |l.items| ==> NormalizeField(l.items[i]) in HEADER_FIELDS
  }

  predicate WellSpelled(t: Test) {
    match t
    case Not(word, inner) => EqualFold(word, "not") && WellSpelled(inner)
    case Group(word, tests) =>
      && (EqualFold(word, "allof") || EqualFold(word, "anyof"))
      && forall i :: 0 <= i < |tests| ==> WellSpelled(tests[i])
    case Header(word, tag, fields, _) =>
      (EqualFold(word, "header") || EqualFold(word, "address")) && TagOk(tag) && FieldsOk(fields)
    case Exists(word, fields) => EqualFold(word, "exists") && FieldsOk(fields)
    case Body(word, tag, _) => EqualFold(word, "body") && TagOk(tag)
    case HasFlag(word, tag, _) => EqualFold(word, "hasflag") && TagOk(tag)
  }

  /** How many not/allof/anyof levels nest at most. */
  function Depth(t: Test): nat {
    match t
    case Not(_, inner) => 1 + Depth(inner)
    case Group(_, tests) => 1 + DepthAll(tests)
    case _ => 0
  }

  function DepthAll(tests: seq<Test>): nat {
    if tests == [] then 0
    else
      var a, b := Depth(tests[0]), DepthAll(tests[1..]);
      if a > b then a else b
  }

  predicate NoEmptyGroup(t: Test) {
    match t
    case Not(_, inner) => NoEmptyGroup(inner)
    case Group(_, tests) => tests != [] && NoEmptyGroups(tests)
    case _ => true
  }

  predicate NoEmptyGroups(tests: seq<Test>) {
    tests == [] || (NoEmptyGroup(tests[0]) && NoEmptyGroups(tests[1..]))
  }

  /** What the parser accepts below `depth` open levels. */
  predicate Accepts(t: Test, depth: nat) {
    NoEmptyGroup(t) && (Depth(t) == 0 || depth + Depth(t) <= MAX_TEST_NESTING_DEPTH)
  }

  predicate AcceptsAll(tests: seq<Test>, depth: nat) {
    forall i :: 0 <= i < |tests| ==> Accepts(tests[i], depth)
  }

  lemma {:induction false} AcceptsGroup(t: Test, depth: nat)
    requires t.Group?
    ensures Accepts(t, depth)
       <==> depth < MAX_TEST_NESTING_DEPTH && t.tests != [] && AcceptsAll(t.tests, depth + 1)
  {
    NoEmptyGroupsAll(t.tests);
    DepthAllBounds(t.tests);
  }

  lemma {:induction false} NoEmptyGroupsAll(tests: seq<Test>)
    ensures NoEmptyGroups(tests) <==> forall i :: 0 <= i < |tests| ==> NoEmptyGroup(tests[i])
  {
    if tests != [] {
      NoEmptyGroupsAll(tests[1..]);
      assert forall i :: 0 < i < |tests| ==> tests[i] == tests[1..][i - 1];
    }
  }

  lemma {:induction false} DepthAllBounds(tests: seq<Test>)
    ensures forall i :: 0 <= i < |tests| ==> Depth(tests[i]) <= DepthAll(tests)
    ensures DepthAll(tests) > 0 ==> exists i :: 0 <= i < |tests| && Depth(tests[i]) == DepthAll(tests)
  {
    if tests != [] {
      DepthAllBounds(tests[1..]);
      assert forall i :: 0 < i < |tests| ==> tests[i] == tests[1..][i - 1];
      if DepthAll(tests) > 0 && Depth(tests[0]) < DepthAll(tests) {
        var k :| 0 <= k < |tests[1..]| && Depth(tests[1..][k]) == DepthAll(tests);
        assert tests[k + 1] == tests[1..][k];
      }
    }
  }

  // ---------- Meaning ----------

  function TagOr(tag: Option<string>, default: string): string {
    if tag.Some? then Lower(tag.value) else default
  }

  /** The match condition a test stands for. */
  function Denote(t: Test): Condition {
    match t
    case Not(_, inner) => var c := Denote(inner); c.(negate := !c.negate)
    case Group(word, tests) => GroupCondition(MatchGroup(Lower(word), DenoteAll(tests)))
    case Header(_, tag, fields, value) => FieldsToCondition(fields.items, TagOr(tag, "is"), value)
    case Exists(_, fields) => FieldsToCondition(fields.items, "exists", "")
    case Body(_, tag, value) => Leaf("body", TagOr(tag, "contains"), value)
    case HasFlag(_, tag, value) => Leaf("keyword", TagOr(tag, "is"), value)
  }

  function DenoteAll(tests: seq<Test>): (cs: seq<Condition>)
    ensures |cs| == |tests|
  {
    if tests == [] then [] else [Denote(tests[0])] + DenoteAll(tests[1..])
  }

  lemma {:induction false} DenoteAllAt(tests: seq<Test>, i: nat)
    requires i < |tests|
    ensures DenoteAll(tests)[i] == Denote(tests[i])
  {
    if i > 0 {
      DenoteAllAt(tests[1..], i - 1);
    }
  }

  /** The reference meaning of a test, read off the syntax: any listed field may match, a missing
      comparator is `is` for headers and flags and `contains` for bodies. */
  predicate Holds(t: Test, input: EvalInput, p: Patterns) {
    match t
    case Not(_, inner) => !Holds(inner, input, p)
    case Group(word, tests) =>
      if EqualFold(word, "anyof") then exists i :: 0 <= i < |tests| && Holds(tests[i], input, p)
      else forall i :: 0 <= i < |tests| ==> Holds(tests[i], input, p)
    case Header(_, tag, fields, value) =>
      exists i :: 0 <= i < |fields.items|
        && MatchesValue(TagOr(tag, "is"), FieldValue(input, fields.items[i]), value, p)
    case Exists(_, fields) =>
      exists i :: 0 <= i < |fields.items| && Trim(FieldValue(input, fields.items[i])) != ""
    case Body(_, tag, value) => MatchesValue(TagOr(tag, "contains"), input.body, value, p)
    case HasFlag(_, tag, value) =>
      exists i :: 0 <= i < |input.keywords| && MatchesValue(TagOr(tag, "is"), input.keywords[i], value, p)
  }

  // ---------- Keywords ----------

  lemma {:induction false} Keywords()
    ensures Fold("not") == "not"
    ensures Fold("allof") == "allof"
    ensures Fold("anyof") == "anyof"
    ensures Fold("header") == "header"
    ensures Fold("address") == "address"
    ensures Fold("exists") == "exists"
    ensures Fold("body") == "body"
    ensures Fold("hasflag") == "hasflag"
    ensures Fold("keyword") == "keyword"
  {
    FoldLetters("not");
    FoldLetters("allof");
    FoldLetters("anyof");
    FoldLetters("header");
    FoldLetters("address");
    FoldLetters("exists");
    FoldLetters("body");
    FoldLetters("hasflag");
    FoldLetters("keyword");
  }

  /** Folding and lower-casing agree on a word that folds to plain letters other than k and s, and
      so does trimming. */
  lemma {:induction false} GroupWord(word: string)
    requires EqualFold(word, "allof") || EqualFold(word, "anyof")
    ensures EqualFold(word, "allof") ==> Lower(word) == "allof"
    ensures EqualFold(word, "anyof") ==> Lower(word) == "anyof"
  {
    Keywords();
    forall i | 0 <= i < |word|
      ensures LowerChar(word[i]) == FoldChar(word[i])
    {
      assert FoldChar(word[i]) == Fold(word)[i];
    }
    assert Lower(word) == Fold(word);
  }

  // ---------- Completeness and rejection ----------

  lemma {:induction false} Assoc<T>(a: seq<T>, b: seq<T>, c: seq<T>)
    ensures (a + b) + c == a + (b + c)
  {
  }

  lemma {:induction false} ReadItems(toks: seq<Token>, pos: nat, items: seq<string>, trailingComma: bool)
    requires Terminated(toks)
    requires At(toks, pos, SpellItems(items, trailingComma) + [Lexeme(RBracket, "]")])
    ensures pos < |toks|
    ensures ParseItems(toks, pos) == Found(items, pos + |SpellItems(items, trailingComma)|)
    decreases |items|
  {
    hide At;
    var close := Lexeme(RBracket, "]");
    if items == [] {
      AtHead(toks, pos, close, []);
      assert [] + [close] == [close] + [];
    } else {
      var comma := if |items| > 1 || trailingComma then [Lexeme(Comma, ",")] else [];
      var rest := SpellItems(items[1..], trailingComma);
      Assoc([Lexeme(Str, items[0])], comma + rest, [close]);
      AtHead(toks, pos, Lexeme(Str, items[0]), (comma + rest) + [close]);
      Assoc(comma, rest, [close]);
      if comma != [] {
        AtHead(toks, pos + 1, comma[0], rest + [close]);
        ReadItems(toks, pos + 2, items[1..], trailingComma);
        assert [items[0]] + items[1..] == items;
      } else {
        assert rest == [] && comma + (rest + [close]) == [close];
        AtOne(toks, pos + 1, close);
        assert items == [items[0]];
      }
    }
  }

  lemma {:induction false} ReadList(toks: seq<Token>, pos: nat, l: StringList)
    requires Terminated(toks)
    requires At(toks, pos, SpellList(l))
    ensures pos < |toks| && ParseStringList(toks, pos) == Found(l.items, pos + |SpellList(l)|)
  {
    hide At, SpellItems, ParseItems;
    var close := Lexeme(RBracket, "]");
    var items := SpellItems(l.items, l.trailingComma);
    AtHead(toks, pos, Lexeme(LBracket, "["), items + [close]);
    ReadItems(toks, pos + 1, l.items, l.trailingComma);
    AtSplit(toks, pos + 1, items, [close]);
    AtOne(toks, pos + 1 + |items|, close);
  }

  lemma {:induction false} ReadTag(toks: seq<Token>, pos: nat, tag: Option<string>, default: string, rest: seq<Lexeme>)
    requires Terminated(toks) && TagOk(tag)
    requires rest != [] && rest[0].kind != ColonTag
    requires At(toks, pos, SpellTag(tag) + rest)
    ensures pos < |toks|
    ensures ParseComparatorTag(toks, pos, default) == Found(TagOr(tag, default), pos + |SpellTag(tag)|)
    ensures At(toks, pos + |SpellTag(tag)|, rest)
  {
    AtSplit(toks, pos, SpellTag(tag), rest);
    if tag.Some? {
      AtOne(toks, pos, Lexeme(ColonTag, tag.value));
    }
  }

  lemma {:induction false} ReadHeader(toks: seq<Token>, pos: nat, t: Test)
    requires Terminated(toks) && t.Header? && WellSpelled(t)
    requires At(toks, pos, Spell(t))
    ensures pos + 1 < |toks| && ParseHeader(toks, pos) == Found(Denote(t), pos + |Spell(t)|)
  {
    hide Lower, EqualFold, At, ParseComparatorTag, ParseStringList, SpellItems, NormalizeField;
    var value := Lexeme(Str, t.value);
    var list := SpellList(t.fields);
    AtHead(toks, pos, Lexeme(Word, t.word), SpellTag(t.tag) + (list + [value]));
    ReadTag(toks, pos + 1, t.tag, "is", list + [value]);
    var afterTag := pos + 1 + |SpellTag(t.tag)|;
    AtSplit(toks, afterTag, list, [value]);
    ReadList(toks, afterTag, t.fields);
    AtOne(toks, afterTag + |list|, value);
  }

  lemma {:induction false} ReadExists(toks: seq<Token>, pos: nat, t: Test)
    requires Terminated(toks) && t.Exists? && WellSpelled(t)
    requires At(toks, pos, Spell(t))
    ensures pos + 1 < |toks| && ParseExists(toks, pos) == Found(Denote(t), pos + |Spell(t)|)
  {
    AtHead(toks, pos, Lexeme(Word, t.word), SpellList(t.fields));
    ReadList(toks, pos + 1, t.fields);
  }

  lemma {:induction false} ReadValueTest(toks: seq<Token>, pos: nat, t: Test)
    requires Terminated(toks) && (t.Body? || t.HasFlag?) && WellSpelled(t)
    requires At(toks, pos, Spell(t))
    ensures pos + 1 < |toks|
    ensures ParseValueTest(toks, pos, if t.Body? then "body" else "keyword", if t.Body? then "contains" else "is")
         == Found(Denote(t), pos + |Spell(t)|)
  {
    var value := Lexeme(Str, t.value);
    AtHead(toks, pos, Lexeme(Word, t.word), SpellTag(t.tag) + [value]);
    ReadTag(toks, pos + 1, t.tag, if t.Body? then "contains" else "is", [value]);
    AtOne(toks, pos + 1 + |SpellTag(t.tag)|, value);
  }

  /** The keywords do not overlap. */
  lemma {:induction false} KeywordsOf(w: string)
    ensures EqualFold(w, "not") ==> KeywordOf(w) == KwNot
    ensures EqualFold(w, "allof") || EqualFold(w, "anyof") ==> KeywordOf(w) == KwGroup
    ensures EqualFold(w, "header") || EqualFold(w, "address") ==> KeywordOf(w) == KwHeader
    ensures EqualFold(w, "exists") ==> KeywordOf(w) == KwExists
    ensures EqualFold(w, "body") ==> KeywordOf(w) == KwBody
    ensures EqualFold(w, "hasflag") ==> KeywordOf(w) == KwHasFlag
  {
    Keywords();
  }

  /** Wherever a well-spelled test is written, the parser reads it back, provided no group is
      empty and the nesting fits; otherwise it reports an error. */
  lemma {:induction false} ReadTest(toks: seq<Token>, pos: nat, depth: nat, t: Test)
    requires Terminated(toks) && WellSpelled(t)
    requires At(toks, pos, Spell(t))
    ensures pos < |toks|
    ensures Accepts(t, depth) ==> ParseTest(toks, pos, depth) == Found(Denote(t), pos + |Spell(t)|)
    ensures !Accepts(t, depth) ==> ParseTest(toks, pos, depth).Failed?
    decreases t, 1
  {
    hide Lower, EqualFold, ParseNot, ParseGroup, ParseHeader, ParseExists, ParseValueTest, At;
    assert Spell(t) == [Lexeme(Word, t.word)] + Spell(t)[1..];
    AtHead(toks, pos, Lexeme(Word, t.word), Spell(t)[1..]);
    if t.Not? {
      ReadNot(toks, pos, depth, t);
    } else if t.Group? {
      ReadGroup(toks, pos, depth, t);
    } else {
      if t.Header? {
        ReadHeader(toks, pos, t);
      } else if t.Exists? {
        ReadExists(toks, pos, t);
      } else {
        ReadValueTest(toks, pos, t);
      }
      KeywordsOf(t.word);
    }
  }

  lemma {:induction false} ReadNot(toks: seq<Token>, pos: nat, depth: nat, t: Test)
    requires Terminated(toks) && WellSpelled(t) && t.Not?
    requires At(toks, pos, Spell(t))
    ensures pos < |toks|
    ensures Accepts(t, depth) ==> ParseTest(toks, pos, depth) == Found(Denote(t), pos + |Spell(t)|)
    ensures !Accepts(t, depth) ==> ParseTest(toks, pos, depth).Failed?
    decreases t, 0
  {
    AtHead(toks, pos, Lexeme(Word, t.word), Spell(t.inner));
    KeywordsOf(t.word);
    ReadTest(toks, pos + 1, depth + 1, t.inner);
  }

  lemma {:induction false} ReadGroup(toks: seq<Token>, pos: nat, depth: nat, t: Test)
    requires Terminated(toks) && WellSpelled(t) && t.Group?
    requires At(toks, pos, Spell(t))
    ensures pos < |toks|
    ensures Accepts(t, depth) ==> ParseTest(toks, pos, depth) == Found(Denote(t), pos + |Spell(t)|)
    ensures !Accepts(t, depth) ==> ParseTest(toks, pos, depth).Failed?
    decreases t, 0
  {
    hide Lower, EqualFold, ParseTests, SpellAll, DenoteAll, AcceptsAll, Accepts, At;
    AcceptsGroup(t, depth);
    GroupShape(toks, pos, t);
    KeywordsOf(t.word);
    if depth < MAX_TEST_NESTING_DEPTH {
      ReadTests(toks, pos + 2, depth + 1, t.tests);
    }
  }

  lemma {:induction false} GroupShape(toks: seq<Token>, pos: nat, t: Test)
    requires t.Group? && At(toks, pos, Spell(t))
    ensures |Spell(t)| == 3 + |SpellAll(t.tests)|
    ensures pos + |Spell(t)| <= |toks|
    ensures Same(toks[pos], Lexeme(Word, t.word)) && toks[pos + 1].kind == LParen
    ensures At(toks, pos + 2, SpellAll(t.tests) + [Lexeme(RParen, ")")])
    ensures toks[pos + 2 + |SpellAll(t.tests)|].kind == RParen
  {
    var open, close := Lexeme(LParen, "("), Lexeme(RParen, ")");
    var body := SpellAll(t.tests);
    AtHead(toks, pos, Lexeme(Word, t.word), [open] + (body + [close]));
    AtHead(toks, pos + 1, open, body + [close]);
    AtSplit(toks, pos + 2, body, [close]);
    AtOne(toks, pos + 2 + |body|, close);
  }

  lemma {:induction false} ReadTests(toks: seq<Token>, pos: nat, depth: nat, tests: seq<Test>)
    requires Terminated(toks) && forall i :: 0 <= i < |tests| ==> WellSpelled(tests[i])
    requires At(toks, pos, SpellAll(tests) + [Lexeme(RParen, ")")])
    ensures pos < |toks|
    ensures tests != [] && AcceptsAll(tests, depth)
        ==> ParseTests(toks, pos, depth) == Found(DenoteAll(tests), pos + |SpellAll(tests)|)
    ensures !(tests != [] && AcceptsAll(tests, depth)) ==> ParseTests(toks, pos, depth).Failed?
    decreases tests, 0
  {
    hide ParseTest, Accepts, Denote, Spell, WellSpelled, At;
    if |tests| > 1 {
      var next := pos + |Spell(tests[0])|;
      TestsShape(toks, pos, tests);
      ReadTest(toks, pos, depth, tests[0]);
      ReadTests(toks, next + 1, depth, tests[1..]);
      JoinTests(toks, pos, depth, tests, next);
    } else {
      AtSplit(toks, pos, SpellAll(tests), [Lexeme(RParen, ")")]);
      AtOne(toks, pos + |SpellAll(tests)|, Lexeme(RParen, ")"));
      if tests == [] {
        NoTestHere(toks, pos, depth);
        TestsFail(toks, pos, depth);
      } else {
        ReadTest(toks, pos, depth, tests[0]);
        OneTest(toks, pos, depth, tests);
      }
    }
  }

  lemma {:induction false} OneTest(toks: seq<Token>, pos: nat, depth: nat, tests: seq<Test>)
    requires Terminated(toks) && |tests| == 1 && pos < |toks|
    requires var end := pos + |Spell(tests[0])|; end < |toks| && toks[end].kind == RParen
    requires Accepts(tests[0], depth) ==> ParseTest(toks, pos, depth) == Found(Denote(tests[0]), pos + |Spell(tests[0])|)
    requires !Accepts(tests[0], depth) ==> ParseTest(toks, pos, depth).Failed?
    ensures AcceptsAll(tests, depth)
        ==> ParseTests(toks, pos, depth) == Found(DenoteAll(tests), pos + |SpellAll(tests)|)
    ensures !AcceptsAll(tests, depth) ==> ParseTests(toks, pos, depth).Failed?
  {
    hide ParseTest, Accepts, Denote, Spell;
    assert AcceptsAll(tests, depth) <==> Accepts(tests[0], depth);
    assert DenoteAll(tests) == [Denote(tests[0])];
  }

  lemma {:induction false} JoinTests(toks: seq<Token>, pos: nat, depth: nat, tests: seq<Test>, next: nat)
    requires Terminated(toks) && |tests| > 1
    requires pos < |toks| && next == pos + |Spell(tests[0])| && next + 1 < |toks| && toks[next].kind == Comma
    requires Accepts(tests[0], depth) ==> ParseTest(toks, pos, depth) == Found(Denote(tests[0]), next)
    requires !Accepts(tests[0], depth) ==> ParseTest(toks, pos, depth).Failed?
    requires AcceptsAll(tests[1..], depth)
         ==> ParseTests(toks, next + 1, depth) == Found(DenoteAll(tests[1..]), next + 1 + |SpellAll(tests[1..])|)
    requires !AcceptsAll(tests[1..], depth) ==> ParseTests(toks, next + 1, depth).Failed?
    ensures AcceptsAll(tests, depth)
        ==> ParseTests(toks, pos, depth) == Found(DenoteAll(tests), pos + |SpellAll(tests)|)
    ensures !AcceptsAll(tests, depth) ==> ParseTests(toks, pos, depth).Failed?
  {
    hide KeywordOf;
    AcceptsAllSplit(tests, depth);
    if Accepts(tests[0], depth) {
      TestsStep(toks, pos, depth, Denote(tests[0]), next);
    } else {
      TestsFail(toks, pos, depth);
    }
  }

  lemma {:induction false} TestsShape(toks: seq<Token>, pos: nat, tests: seq<Test>)
    requires |tests| > 1 && forall i :: 0 <= i < |tests| ==> WellSpelled(tests[i])
    requires At(toks, pos, SpellAll(tests) + [Lexeme(RParen, ")")])
    ensures var next := pos + |Spell(tests[0])|;
            && At(toks, pos, Spell(tests[0]))
            && next + 1 < |toks| && toks[next].kind == Comma
            && At(toks, next + 1, SpellAll(tests[1..]) + [Lexeme(RParen, ")")])
            && |SpellAll(tests)| == |Spell(tests[0])| + 1 + |SpellAll(tests[1..])|
    ensures forall i :: 0 <= i < |tests[1..]| ==> WellSpelled(tests[1..][i])
  {
    hide Spell, WellSpelled, At;
    var close := Lexeme(RParen, ")");
    var head, comma, rest := Spell(tests[0]), Lexeme(Comma, ","), SpellAll(tests[1..]);
    var next := pos + |head|;
    Assoc(head, [comma] + rest, [close]);
    AtSplit(toks, pos, head, ([comma] + rest) + [close]);
    Assoc([comma], rest, [close]);
    AtHead(toks, next, comma, rest + [close]);
    AtSplit(toks, next + 1, rest, [close]);
    AtOne(toks, next + 1 + |rest|, close);
    forall i | 0 <= i < |tests[1..]|
      ensures WellSpelled(tests[1..][i])
    {
      assert tests[1..][i] == tests[i + 1];
    }
  }

  lemma {:induction false} TestsStep(toks: seq<Token>, pos: nat, depth: nat, c: Condition, next: nat)
    requires Terminated(toks) && pos < |toks| && next + 1 < |toks| && toks[next].kind == Comma
    requires ParseTest(toks, pos, depth) == Found(c, next)
    ensures ParseTests(toks, pos, depth) == WithItems([c], ParseTests(toks, next + 1, depth))
  {
    hide KeywordOf;
  }

  lemma NoTestHere(toks: seq<Token>, pos: nat, depth: nat)
    requires Terminated(toks) && pos < |toks| && toks[pos].kind != Word
    ensures ParseTest(toks, pos, depth).Failed?
  {
  }

  lemma {:induction false} TestsFail(toks: seq<Token>, pos: nat, depth: nat)
    requires Terminated(toks) && pos < |toks|
    requires ParseTest(toks, pos, depth).Failed?
    ensures ParseTests(toks, pos, depth).Failed?
  {
    hide KeywordOf;
  }

  lemma {:induction false} AcceptsAllSplit(tests: seq<Test>, depth: nat)
    requires tests != []
    ensures AcceptsAll(tests, depth) <==> Accepts(tests[0], depth) && AcceptsAll(tests[1..], depth)
  {
    assert forall i :: 0 < i < |tests| ==> tests[i] == tests[1..][i - 1];
  }

  // ---------- Soundness: every accepted token sequence spells a tree ----------

  lemma {:induction false} RecoverItems(toks: seq<Token>, pos: nat) returns (trailingComma: bool)
    requires Terminated(toks) && pos < |toks| && ParseItems(toks, pos).Found?
    ensures var r := ParseItems(toks, pos);
            && (trailingComma ==> r.value != [])
            && At(toks, pos, SpellItems(r.value, trailingComma))
            && r.end == pos + |SpellItems(r.value, trailingComma)|
    decreases |toks| - pos
  {
    trailingComma := false;
    if toks[pos].kind != RBracket {
      var s := Lexeme(Str, toks[pos].text);
      if toks[pos + 1].kind == Comma {
        var rest := ParseItems(toks, pos + 2);
        var t := RecoverItems(toks, pos + 2);
        trailingComma := rest.value == [] || t;
        var items := [s.text] + rest.value;
        var tail := SpellItems(rest.value, trailingComma);
        assert items[1..] == rest.value;
        AtHead(toks, pos + 1, Lexeme(Comma, ","), tail);
        AtHead(toks, pos, s, [Lexeme(Comma, ",")] + tail);
      } else {
        assert [s.text][1..] == [];
        assert SpellItems([s.text], false) == [s];
        AtOne(toks, pos, s);
      }
    }
  }

  lemma {:induction false} RecoverList(toks: seq<Token>, pos: nat) returns (l: StringList)
    requires Terminated(toks) && pos < |toks| && ParseStringList(toks, pos).Found?
    ensures var r := ParseStringList(toks, pos);
            ListOk(l) && l.items == r.value && At(toks, pos, SpellList(l)) && r.end == pos + |SpellList(l)|
  {
    var open, close := Lexeme(LBracket, "["), Lexeme(RBracket, "]");
    var items := ParseItems(toks, pos + 1);
    var trailingComma := RecoverItems(toks, pos + 1);
    l := StringList(items.value, trailingComma);
    var body := SpellItems(items.value, trailingComma);
    AtOne(toks, items.end, close);
    AtSplit(toks, pos + 1, body, [close]);
    AtHead(toks, pos, open, body + [close]);
  }

  lemma {:induction false} RecoverTag(toks: seq<Token>, pos: nat, default: string) returns (tag: Option<string>)
    requires Terminated(toks) && pos < |toks| && ParseComparatorTag(toks, pos, default).Found?
    ensures var r := ParseComparatorTag(toks, pos, default);
            && TagOk(tag) && TagOr(tag, default) == r.value
            && At(toks, pos, SpellTag(tag)) && r.end == pos + |SpellTag(tag)|
  {
    if toks[pos].kind == ColonTag {
      tag := Some(toks[pos].text);
      AtOne(toks, pos, Lexeme(ColonTag, toks[pos].text));
    } else {
      tag := None;
    }
  }

  lemma {:induction false} RecoverHeader(toks: seq<Token>, pos: nat) returns (t: Test)
    requires Terminated(toks) && pos + 1 < |toks| && toks[pos].kind == Word
    requires EqualFold(toks[pos].text, "header") || EqualFold(toks[pos].text, "address")
    requires ParseHeader(toks, pos).Found?
    ensures var r := ParseHeader(toks, pos);
            t.Header? && WellSpelled(t) && At(toks, pos, Spell(t)) && r == Found(Denote(t), pos + |Spell(t)|)
  {
    hide Lower, EqualFold, At, ParseComparatorTag, ParseStringList, SpellList, NormalizeField;
    var tag := RecoverTag(toks, pos + 1, "is");
    var afterTag := ParseComparatorTag(toks, pos + 1, "is").end;
    var l := RecoverList(toks, afterTag);
    var afterList := ParseStringList(toks, afterTag).end;
    var value := Lexeme(Str, toks[afterList].text);
    t := Header(toks[pos].text, tag, l, value.text);
    AtOne(toks, afterList, value);
    AtSplit(toks, afterTag, SpellList(l), [value]);
    AtSplit(toks, pos + 1, SpellTag(tag), SpellList(l) + [value]);
    AtHead(toks, pos, Lexeme(Word, t.word), SpellTag(tag) + (SpellList(l) + [value]));
  }

  lemma {:induction false} RecoverExists(toks: seq<Token>, pos: nat) returns (t: Test)
    requires Terminated(toks) && pos + 1 < |toks| && toks[pos].kind == Word
    requires EqualFold(toks[pos].text, "exists")
    requires ParseExists(toks, pos).Found?
    ensures var r := ParseExists(toks, pos);
            t.Exists? && WellSpelled(t) && At(toks, pos, Spell(t)) && r == Found(Denote(t), pos + |Spell(t)|)
  {
    hide Lower, EqualFold, At, ParseStringList, SpellList, NormalizeField;
    var l := RecoverList(toks, pos + 1);
    t := Exists(toks[pos].text, l);
    AtHead(toks, pos, Lexeme(Word, t.word), SpellList(l));
  }

  lemma {:induction false} RecoverValueTest(toks: seq<Token>, pos: nat, body: bool) returns (t: Test)
    requires Terminated(toks) && pos + 1 < |toks| && toks[pos].kind == Word
    requires EqualFold(toks[pos].text, if body then "body" else "hasflag")
    requires ParseValueTest(toks, pos, if body then "body" else "keyword", if body then "contains" else "is").Found?
    ensures var r := ParseValueTest(toks, pos, if body then "body" else "keyword", if body then "contains" else "is");
            && (t.Body? || t.HasFlag?) && WellSpelled(t) && At(toks, pos, Spell(t))
            && r == Found(Denote(t), pos + |Spell(t)|)
  {
    hide Lower, EqualFold, At, ParseComparatorTag;
    var default := if body then "contains" else "is";
    var tag := RecoverTag(toks, pos + 1, default);
    var afterTag := ParseComparatorTag(toks, pos + 1, default).end;
    var value := Lexeme(Str, toks[afterTag].text);
    t := if body then Body(toks[pos].text, tag, value.text) else HasFlag(toks[pos].text, tag, value.text);
    AtOne(toks, afterTag, value);
    AtSplit(toks, pos + 1, SpellTag(tag), [value]);
    AtHead(toks, pos, Lexeme(Word, t.word), SpellTag(tag) + [value]);
  }

  /** The tree `t` accounts for what the parser found at `pos`. */
  ghost predicate Explains(t: Test, toks: seq<Token>, pos: nat, depth: nat, r: Parsed<Condition>) {
    && WellSpelled(t) && Accepts(t, depth) && At(toks, pos, Spell(t))
    && r == Found(Denote(t), pos + |Spell(t)|)
  }

  lemma {:induction false} RecoverTest(toks: seq<Token>, pos: nat, depth: nat) returns (t: Test)
    requires Terminated(toks) && pos < |toks|
    requires ParseTest(toks, pos, depth).Found?
    ensures Explains(t, toks, pos, depth, ParseTest(toks, pos, depth))
    decreases |toks| - pos, 1
  {
    hide ParseNot, ParseGroup, ParseHeader, ParseExists, ParseValueTest, EqualFold, Lower, WellSpelled, At, Spell, Denote;
    match KeywordOf(toks[pos].text)
    case KwNot => t := RecoverNot(toks, pos, depth);
    case KwGroup => t := RecoverGroup(toks, pos, depth);
    case KwHeader => t := RecoverHeader(toks, pos);
    case KwExists => t := RecoverExists(toks, pos);
    case KwBody => t := RecoverValueTest(toks, pos, true);
    case KwHasFlag => t := RecoverValueTest(toks, pos, false);
  }

  lemma {:induction false} RecoverNot(toks: seq<Token>, pos: nat, depth: nat) returns (t: Test)
    requires Terminated(toks) && pos + 1 < |toks| && toks[pos].kind == Word && EqualFold(toks[pos].text, "not")
    requires ParseNot(toks, pos, depth).Found?
    ensures Explains(t, toks, pos, depth, ParseNot(toks, pos, depth))
    decreases |toks| - pos, 0
  {
    hide KeywordOf;
    var inner := RecoverTest(toks, pos + 1, depth + 1);
    t := Not(toks[pos].text, inner);
    AtHead(toks, pos, Lexeme(Word, t.word), Spell(inner));
  }

  lemma {:induction false} RecoverGroup(toks: seq<Token>, pos: nat, depth: nat) returns (t: Test)
    requires Terminated(toks) && pos + 1 < |toks| && toks[pos].kind == Word
    requires EqualFold(toks[pos].text, "allof") || EqualFold(toks[pos].text, "anyof")
    requires ParseGroup(toks, pos, depth).Found?
    ensures Explains(t, toks, pos, depth, ParseGroup(toks, pos, depth))
    decreases |toks| - pos, 0
  {
    hide KeywordOf, Lower, EqualFold, ParseTests, SpellAll, DenoteAll, AcceptsAll, Accepts, At;
    var tests := RecoverTests(toks, pos + 2, depth + 1);
    t := Group(toks[pos].text, tests);
    AcceptsGroup(t, depth);
    var open, close, body := Lexeme(LParen, "("), Lexeme(RParen, ")"), SpellAll(tests);
    AtOne(toks, pos + 2 + |body|, close);
    AtSplit(toks, pos + 2, body, [close]);
    AtHead(toks, pos + 1, open, body + [close]);
    AtHead(toks, pos, Lexeme(Word, t.word), [open] + (body + [close]));
  }

  lemma LoneTest(t: Test, depth: nat)
    ensures AcceptsAll([t], depth) == Accepts(t, depth) && SpellAll([t]) == Spell(t) && DenoteAll([t]) == [Denote(t)]
  {
    hide Accepts, Spell, Denote;
    assert [t][0] == t && [t][1..] == [];
    assert DenoteAll([t]) == [Denote(t)] + DenoteAll([]);
    if Accepts(t, depth) {
      assert AcceptsAll([t], depth);
    }
  }

  lemma {:induction false} RecoverTests(toks: seq<Token>, pos: nat, depth: nat) returns (tests: seq<Test>)
    requires Terminated(toks) && pos < |toks|
    requires ParseTests(toks, pos, depth).Found?
    ensures tests != [] && AcceptsAll(tests, depth)
    ensures forall i :: 0 <= i < |tests| ==> WellSpelled(tests[i])
    ensures At(toks, pos, SpellAll(tests))
    ensures ParseTests(toks, pos, depth) == Found(DenoteAll(tests), pos + |SpellAll(tests)|)
    decreases |toks| - pos, 2
  {
    hide ParseTest, WellSpelled, Accepts, Denote, Spell, At, AcceptsAll, SpellAll, DenoteAll;
    var first := RecoverTest(toks, pos, depth);
    var next := pos + |Spell(first)|;
    if toks[next].kind == Comma {
      var rest := RecoverTests(toks, next + 1, depth);
      tests := [first] + rest;
      ConsSpelling(toks, pos, depth, first, rest);
      TestsStep(toks, pos, depth, Denote(first), next);
    } else {
      tests := [first];
      LoneTest(first, depth);
    }
  }

  lemma {:induction false} ConsSpelling(toks: seq<Token>, pos: nat, depth: nat, first: Test, rest: seq<Test>)
    requires rest != [] && AcceptsAll(rest, depth) && Accepts(first, depth)
    requires var next := pos + |Spell(first)|;
             && At(toks, pos, Spell(first)) && next < |toks| && toks[next].kind == Comma
             && At(toks, next + 1, SpellAll(rest))
    ensures var tests := [first] + rest;
            && AcceptsAll(tests, depth) && At(toks, pos, SpellAll(tests))
            && |SpellAll(tests)| == |Spell(first)| + 1 + |SpellAll(rest)|
            && DenoteAll(tests) == [Denote(first)] + DenoteAll(rest)
  {
    var tests := [first] + rest;
    assert tests[1..] == rest;
    var comma := Lexeme(Comma, ",");
    AtHead(toks, pos + |Spell(first)|, comma, SpellAll(rest));
    AtSplit(toks, pos, Spell(first), [comma] + SpellAll(rest));
  }

  /** The parser accepts exactly the grammar: what it finds at a position is the denotation of the
      tree spelled there, and every spelled tree within the nesting bound is found. */
  lemma {:induction false} ParserExact(toks: seq<Token>, pos: nat, depth: nat, c: Condition, end: nat)
    requires Terminated(toks) && pos < |toks|
    ensures ParseTest(toks, pos, depth) == Found(c, end)
       <==> exists t :: WellSpelled(t) && Accepts(t, depth) && At(toks, pos, Spell(t))
                        && Denote(t) == c && end == pos + |Spell(t)|
  {
    if ParseTest(toks, pos, depth) == Found(c, end) {
      var t := RecoverTest(toks, pos, depth);
    }
    if t :| WellSpelled(t) && Accepts(t, depth) && At(toks, pos, Spell(t))
            && Denote(t) == c && end == pos + |Spell(t)|
    {
      ReadTest(toks, pos, depth, t);
    }
  }

  // ---------- Meaning of parsed tests ----------

  lemma {:induction false} DenoteMeans(t: Test, input: EvalInput, p: Patterns)
    requires WellSpelled(t)
    ensures ConditionMatches(Denote(t), input, p) == Holds(t, input, p)
  {
    hide ConditionMatches, MatchesValue, EqualFold, Lower, Trim, FieldValue, FieldsToCondition, FieldsOk;
    match t {
      case Not(_, inner) =>
        DenoteMeans(inner, input, p);
        NegateMeans(Denote(inner), input, p);
      case Group(word, tests) =>
        forall i | 0 <= i < |tests|
          ensures ConditionMatches(DenoteAll(tests)[i], input, p) == Holds(tests[i], input, p)
        {
          DenoteAllAt(tests, i);
          DenoteMeans(tests[i], input, p);
        }
        GroupMeans(word, DenoteAll(tests), input, p);
      case Header(_, tag, fields, value) =>
        ListedFields(fields);
        FieldsMean(fields.items, TagOr(tag, "is"), value, input, p);
      case Exists(_, fields) =>
        ListedFields(fields);
        FieldsMean(fields.items, "exists", "", input, p);
        forall i | 0 <= i < |fields.items|
          ensures MatchesValue("exists", FieldValue(input, fields.items[i]), "", p) == (Trim(FieldValue(input, fields.items[i])) != "")
        {
          ExistsMeans(FieldValue(input, fields.items[i]), p);
        }
      case Body(_, tag, value) => BodyMeans(TagOr(tag, "contains"), value, input, p);
      case HasFlag(_, tag, value) => FlagMeans(TagOr(tag, "is"), value, input, p);
    }
  }

  lemma ListedFields(l: StringList)
    requires FieldsOk(l)
    ensures l.items != [] && forall i :: 0 <= i < |l.items| ==> NormalizeField(l.items[i]) in HEADER_FIELDS
  {
  }

  lemma NegateMeans(c: Condition, input: EvalInput, p: Patterns)
    ensures ConditionMatches(c.(negate := !c.negate), input, p) == !ConditionMatches(c, input, p)
  {
  }

  lemma {:induction false} ExistsMeans(candidate: string, p: Patterns)
    ensures MatchesValue("exists", candidate, "", p) == (Trim(candidate) != "")
  {
    PlainField("exists");
  }

  lemma {:induction false} BodyMeans(comparator: string, value: string, input: EvalInput, p: Patterns)
    ensures ConditionMatches(Leaf("body", comparator, value), input, p) == MatchesValue(comparator, input.body, value, p)
  {
    hide MatchesValue;
    PlainField("body");
    PlainField("keyword");
  }

  lemma {:induction false} FlagMeans(comparator: string, value: string, input: EvalInput, p: Patterns)
    ensures ConditionMatches(Leaf("keyword", comparator, value), input, p)
         == exists i :: 0 <= i < |input.keywords| && MatchesValue(comparator, input.keywords[i], value, p)
  {
    hide MatchesValue;
    PlainField("keyword");
  }

  lemma {:induction false} PlainField(f: string)
    requires AllLowerLetters(f)
    ensures Trim(f) == f && Lower(f) == f && Fold(f) == f
  {
    FoldLetters(f);
    LowerLettersSpaceFree(f);
  }

  lemma {:induction false} GroupMeans(word: string, cs: seq<Condition>, input: EvalInput, p: Patterns)
    requires EqualFold(word, "allof") || EqualFold(word, "anyof")
    ensures ConditionMatches(GroupCondition(MatchGroup(Lower(word), cs)), input, p)
         == if EqualFold(word, "anyof") then exists i :: 0 <= i < |cs| && ConditionMatches(cs[i], input, p)
            else forall i :: 0 <= i < |cs| ==> ConditionMatches(cs[i], input, p)
  {
    GroupWord(word);
    hide EqualFold, Lower, Trim;
    if EqualFold(word, "anyof") {
      AnyOfMeans(cs, input, p);
    } else {
      AllOfMeans(cs, input, p);
    }
  }

  lemma {:induction false} FieldMeans(field: string, comparator: string, value: string, input: EvalInput, p: Patterns)
    requires NormalizeField(field) in HEADER_FIELDS
    ensures ConditionMatches(Leaf(NormalizeField(field), comparator, value), input, p)
         == MatchesValue(comparator, FieldValue(input, field), value, p)
  {
    hide MatchesValue, Lower, Trim, EqualFold;
    var f := NormalizeField(field);
    HeaderFieldPlain(f);
  }

  lemma {:induction false} HeaderFieldPlain(f: string)
    requires f in HEADER_FIELDS
    ensures Lower(Trim(f)) == f && !EqualFold(Trim(f), "keyword")
  {
    assert AllLowerLetters(f);
    PlainField(f);
    PlainField("keyword");
    hide Lower, Trim, Fold;
  }

  /** A field list matches when any of its fields does. */
  lemma {:induction false} FieldsMean(fields: seq<string>, comparator: string, value: string, input: EvalInput, p: Patterns)
    requires fields != [] && forall i :: 0 <= i < |fields| ==> NormalizeField(fields[i]) in HEADER_FIELDS
    ensures ConditionMatches(FieldsToCondition(fields, comparator, value), input, p)
         == exists i :: 0 <= i < |fields| && MatchesValue(comparator, FieldValue(input, fields[i]), value, p)
  {
    hide MatchesValue, FieldValue, ConditionMatches, GroupMatches, NormalizeField, Lower, Trim;
    forall i | 0 <= i < |fields|
      ensures ConditionMatches(Leaf(NormalizeField(fields[i]), comparator, value), input, p)
           == MatchesValue(comparator, FieldValue(input, fields[i]), value, p)
    {
      FieldMeans(fields[i], comparator, value, input, p);
    }
    if |fields| > 1 {
      var cs := FieldsToCondition(fields, comparator, value).group.value.conditions;
      AnyOfMeans(cs, input, p);
      assert forall i :: 0 <= i < |cs| ==> cs[i] == Leaf(NormalizeField(fields[i]), comparator, value);
    }
  }

  lemma {:induction false} AnyOfMeans(cs: seq<Condition>, input: EvalInput, p: Patterns)
    ensures ConditionMatches(GroupCondition(MatchGroup("anyof", cs)), input, p)
         == exists i :: 0 <= i < |cs| && ConditionMatches(cs[i], input, p)
  {
    PlainField("anyof");
    hide Lower, Trim, Fold;
  }

  lemma {:induction false} AllOfMeans(cs: seq<Condition>, input: EvalInput, p: Patterns)
    ensures ConditionMatches(GroupCondition(MatchGroup("allof", cs)), input, p)
         == forall i :: 0 <= i < |cs| ==> ConditionMatches(cs[i], input, p)
  {
    PlainField("allof");
    hide Lower, Trim, Fold;
  }
}
