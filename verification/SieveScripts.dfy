/** Whole scripts: the parser accepts exactly the spellings of well-formed scripts, and the rule it
    returns means what the script means, unless the root test is a negated group. */
module SieveScripts {
  import opened Wrappers
  import opened Text
  import opened RuleModel
  import opened SieveLexer
  import opened SieveParser
  import opened RulesEngine
  import opened SieveGrammar

  datatype Require = Require(word: string, caps: StringList)

  datatype Statement = Statement(word: string, value: Option<string>)

  datatype Script = Script(requires_: seq<Require>, ifWord: string, test: Test, body: seq<Statement>)

  // ---------- Spelling ----------

  function SpellRequire(r: Require): seq<Lexeme> {
    [Lexeme(Word, r.word)] + (SpellList(r.caps) + [Lexeme(Semicolon, ";")])
  }

  function SpellRequires(rs: seq<Require>): seq<Lexeme> {
    if rs == [] then [] else SpellRequire(rs[0]) + SpellRequires(rs[1..])
  }

  function SpellValue(value: Option<string>): seq<Lexeme> {
    if value.Some? then [Lexeme(Str, value.value)] else []
  }

  function SpellStatement(s: Statement): seq<Lexeme> {
    [Lexeme(Word, s.word)] + (SpellValue(s.value) + [Lexeme(Semicolon, ";")])
  }

  function SpellBody(body: seq<Statement>): seq<Lexeme> {
    if body == [] then [] else SpellStatement(body[0]) + SpellBody(body[1..])
  }

  function SpellBlock(s: Script): seq<Lexeme> {
    Spell(s.test) + ([Lexeme(LBrace, "{")] + (SpellBody(s.body) + Closing()))
  }

  /** The closing brace and the end of the text. */
  function Closing(): seq<Lexeme> {
    [Lexeme(RBrace, "}"), Lexeme(Eof, "")]
  }

  function SpellScript(s: Script): seq<Lexeme> {
    SpellRequires(s.requires_) + ([Lexeme(Word, s.ifWord)] + SpellBlock(s))
  }

  // ---------- Well-formed scripts ----------

  predicate RequireOk(r: Require) {
    && EqualFold(r.word, "require") && ListOk(r.caps)
    && forall i :: 0 <= i < |r.caps.items| ==> Lower(Trim(r.caps.items[i])) in ALLOWED_CAPABILITIES
  }

  predicate StatementOk(s: Statement) {
    var k := ActionKind(Lower(s.word));
    k.Some? && k.value.1 == s.value.Some?
  }

  predicate ScriptOk(s: Script) {
    && (forall i :: 0 <= i < |s.requires_| ==> RequireOk(s.requires_[i]))
    && EqualFold(s.ifWord, "if")
    && WellSpelled(s.test)
    && (forall i :: 0 <= i < |s.body| ==> StatementOk(s.body[i]))
  }

  function StatementAction(s: Statement): Action
    requires StatementOk(s)
  {
    Action(ActionKind(Lower(s.word)).value.0, if s.value.Some? then s.value.value else "")
  }

  /** The actions of a script body: `keep` is implicit and leaves none. */
  function BodyActions(body: seq<Statement>): seq<Action>
    requires forall i :: 0 <= i < |body| ==> StatementOk(body[i])
  {
    if body == [] then []
    else
      var a := StatementAction(body[0]);
      (if a.kind == "keep" then [] else [a]) + BodyActions(body[1..])
  }

  // ---------- Reading a script back ----------

  lemma {:induction false} AtClosing(toks: seq<Token>, pos: nat)
    ensures At(toks, pos, Closing())
       <==> pos + 1 < |toks| && toks[pos].kind == RBrace && toks[pos + 1].kind == Eof
  {
    assert Closing() == [Lexeme(RBrace, "}")] + [Lexeme(Eof, "")];
    AtHead(toks, pos, Lexeme(RBrace, "}"), [Lexeme(Eof, "")]);
    AtOne(toks, pos + 1, Lexeme(Eof, ""));
  }

  /** A statement is written at `pos` exactly when these tokens stand there. */
  lemma {:induction false} AtStatement(toks: seq<Token>, pos: nat, s: Statement)
    ensures At(toks, pos, SpellStatement(s))
       <==> var semi := pos + 1 + |SpellValue(s.value)|;
            && semi < |toks| && Same(toks[pos], Lexeme(Word, s.word))
            && (s.value.Some? ==> Same(toks[pos + 1], Lexeme(Str, s.value.value)))
            && toks[semi].kind == Semicolon
  {
    var semi := pos + 1 + |SpellValue(s.value)|;
    AtHead(toks, pos, Lexeme(Word, s.word), SpellValue(s.value) + [Lexeme(Semicolon, ";")]);
    AtSplit(toks, pos + 1, SpellValue(s.value), [Lexeme(Semicolon, ";")]);
    AtOne(toks, semi, Lexeme(Semicolon, ";"));
    if s.value.Some? {
      AtOne(toks, pos + 1, Lexeme(Str, s.value.value));
    }
  }

  lemma {:induction false} ReadStatement(toks: seq<Token>, pos: nat, s: Statement)
    requires Terminated(toks) && StatementOk(s) && At(toks, pos, SpellStatement(s))
    requires pos + |SpellStatement(s)| < |toks|
    ensures toks[pos].kind == Word
    ensures ParseAction(toks, pos) == Found(StatementAction(s), pos + |SpellStatement(s)|)
  {
    AtStatement(toks, pos, s);
  }

  lemma {:induction false} ReadBody(toks: seq<Token>, pos: nat, body: seq<Statement>)
    requires Terminated(toks) && forall i :: 0 <= i < |body| ==> StatementOk(body[i])
    requires At(toks, pos, SpellBody(body) + Closing())
    ensures pos < |toks|
    ensures ParseActions(toks, pos) == Found(BodyActions(body), pos + |SpellBody(body)|)
    ensures pos + |SpellBody(body)| + 1 < |toks| && toks[pos + |SpellBody(body)| + 1].kind == Eof
    decreases |body|
  {
    hide ActionKind, ParseAction, SpellStatement, StatementAction, StatementOk, Closing, At;
    if body == [] {
      assert [] + Closing() == Closing();
      AtClosing(toks, pos);
    } else {
      var rest := SpellBody(body[1..]);
      Assoc(SpellStatement(body[0]), rest, Closing());
      AtSplit(toks, pos, SpellStatement(body[0]), rest + Closing());
      var next := pos + |SpellStatement(body[0])|;
      assert forall i :: 0 <= i < |body[1..]| ==> body[1..][i] == body[i + 1];
      ReadBody(toks, next, body[1..]);
      ReadStatement(toks, pos, body[0]);
    }
  }

  /** A `require` is written at `pos` exactly when these tokens stand there. */
  lemma {:induction false} AtRequire(toks: seq<Token>, pos: nat, r: Require)
    ensures At(toks, pos, SpellRequire(r))
       <==> var semi := pos + 1 + |SpellList(r.caps)|;
            && semi < |toks| && Same(toks[pos], Lexeme(Word, r.word))
            && At(toks, pos + 1, SpellList(r.caps)) && toks[semi].kind == Semicolon
    ensures |SpellRequire(r)| == 2 + |SpellList(r.caps)|
  {
    var list := SpellList(r.caps);
    AtHead(toks, pos, Lexeme(Word, r.word), list + [Lexeme(Semicolon, ";")]);
    AtSplit(toks, pos + 1, list, [Lexeme(Semicolon, ";")]);
    AtOne(toks, pos + 1 + |list|, Lexeme(Semicolon, ";"));
  }

  lemma {:induction false} RequireStep(toks: seq<Token>, pos: nat, caps: seq<string>, semi: nat)
    requires Terminated(toks) && pos < semi && semi + 1 < |toks| && IsWord(toks[pos], "require")
    requires ParseStringList(toks, pos + 1) == Found(caps, semi) && toks[semi].kind == Semicolon
    requires forall i :: 0 <= i < |caps| ==> Lower(Trim(caps[i])) in ALLOWED_CAPABILITIES
    ensures ParseRequires(toks, pos) == ParseRequires(toks, semi + 1)
  {
  }

  lemma {:induction false} ReadRequires(toks: seq<Token>, pos: nat, rs: seq<Require>, rest: seq<Lexeme>)
    requires Terminated(toks) && forall i :: 0 <= i < |rs| ==> RequireOk(rs[i])
    requires rest != [] && rest[0].kind == Word && !EqualFold(rest[0].text, "require")
    requires At(toks, pos, SpellRequires(rs) + rest)
    ensures pos < |toks|
    ensures ParseRequires(toks, pos) == Found((), pos + |SpellRequires(rs)|)
    ensures At(toks, pos + |SpellRequires(rs)|, rest)
    decreases |rs|
  {
    hide Lower, Trim, EqualFold, BadCapability, ParseStringList, SpellList, SpellRequire;
    if rs == [] {
      assert [] + rest == rest;
    } else {
      var r, more := rs[0], SpellRequires(rs[1..]);
      Assoc(SpellRequire(r), more, rest);
      AtSplit(toks, pos, SpellRequire(r), more + rest);
      AtRequire(toks, pos, r);
      ReadList(toks, pos + 1, r.caps);
      assert forall i :: 0 <= i < |rs[1..]| ==> rs[1..][i] == rs[i + 1];
      ReadRequires(toks, pos + |SpellRequire(r)|, rs[1..], rest);
      RequireStep(toks, pos, r.caps.items, pos + 1 + |SpellList(r.caps)|);
    }
  }

  lemma {:induction false} IfIsNotRequire(word: string)
    requires EqualFold(word, "if")
    ensures !EqualFold(word, "require")
  {
    assert |Fold("require")| == 7 && |Fold("if")| == 2;
  }

  /** A well-formed script is accepted exactly when no group is empty and its tests nest at most 32
      deep, and then yields its root test and its actions. */
  lemma {:induction false} ReadScript(toks: seq<Token>, s: Script)
    requires Terminated(toks) && ScriptOk(s)
    requires At(toks, 0, SpellScript(s))
    ensures Accepts(s.test, 0) ==> ParseScript(toks) == Ok((Denote(s.test), BodyActions(s.body)))
    ensures !Accepts(s.test, 0) ==> ParseScript(toks).Err?
  {
    hide ParseRequires, ParseBlock, WellSpelled, Accepts, Denote, Spell, SpellBody, SpellRequires, BodyActions, StatementOk,
         RequireOk, Closing, At, EqualFold;
    var word := Lexeme(Word, s.ifWord);
    IfIsNotRequire(s.ifWord);
    ReadRequires(toks, 0, s.requires_, [word] + SpellBlock(s));
    var ifPos := |SpellRequires(s.requires_)|;
    AtHead(toks, ifPos, word, SpellBlock(s));
    ReadBlock(toks, ifPos + 1, s);
  }

  lemma {:induction false} ReadBlock(toks: seq<Token>, pos: nat, s: Script)
    requires Terminated(toks) && ScriptOk(s)
    requires At(toks, pos, SpellBlock(s))
    ensures pos < |toks|
    ensures Accepts(s.test, 0)
        ==> && ParseBlock(toks, pos).Found?
            && ParseBlock(toks, pos).value == (Denote(s.test), BodyActions(s.body))
            && toks[ParseBlock(toks, pos).end].kind == Eof
    ensures !Accepts(s.test, 0) ==> ParseBlock(toks, pos).Failed?
  {
    hide ParseTest, ParseActions, WellSpelled, Accepts, Denote, Spell, SpellBody, BodyActions, StatementOk, Closing, At;
    var tail := SpellBody(s.body) + Closing();
    AtSplit(toks, pos, Spell(s.test), [Lexeme(LBrace, "{")] + tail);
    ReadTest(toks, pos, 0, s.test);
    var brace := pos + |Spell(s.test)|;
    AtHead(toks, brace, Lexeme(LBrace, "{"), tail);
    ReadBody(toks, brace + 1, s.body);
  }

  // ---------- Recovering the script ----------

  lemma {:induction false} RecoverBody(toks: seq<Token>, pos: nat) returns (body: seq<Statement>)
    requires Terminated(toks) && pos < |toks| && ParseActions(toks, pos).Found?
    ensures forall i :: 0 <= i < |body| ==> StatementOk(body[i])
    ensures At(toks, pos, SpellBody(body))
    ensures ParseActions(toks, pos) == Found(BodyActions(body), pos + |SpellBody(body)|)
    decreases |toks| - pos
  {
    if toks[pos].kind == RBrace {
      body := [];
    } else {
      var s := RecoverStatement(toks, pos);
      hide ActionKind, ParseAction, SpellStatement, StatementAction;
      var next := pos + |SpellStatement(s)|;
      var rest := RecoverBody(toks, next);
      body := [s] + rest;
      assert body[1..] == rest;
      AtSplit(toks, pos, SpellStatement(s), SpellBody(rest));
    }
  }

  lemma {:induction false} RecoverStatement(toks: seq<Token>, pos: nat) returns (s: Statement)
    requires Terminated(toks) && pos < |toks| && ParseAction(toks, pos).Found?
    ensures StatementOk(s) && At(toks, pos, SpellStatement(s))
    ensures ParseAction(toks, pos) == Found(StatementAction(s), pos + |SpellStatement(s)|)
  {
    var takes := ActionKind(Lower(toks[pos].text)).value.1;
    s := Statement(toks[pos].text, if takes then Some(toks[pos + 1].text) else None);
    AtStatement(toks, pos, s);
  }

  lemma {:induction false} RecoverRequires(toks: seq<Token>, pos: nat) returns (rs: seq<Require>)
    requires Terminated(toks) && pos < |toks| && ParseRequires(toks, pos).Found?
    ensures forall i :: 0 <= i < |rs| ==> RequireOk(rs[i])
    ensures At(toks, pos, SpellRequires(rs))
    ensures ParseRequires(toks, pos).end == pos + |SpellRequires(rs)|
    ensures !IsWord(toks[ParseRequires(toks, pos).end], "require")
    decreases |toks| - pos
  {
    hide Lower, Trim, EqualFold, SpellList, SpellRequire, ParseStringList;
    if !IsWord(toks[pos], "require") {
      rs := [];
    } else {
      var caps := RecoverList(toks, pos + 1);
      var r := Require(toks[pos].text, caps);
      AtRequire(toks, pos, r);
      var next := pos + |SpellRequire(r)|;
      RequireStep(toks, pos, caps.items, next - 1);
      var rest := RecoverRequires(toks, next);
      rs := [r] + rest;
      assert rs[1..] == rest;
      AtSplit(toks, pos, SpellRequire(r), SpellRequires(rest));
    }
  }

  lemma {:induction false} RecoverBlock(toks: seq<Token>, pos: nat) returns (test: Test, body: seq<Statement>)
    requires Terminated(toks) && pos < |toks| && ParseBlock(toks, pos).Found?
    requires toks[ParseBlock(toks, pos).end].kind == Eof
    ensures WellSpelled(test) && Accepts(test, 0) && forall i :: 0 <= i < |body| ==> StatementOk(body[i])
    ensures ParseBlock(toks, pos).value == (Denote(test), BodyActions(body))
    ensures At(toks, pos, Spell(test) + ([Lexeme(LBrace, "{")] + (SpellBody(body) + Closing())))
  {
    hide ParseTest, ParseActions, WellSpelled, Accepts, Denote, Spell, SpellBody, BodyActions, StatementOk, Closing, At;
    test := RecoverTest(toks, pos, 0);
    var brace := pos + |Spell(test)|;
    body := RecoverBody(toks, brace + 1);
    var end := brace + 1 + |SpellBody(body)|;
    AtClosing(toks, end);
    AtSplit(toks, brace + 1, SpellBody(body), Closing());
    AtHead(toks, brace, Lexeme(LBrace, "{"), SpellBody(body) + Closing());
    AtSplit(toks, pos, Spell(test), [Lexeme(LBrace, "{")] + (SpellBody(body) + Closing()));
  }

  lemma {:induction false} RecoverScript(toks: seq<Token>) returns (s: Script)
    requires Terminated(toks) && ParseScript(toks).Ok?
    ensures ScriptOk(s) && Accepts(s.test, 0) && At(toks, 0, SpellScript(s))
    ensures ParseScript(toks) == Ok((Denote(s.test), BodyActions(s.body)))
  {
    hide ParseRequires, ParseBlock, WellSpelled, Accepts, Denote, Spell, SpellBody, SpellRequires, BodyActions, StatementOk,
         RequireOk, Closing, At, EqualFold;
    var rs := RecoverRequires(toks, 0);
    var ifPos := |SpellRequires(rs)|;
    var test, body := RecoverBlock(toks, ifPos + 1);
    s := Script(rs, toks[ifPos].text, test, body);
    AtHead(toks, ifPos, Lexeme(Word, s.ifWord), SpellBlock(s));
    AtSplit(toks, 0, SpellRequires(rs), [Lexeme(Word, s.ifWord)] + SpellBlock(s));
  }

  /** The text is a spelling of the script. */
  ghost predicate Spells(text: string, s: Script) {
    Lex(text, 0).Ok? && At(Lex(text, 0).value, 0, SpellScript(s))
  }

  /** Parser soundness and completeness on texts: a text is accepted exactly when it spells a
      well-formed script without empty groups, nested at most 32 deep; the rule is then the
      script's, all other fields being kept. */
  lemma {:induction false} ParseTextExact(text: string, existing: Rule, r: Rule)
    ensures ParseText(text, existing) == Ok(r)
       <==> exists s :: ScriptOk(s) && Accepts(s.test, 0) && Spells(text, s)
                        && r == existing.(match_ := RootMatch(Denote(s.test)), actions := BodyActions(s.body))
  {
    if ParseText(text, existing) == Ok(r) {
      var s := RecoverScript(Lex(text, 0).value);
      assert Spells(text, s);
    }
    if s :| ScriptOk(s) && Accepts(s.test, 0) && Spells(text, s)
            && r == existing.(match_ := RootMatch(Denote(s.test)), actions := BodyActions(s.body))
    {
      ReadScript(Lex(text, 0).value, s);
    }
  }

  // ---------- What the parsed rule means ----------

  predicate GroupShaped(t: Test) {
    match t
    case Not(_, inner) => GroupShaped(inner)
    case Group(_, _) => true
    case Header(_, _, fields, _) => |fields.items| > 1
    case Exists(_, fields) => |fields.items| > 1
    case _ => false
  }

  predicate OddNots(t: Test) {
    t.Not? && !OddNots(t.inner)
  }

  /** The root is an odd number of `not`s in front of a group or of a test with several fields. */
  predicate NegatedGroupRoot(t: Test) {
    GroupShaped(t) && OddNots(t)
  }

  lemma {:induction false} RootShape(t: Test)
    requires WellSpelled(t)
    ensures Denote(t).group.Some? <==> GroupShaped(t)
    ensures Denote(t).negate <==> OddNots(t)
  {
    if t.Not? {
      RootShape(t.inner);
    }
  }

  /** The rule built from a root test matches what the test says, or its opposite when the root is
      a negated group. */
  lemma {:induction false} RootMeans(t: Test, input: EvalInput, p: Patterns)
    requires WellSpelled(t)
    ensures GroupMatches(RootMatch(Denote(t)), input, p)
         == if NegatedGroupRoot(t) then !Holds(t, input, p) else Holds(t, input, p)
  {
    RootShape(t);
    DenoteMeans(t, input, p);
    var c := Denote(t);
    PlainField("allof");
    if c.group == None {
      assert GroupMatches(MatchGroup("allof", [c]), input, p)
        == forall i :: 0 <= i < |[c]| ==> ConditionMatches([c][i], input, p);
      assert [c][0] == c;
    }
  }

  /** A script keeps its meaning when parsed exactly if its root is not a negated group. */
  lemma {:induction false} RootMeaningExact(t: Test)
    requires WellSpelled(t)
    ensures (forall input, p :: GroupMatches(RootMatch(Denote(t)), input, p) == Holds(t, input, p))
       <==> !NegatedGroupRoot(t)
  {
    forall input, p
      ensures GroupMatches(RootMatch(Denote(t)), input, p)
           == if NegatedGroupRoot(t) then !Holds(t, input, p) else Holds(t, input, p)
    {
      RootMeans(t, input, p);
    }
    var input := EvalInput("", "", "", "", "", "", [], "");
    var p := Patterns((a, b) => false, (a, b) => false);
    assert NegatedGroupRoot(t) ==> GroupMatches(RootMatch(Denote(t)), input, p) != Holds(t, input, p);
  }

  // ---------- `exists` with several fields ----------

  /** Every listed field is there (RFC 5228, section 5.5). */
  predicate AllPresent(fields: seq<string>, input: EvalInput) {
    forall i :: 0 <= i < |fields| ==> Trim(FieldValue(input, fields[i])) != ""
  }

  /** A message with nothing but one header field. */
  function OnlyField(field: string): EvalInput {
    EvalInput(
      if field == "from" then "x" else "",
      if field == "to" then "x" else "",
      if field == "cc" then "x" else "",
      if field == "bcc" then "x" else "",
      if field == "subject" then "x" else "",
      "", [], "")
  }

  lemma OnlyFieldValue(field: string, other: string)
    requires NormalizeField(field) in HEADER_FIELDS
    ensures Trim(FieldValue(OnlyField(NormalizeField(field)), other)) != "" <==> NormalizeField(other) == NormalizeField(field)
  {
    assert Trim("x") == "x" && Trim("") == "";
  }

  /** All names in the list are the same field. */
  predicate OneFieldOnly(fields: seq<string>) {
    forall i, j :: 0 <= i < |fields| && 0 <= j < |fields| ==> NormalizeField(fields[i]) == NormalizeField(fields[j])
  }

  ghost predicate MatchesAllPresent(c: Condition, fields: seq<string>) {
    forall input, p :: ConditionMatches(c, input, p) == AllPresent(fields, input)
  }

  predicate AnyPresent(fields: seq<string>, input: EvalInput) {
    exists i :: 0 <= i < |fields| && Trim(FieldValue(input, fields[i])) != ""
  }

  /** The rule built for an `exists` test asks for any of the fields; that is all of them exactly when
      the list names a single field. */
  lemma {:induction false} ExistsMeaningExact(t: Test)
    requires t.Exists? && WellSpelled(t)
    ensures MatchesAllPresent(Denote(t), t.fields.items) <==> OneFieldOnly(t.fields.items)
  {
    hide ConditionMatches, FieldValue, NormalizeField, Trim, Denote, AnyPresent, AllPresent, OneFieldOnly;
    var fields := t.fields.items;
    ListedFields(t.fields);
    forall input, p
      ensures ConditionMatches(Denote(t), input, p) == AnyPresent(fields, input)
    {
      ExistsAsksAny(t, input, p);
    }
    if OneFieldOnly(fields) {
      forall input
        ensures AnyPresent(fields, input) == AllPresent(fields, input)
      {
        OneFieldPresent(fields, input);
      }
    } else {
      var input := SeveralFields(fields);
      assert ConditionMatches(Denote(t), input, Patterns((a, b) => false, (a, b) => false)) != AllPresent(fields, input);
    }
  }

  lemma {:induction false} ExistsAsksAny(t: Test, input: EvalInput, p: Patterns)
    requires t.Exists? && WellSpelled(t)
    ensures ConditionMatches(Denote(t), input, p) == AnyPresent(t.fields.items, input)
  {
    hide ConditionMatches, FieldValue, Trim, Denote;
    DenoteMeans(t, input, p);
  }

  lemma {:induction false} OneFieldPresent(fields: seq<string>, input: EvalInput)
    requires fields != [] && OneFieldOnly(fields)
    ensures AnyPresent(fields, input) == AllPresent(fields, input)
  {
    hide Trim, Lower;
    forall i | 0 <= i < |fields|
      ensures FieldValue(input, fields[i]) == FieldValue(input, fields[0])
    {
      assert NormalizeField(fields[i]) == NormalizeField(fields[0]);
    }
    hide FieldValue;
    if AllPresent(fields, input) {
      assert Trim(FieldValue(input, fields[0])) != "";
    }
  }

  lemma {:induction false} SeveralFields(fields: seq<string>) returns (input: EvalInput)
    requires !OneFieldOnly(fields) && forall i :: 0 <= i < |fields| ==> NormalizeField(fields[i]) in HEADER_FIELDS
    ensures AnyPresent(fields, input) && !AllPresent(fields, input)
  {
    hide FieldValue, NormalizeField, Trim, OnlyField;
    var i, j :| 0 <= i < |fields| && 0 <= j < |fields| && NormalizeField(fields[i]) != NormalizeField(fields[j]);
    input := OnlyField(NormalizeField(fields[i]));
    OnlyFieldValue(fields[i], fields[i]);
    OnlyFieldValue(fields[i], fields[j]);
  }
}
