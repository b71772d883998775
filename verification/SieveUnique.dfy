/** The language is unambiguous: a text spells at most one well-formed script. */
module SieveUnique {
  import opened Wrappers
  import opened Text
  import opened SieveLexer
  import opened SieveParser
  import opened SieveGrammar
  import opened SieveScripts

  // ---------- Lists and tags ----------

  lemma {:induction false} ItemsLength(items: seq<string>, trailingComma: bool)
    ensures |SpellItems(items, trailingComma)|
         == if items == [] then 0 else 2 * |items| - 1 + (if trailingComma then 1 else 0)
    decreases |items|
  {
    if items != [] {
      ItemsLength(items[1..], trailingComma);
    }
  }

  lemma {:induction false} SameList(toks: seq<Token>, pos: nat, l: StringList, m: StringList)
    requires Terminated(toks) && ListOk(l) && ListOk(m)
    requires At(toks, pos, SpellList(l)) && At(toks, pos, SpellList(m))
    ensures l == m
  {
    hide At, SpellItems, ParseStringList;
    ReadList(toks, pos, l);
    ReadList(toks, pos, m);
    ItemsLength(l.items, l.trailingComma);
    ItemsLength(m.items, m.trailingComma);
  }

  lemma {:induction false} SameTag(toks: seq<Token>, pos: nat, tag: Option<string>, tag': Option<string>,
                                   rest: seq<Lexeme>, rest': seq<Lexeme>)
    requires rest != [] && rest[0].kind != ColonTag && rest' != [] && rest'[0].kind != ColonTag
    requires At(toks, pos, SpellTag(tag) + rest) && At(toks, pos, SpellTag(tag') + rest')
    ensures tag == tag'
    ensures At(toks, pos + |SpellTag(tag)|, rest) && At(toks, pos + |SpellTag(tag)|, rest')
  {
    AtSplit(toks, pos, SpellTag(tag), rest);
    AtSplit(toks, pos, SpellTag(tag'), rest');
    if tag.Some? {
      AtOne(toks, pos, Lexeme(ColonTag, tag.value));
    }
    if tag'.Some? {
      AtOne(toks, pos, Lexeme(ColonTag, tag'.value));
    }
  }

  // ---------- Tests ----------

  lemma {:induction false} SpelledWord(toks: seq<Token>, pos: nat, t: Test)
    requires At(toks, pos, Spell(t))
    ensures pos < |toks| && toks[pos].kind == Word && toks[pos].text == t.word
    ensures At(toks, pos + 1, Spell(t)[1..])
  {
    assert Spell(t) == [Lexeme(Word, t.word)] + Spell(t)[1..];
    AtHead(toks, pos, Lexeme(Word, t.word), Spell(t)[1..]);
  }

  /** Where one test is spelled no other is. */
  lemma {:induction false} SameTest(toks: seq<Token>, pos: nat, t: Test, u: Test)
    requires Terminated(toks) && WellSpelled(t) && WellSpelled(u)
    requires At(toks, pos, Spell(t)) && At(toks, pos, Spell(u))
    ensures t == u
    decreases t, 1
  {
    hide At, EqualFold, SpellAll, SpellList, FieldsOk, TagOk, KeywordOf;
    SpelledWord(toks, pos, t);
    SpelledWord(toks, pos, u);
    KeywordsOf(t.word);
    match t {
      case Not(_, inner) =>
        assert Spell(t)[1..] == Spell(inner) && Spell(u)[1..] == Spell(u.inner);
        SameTest(toks, pos + 1, inner, u.inner);
      case Group(_, tests) => SameGroup(toks, pos, t, u);
      case Header(_, _, _, _) => SameHeader(toks, pos, t, u);
      case Exists(_, fields) =>
        assert Spell(t)[1..] == SpellList(fields) && Spell(u)[1..] == SpellList(u.fields);
        FieldsListed(fields);
        FieldsListed(u.fields);
        SameList(toks, pos + 1, fields, u.fields);
      case Body(_, _, _) => SameValueTest(toks, pos, t, u);
      case HasFlag(_, _, _) => SameValueTest(toks, pos, t, u);
    }
  }

  lemma FieldsListed(l: StringList)
    requires FieldsOk(l)
    ensures ListOk(l)
  {
  }

  lemma {:induction false} SameHeader(toks: seq<Token>, pos: nat, t: Test, u: Test)
    requires Terminated(toks) && t.Header? && u.Header? && FieldsOk(t.fields) && FieldsOk(u.fields) && t.word == u.word
    requires At(toks, pos + 1, Spell(t)[1..]) && At(toks, pos + 1, Spell(u)[1..])
    ensures t == u
  {
    hide At, FieldsOk, SpellItems;
    var l, m := SpellList(t.fields), SpellList(u.fields);
    var v, w := Lexeme(Str, t.value), Lexeme(Str, u.value);
    FieldsListed(t.fields);
    FieldsListed(u.fields);
    assert Spell(t)[1..] == SpellTag(t.tag) + (l + [v]) && Spell(u)[1..] == SpellTag(u.tag) + (m + [w]);
    SameTag(toks, pos + 1, t.tag, u.tag, l + [v], m + [w]);
    var next := pos + 1 + |SpellTag(t.tag)|;
    AtSplit(toks, next, l, [v]);
    AtSplit(toks, next, m, [w]);
    SameList(toks, next, t.fields, u.fields);
    AtOne(toks, next + |l|, v);
    AtOne(toks, next + |l|, w);
  }

  lemma {:induction false} SameValueTest(toks: seq<Token>, pos: nat, t: Test, u: Test)
    requires (t.Body? && u.Body?) || (t.HasFlag? && u.HasFlag?)
    requires t.word == u.word
    requires At(toks, pos + 1, Spell(t)[1..]) && At(toks, pos + 1, Spell(u)[1..])
    ensures t == u
  {
    hide At;
    var v, w := Lexeme(Str, t.value), Lexeme(Str, u.value);
    assert Spell(t)[1..] == SpellTag(t.tag) + [v] && Spell(u)[1..] == SpellTag(u.tag) + [w];
    SameTag(toks, pos + 1, t.tag, u.tag, [v], [w]);
    AtOne(toks, pos + 1 + |SpellTag(t.tag)|, v);
    AtOne(toks, pos + 1 + |SpellTag(t.tag)|, w);
  }

  lemma {:induction false} SameGroup(toks: seq<Token>, pos: nat, t: Test, u: Test)
    requires Terminated(toks) && WellSpelled(t) && WellSpelled(u) && t.Group? && u.Group? && t.word == u.word
    requires At(toks, pos, Spell(t)) && At(toks, pos, Spell(u))
    ensures t == u
    decreases t, 0
  {
    hide At, EqualFold, SpellAll;
    GroupShape(toks, pos, t);
    GroupShape(toks, pos, u);
    SameTests(toks, pos + 2, t.tests, u.tests);
  }

  /** The first test of a list, and what follows it. */
  lemma {:induction false} TestsFront(toks: seq<Token>, pos: nat, tests: seq<Test>)
    requires tests != [] && forall i :: 0 <= i < |tests| ==> WellSpelled(tests[i])
    requires At(toks, pos, SpellAll(tests) + [Lexeme(RParen, ")")])
    ensures At(toks, pos, Spell(tests[0])) && pos < |toks| && toks[pos].kind == Word
    ensures var next := pos + |Spell(tests[0])|;
            && next < |toks|
            && (if |tests| == 1 then toks[next].kind == RParen
                else toks[next].kind == Comma && At(toks, next + 1, SpellAll(tests[1..]) + [Lexeme(RParen, ")")]))
    ensures forall i :: 0 <= i < |tests[1..]| ==> WellSpelled(tests[1..][i])
  {
    hide At, Spell, WellSpelled;
    if |tests| > 1 {
      TestsShape(toks, pos, tests);
    } else {
      AtSplit(toks, pos, Spell(tests[0]), [Lexeme(RParen, ")")]);
      AtOne(toks, pos + |Spell(tests[0])|, Lexeme(RParen, ")"));
    }
    SpelledWord(toks, pos, tests[0]);
  }

  lemma {:induction false} NoTests(toks: seq<Token>, pos: nat)
    requires At(toks, pos, SpellAll([]) + [Lexeme(RParen, ")")])
    ensures pos < |toks| && toks[pos].kind == RParen
  {
    assert SpellAll([]) + [Lexeme(RParen, ")")] == [Lexeme(RParen, ")")];
    AtOne(toks, pos, Lexeme(RParen, ")"));
  }

  lemma {:induction false} SameTests(toks: seq<Token>, pos: nat, ts: seq<Test>, us: seq<Test>)
    requires Terminated(toks)
    requires forall i :: 0 <= i < |ts| ==> WellSpelled(ts[i])
    requires forall i :: 0 <= i < |us| ==> WellSpelled(us[i])
    requires At(toks, pos, SpellAll(ts) + [Lexeme(RParen, ")")]) && At(toks, pos, SpellAll(us) + [Lexeme(RParen, ")")])
    ensures ts == us
    decreases ts, 0
  {
    hide At, Spell, WellSpelled, SpellAll;
    if ts == [] || us == [] {
      NoTests(toks, pos);
      if ts != [] {
        TestsFront(toks, pos, ts);
      }
      if us != [] {
        TestsFront(toks, pos, us);
      }
    } else {
      TestsFront(toks, pos, ts);
      TestsFront(toks, pos, us);
      SameTest(toks, pos, ts[0], us[0]);
      if |ts| > 1 && |us| > 1 {
        SameTests(toks, pos + |Spell(ts[0])| + 1, ts[1..], us[1..]);
      }
      assert ts == [ts[0]] + ts[1..] && us == [us[0]] + us[1..];
    }
  }

  // ---------- Scripts ----------

  lemma {:induction false} SameStatement(toks: seq<Token>, pos: nat, s: Statement, s': Statement)
    requires StatementOk(s) && StatementOk(s')
    requires At(toks, pos, SpellStatement(s)) && At(toks, pos, SpellStatement(s'))
    ensures s == s'
  {
    hide At, ActionKind, SpellStatement;
    AtStatement(toks, pos, s);
    AtStatement(toks, pos, s');
  }

  lemma {:induction false} SameBody(toks: seq<Token>, pos: nat, a: seq<Statement>, b: seq<Statement>)
    requires forall i :: 0 <= i < |a| ==> StatementOk(a[i])
    requires forall i :: 0 <= i < |b| ==> StatementOk(b[i])
    requires At(toks, pos, SpellBody(a) + Closing()) && At(toks, pos, SpellBody(b) + Closing())
    ensures a == b
    decreases |a|
  {
    hide At, StatementOk, SpellStatement, Closing;
    BodyFront(toks, pos, a);
    BodyFront(toks, pos, b);
    if a != [] && b != [] {
      SameStatement(toks, pos, a[0], b[0]);
      assert forall i :: 0 <= i < |a[1..]| ==> a[1..][i] == a[i + 1];
      assert forall i :: 0 <= i < |b[1..]| ==> b[1..][i] == b[i + 1];
      SameBody(toks, pos + |SpellStatement(a[0])|, a[1..], b[1..]);
      assert a == [a[0]] + a[1..] && b == [b[0]] + b[1..];
    }
  }

  lemma {:induction false} BodyFront(toks: seq<Token>, pos: nat, body: seq<Statement>)
    requires At(toks, pos, SpellBody(body) + Closing())
    ensures pos < |toks|
    ensures if body == [] then toks[pos].kind == RBrace
            else && toks[pos].kind == Word && At(toks, pos, SpellStatement(body[0]))
                 && At(toks, pos + |SpellStatement(body[0])|, SpellBody(body[1..]) + Closing())
  {
    hide At, SpellStatement, Closing;
    if body == [] {
      assert SpellBody(body) + Closing() == Closing();
      AtClosing(toks, pos);
    } else {
      Assoc(SpellStatement(body[0]), SpellBody(body[1..]), Closing());
      AtSplit(toks, pos, SpellStatement(body[0]), SpellBody(body[1..]) + Closing());
      AtStatement(toks, pos, body[0]);
    }
  }

  lemma {:induction false} SameRequire(toks: seq<Token>, pos: nat, r: Require, r': Require)
    requires Terminated(toks) && ListOk(r.caps) && ListOk(r'.caps)
    requires At(toks, pos, SpellRequire(r)) && At(toks, pos, SpellRequire(r'))
    ensures r == r'
  {
    hide At, SpellList, SpellRequire;
    AtRequire(toks, pos, r);
    AtRequire(toks, pos, r');
    SameList(toks, pos + 1, r.caps, r'.caps);
  }

  /** Either the statements begin with a `require`, or the rest stands here. */
  lemma {:induction false} RequiresFront(toks: seq<Token>, pos: nat, rs: seq<Require>, rest: seq<Lexeme>)
    requires forall i :: 0 <= i < |rs| ==> RequireOk(rs[i])
    requires rest != [] && rest[0].kind == Word && !EqualFold(rest[0].text, "require")
    requires At(toks, pos, SpellRequires(rs) + rest)
    ensures pos < |toks|
    ensures if rs == [] then !EqualFold(toks[pos].text, "require") && At(toks, pos, rest)
            else && EqualFold(toks[pos].text, "require") && At(toks, pos, SpellRequire(rs[0]))
                 && At(toks, pos + |SpellRequire(rs[0])|, SpellRequires(rs[1..]) + rest)
  {
    hide At, SpellRequire, EqualFold, Lower, Trim;
    if rs == [] {
      assert SpellRequires(rs) + rest == rest;
      assert rest == [rest[0]] + rest[1..];
      AtHead(toks, pos, rest[0], rest[1..]);
    } else {
      assert RequireOk(rs[0]);
      Assoc(SpellRequire(rs[0]), SpellRequires(rs[1..]), rest);
      AtSplit(toks, pos, SpellRequire(rs[0]), SpellRequires(rs[1..]) + rest);
      AtRequire(toks, pos, rs[0]);
    }
  }

  lemma {:induction false} SameRequires(toks: seq<Token>, pos: nat, rs: seq<Require>, qs: seq<Require>,
                                        rest: seq<Lexeme>, rest': seq<Lexeme>)
    requires Terminated(toks)
    requires forall i :: 0 <= i < |rs| ==> RequireOk(rs[i])
    requires forall i :: 0 <= i < |qs| ==> RequireOk(qs[i])
    requires rest != [] && rest[0].kind == Word && !EqualFold(rest[0].text, "require")
    requires rest' != [] && rest'[0].kind == Word && !EqualFold(rest'[0].text, "require")
    requires At(toks, pos, SpellRequires(rs) + rest) && At(toks, pos, SpellRequires(qs) + rest')
    ensures rs == qs
    ensures At(toks, pos + |SpellRequires(rs)|, rest) && At(toks, pos + |SpellRequires(rs)|, rest')
    decreases |rs|
  {
    hide At, SpellRequire, EqualFold, Lower, Trim;
    RequiresFront(toks, pos, rs, rest);
    RequiresFront(toks, pos, qs, rest');
    if rs != [] && qs != [] {
      assert RequireOk(rs[0]) && RequireOk(qs[0]);
      SameRequire(toks, pos, rs[0], qs[0]);
      assert forall i :: 0 <= i < |rs[1..]| ==> rs[1..][i] == rs[i + 1];
      assert forall i :: 0 <= i < |qs[1..]| ==> qs[1..][i] == qs[i + 1];
      SameRequires(toks, pos + |SpellRequire(rs[0])|, rs[1..], qs[1..], rest, rest');
      assert rs == [rs[0]] + rs[1..] && qs == [qs[0]] + qs[1..];
    }
  }

  lemma {:induction false} SameBlock(toks: seq<Token>, pos: nat, s: Script, s': Script)
    requires Terminated(toks) && ScriptOk(s) && ScriptOk(s')
    requires At(toks, pos, SpellBlock(s)) && At(toks, pos, SpellBlock(s'))
    ensures s.test == s'.test && s.body == s'.body
  {
    hide At, Spell, SpellBody, WellSpelled, StatementOk, RequireOk, Closing;
    var brace := Lexeme(LBrace, "{");
    var tail, tail' := SpellBody(s.body) + Closing(), SpellBody(s'.body) + Closing();
    AtSplit(toks, pos, Spell(s.test), [brace] + tail);
    AtSplit(toks, pos, Spell(s'.test), [brace] + tail');
    SameTest(toks, pos, s.test, s'.test);
    var next := pos + |Spell(s.test)|;
    AtHead(toks, next, brace, tail);
    AtHead(toks, next, brace, tail');
    SameBody(toks, next + 1, s.body, s'.body);
  }

  /** A text spells at most one well-formed script. */
  lemma {:induction false} SpellsUnique(text: string, s: Script, s': Script)
    requires ScriptOk(s) && ScriptOk(s') && Spells(text, s) && Spells(text, s')
    ensures s == s'
  {
    hide At, Lex, SpellBlock, SpellRequires, WellSpelled, StatementOk, RequireOk, EqualFold;
    var toks := Lex(text, 0).value;
    var word, word' := Lexeme(Word, s.ifWord), Lexeme(Word, s'.ifWord);
    IfIsNotRequire(s.ifWord);
    IfIsNotRequire(s'.ifWord);
    SameRequires(toks, 0, s.requires_, s'.requires_, [word] + SpellBlock(s), [word'] + SpellBlock(s'));
    var pos := |SpellRequires(s.requires_)|;
    AtHead(toks, pos, word, SpellBlock(s));
    AtHead(toks, pos, word', SpellBlock(s'));
    SameBlock(toks, pos + 1, s, s');
  }
}
