/** A comparator the compiler prints with stray white space makes the whole script unreadable. */
module SieveRejections {
  import opened Wrappers
  import opened Text
  import opened RuleModel
  import opened SieveLexer
  import opened SieveParser
  import opened SieveCompiler
  import opened SieveGrammar
  import opened SieveScripts
  import opened SievePrinting
  import opened CompiledTests
  import opened CompiledRules

  // ---------- Every accepted token list ----------

  predicate TagsKnown(ls: seq<Lexeme>) {
    forall i :: 0 <= i < |ls| && ls[i].kind == ColonTag ==> Lower(ls[i].text) in COMPARATOR_TAGS
  }

  lemma TagsKnownAppend(a: seq<Lexeme>, b: seq<Lexeme>)
    requires TagsKnown(a) && TagsKnown(b)
    ensures TagsKnown(a + b)
  {
  }

  lemma {:induction false} ItemsTagless(items: seq<string>, trailingComma: bool)
    ensures TagsKnown(SpellItems(items, trailingComma))
    decreases |items|
  {
    hide Lower;
    if items != [] {
      ItemsTagless(items[1..], trailingComma);
    }
  }

  lemma {:induction false} ListTagless(l: StringList)
    ensures TagsKnown(SpellList(l))
  {
    hide Lower, SpellItems;
    ItemsTagless(l.items, l.trailingComma);
  }

  lemma {:induction false} TestTags(t: Test)
    requires WellSpelled(t)
    ensures TagsKnown(Spell(t))
    decreases t, 1
  {
    hide Lower, EqualFold, SpellList, SpellAll, FieldsOk;
    match t {
      case Not(_, inner) => TestTags(inner);
      case Group(_, tests) => TestsTags(tests);
      case Header(_, _, fields, _) => ListTagless(fields);
      case Exists(_, fields) => ListTagless(fields);
      case _ =>
    }
  }

  lemma {:induction false} TestsTags(tests: seq<Test>)
    requires forall i :: 0 <= i < |tests| ==> WellSpelled(tests[i])
    ensures TagsKnown(SpellAll(tests))
    decreases tests, 0
  {
    hide Lower, WellSpelled, Spell;
    if tests != [] {
      TestTags(tests[0]);
      assert forall i :: 0 <= i < |tests[1..]| ==> tests[1..][i] == tests[i + 1];
      TestsTags(tests[1..]);
    }
  }

  lemma {:induction false} RequiresTagless(rs: seq<Require>)
    ensures TagsKnown(SpellRequires(rs))
    decreases |rs|
  {
    hide Lower, SpellList;
    if rs != [] {
      ListTagless(rs[0].caps);
      TagsKnownAppend(SpellList(rs[0].caps), [Lexeme(Semicolon, ";")]);
      RequiresTagless(rs[1..]);
    }
  }

  lemma {:induction false} BodyTagless(body: seq<Statement>)
    ensures TagsKnown(SpellBody(body))
    decreases |body|
  {
    hide Lower;
    if body != [] {
      BodyTagless(body[1..]);
    }
  }

  lemma {:induction false} ScriptTags(s: Script)
    requires ScriptOk(s)
    ensures TagsKnown(SpellScript(s))
  {
    hide Lower, EqualFold, Spell, SpellBody, SpellRequires, WellSpelled, StatementOk, RequireOk;
    RequiresTagless(s.requires_);
    TestTags(s.test);
    BodyTagless(s.body);
    TagsKnownAppend(SpellBody(s.body), Closing());
    TagsKnownAppend([Lexeme(LBrace, "{")], SpellBody(s.body) + Closing());
    TagsKnownAppend(Spell(s.test), [Lexeme(LBrace, "{")] + (SpellBody(s.body) + Closing()));
  }

  lemma {:induction false} AtEach(toks: seq<Token>, pos: nat, ls: seq<Lexeme>)
    requires At(toks, pos, ls)
    ensures pos + |ls| <= |toks| && forall i :: 0 <= i < |ls| ==> Same(toks[pos + i], ls[i])
    decreases |ls|
  {
    if ls != [] {
      AtEach(toks, pos + 1, ls[1..]);
      forall i | 0 <= i < |ls|
        ensures Same(toks[pos + i], ls[i])
      {
        assert i > 0 ==> ls[i] == ls[1..][i - 1] && toks[pos + i] == toks[pos + 1 + (i - 1)];
      }
    }
  }

  /** Some token is a tag, but none of the four. */
  ghost predicate StrayTag(toks: seq<Token>) {
    exists i :: 0 <= i < |toks| && toks[i].kind == ColonTag && Lower(toks[i].text) !in COMPARATOR_TAGS
  }

  lemma {:induction false} SpellingEnds(s: Script)
    ensures SpellScript(s) != [] && SpellScript(s)[|SpellScript(s)| - 1] == Lexeme(Eof, "")
  {
    hide Spell, SpellBody, SpellRequires;
  }

  /** A text that spells a well-formed script has no stray tag. */
  lemma {:induction false} SpelledTags(text: string, s: Script)
    requires ScriptOk(s) && Spells(text, s)
    ensures !StrayTag(Lex(text, 0).value)
  {
    hide Lex, At, SpellScript, ScriptOk, Lower, Terminated;
    var toks := Lex(text, 0).value;
    AtEach(toks, 0, SpellScript(s));
    SpellingEnds(s);
    LexShape(text, 0);
    ScriptTags(s);
    forall i | 0 <= i < |toks| && toks[i].kind == ColonTag
      ensures Lower(toks[i].text) in COMPARATOR_TAGS
    {
      assert Same(toks[0 + i], SpellScript(s)[i]);
    }
  }

  // ---------- Unreadable positions ----------

  /** From `pos` on, the text does not lex or has a stray tag. */
  ghost predicate Unreadable(src: string, pos: nat) {
    pos <= |src| && (Lex(src, pos).Err? || StrayTag(Lex(src, pos).value))
  }

  /** A colon, then a word, then blanks, then white space: the word is no comparator or the white
      space is none the lexer knows. */
  predicate BadTagAt(u: string, n: nat, m: nat) {
    && 1 <= n <= m < |u| && u[0] == ':'
    && AllWordRunes(u[1..n]) && AllBlank(u[n..m]) && IsSpace(u[m])
    && (Lower(u[1..n]) !in COMPARATOR_TAGS || !IsBlank(u[m]))
  }

  lemma {:induction false} UnreadableLater(src: string, pos: nat, next: nat)
    requires pos < next <= |src| && SkipBlank(src, pos) == Ok(pos)
    requires LexToken(src, pos).Ok? && LexToken(src, pos).value.1 == next
    requires Unreadable(src, next)
    ensures Unreadable(src, pos)
  {
    hide SkipBlank, LexToken, Lower;
    if Lex(src, next).Ok? {
      var rest := Lex(src, next).value;
      var i :| 0 <= i < |rest| && rest[i].kind == ColonTag && Lower(rest[i].text) !in COMPARATOR_TAGS;
      assert Lex(src, pos).value[i + 1] == rest[i];
    }
  }

  lemma {:induction false} UnreadableTag(src: string, pos: nat, next: nat)
    requires pos < next <= |src| && SkipBlank(src, pos) == Ok(pos)
    requires LexToken(src, pos).Ok? && LexToken(src, pos).value.1 == next
    requires LexToken(src, pos).value.0.kind == ColonTag && Lower(LexToken(src, pos).value.0.text) !in COMPARATOR_TAGS
    ensures Unreadable(src, pos)
  {
    hide SkipBlank, LexToken, Lower;
    if Lex(src, pos).Ok? {
      assert Lex(src, pos).value[0] == LexToken(src, pos).value.0;
    }
  }

  lemma UnreadableSpace(src: string, pos: nat)
    requires pos < |src| && IsSpace(src[pos]) && !IsBlank(src[pos])
    ensures Unreadable(src, pos)
  {
    NotBlank(src, pos);
  }

  lemma UnreadableBlanks(src: string, pos: nat, next: nat)
    requires pos <= next <= |src| && SkipBlank(src, pos) == SkipBlank(src, next)
    requires Unreadable(src, next)
    ensures Unreadable(src, pos)
  {
    LexAfterBlank(src, pos, next);
  }

  lemma BadTagParts(u: string, n: nat, m: nat)
    requires BadTagAt(u, n, m)
    ensures u == (":" + u[1..n]) + u[n..] && u[n..] == u[n..m] + u[m..]
    ensures !IsWordRune(u[n])
  {
    assert n < m ==> u[n] == u[n..m][0];
  }

  lemma {:induction false} BadTagUnreadable(src: string, pos: nat, u: string, n: nat, m: nat, wide: char -> bool)
    requires pos <= |src| && src[pos..] == u && BadTagAt(u, n, m)
    ensures Unreadable(src, pos)
  {
    hide Lower, Unreadable, SkipBlank, LexToken, Lex, LexedAs, AllWordRunes, IsSpace;
    BadTagParts(u, n, m);
    var word, rest := u[1..n], u[n..];
    LexWordPiece(src, pos, TagPiece(word), wide, rest);
    TagLexed(src, pos, word, wide);
    if Lower(word) !in COMPARATOR_TAGS {
      UnreadableTag(src, pos, pos + n);
    } else {
      UnreadableGap(src, pos, u, n, m);
      UnreadableLater(src, pos, pos + n);
    }
  }

  /** Behind the tag there is white space the lexer does not know. */
  lemma {:induction false} UnreadableGap(src: string, pos: nat, u: string, n: nat, m: nat)
    requires pos <= |src| && src[pos..] == u && n <= m < |u|
    requires AllBlank(u[n..m]) && IsSpace(u[m]) && !IsBlank(u[m])
    ensures Unreadable(src, pos + n)
  {
    hide Unreadable, SkipBlank, IsSpace, IsBlank;
    assert src[pos + n..] == u[n..m] + u[m..];
    SkipBlankRun(src, pos + n, u[n..m], u[m..]);
    assert src[pos + m] == src[pos..][m];
    UnreadableSpace(src, pos + m);
    UnreadableBlanks(src, pos + n, pos + m);
  }

  lemma TagLexed(src: string, pos: nat, word: string, wide: char -> bool)
    requires LexedAs(src, pos, TagPiece(word), wide)
    ensures SkipBlank(src, pos) == Ok(pos) && LexToken(src, pos).Ok?
    ensures LexToken(src, pos).value.1 == pos + 1 + |word|
    ensures LexToken(src, pos).value.0.kind == ColonTag && LexToken(src, pos).value.0.text == word
  {
    hide SkipBlank, LexToken;
  }

  /** Pieces in front of an unreadable position do not make it readable. */
  lemma {:induction false} UnreadableBehind(src: string, pos: nat, ps: seq<Piece>, u: string, wide: char -> bool)
    requires pos <= |src| && src[pos..] == Render(ps, wide) + u && Spaced(ps)
    requires pos + |Render(ps, wide)| <= |src| && Unreadable(src, pos + |Render(ps, wide)|)
    ensures Unreadable(src, pos)
    decreases |ps|
  {
    hide RenderPiece, PieceOk, Spaced, Unreadable;
    if ps != [] {
      var p, more := ps[0], ps[1..];
      var rest := Render(more, wide) + u;
      SpacedTail(ps);
      Assoc(RenderPiece(p, wide), Render(more, wide), u);
      DropPrefix(src, pos, RenderPiece(p, wide), rest);
      UnreadableBehind(src, pos + |RenderPiece(p, wide)|, more, u, wide);
      UnreadablePiece(src, pos, ps, rest, wide);
    }
  }

  lemma {:induction false} UnreadablePiece(src: string, pos: nat, ps: seq<Piece>, rest: string, wide: char -> bool)
    requires pos <= |src| && Spaced(ps) && ps != [] && src[pos..] == RenderPiece(ps[0], wide) + rest
    requires Render(ps[1..], wide) <= rest
    requires pos + |RenderPiece(ps[0], wide)| <= |src| && Unreadable(src, pos + |RenderPiece(ps[0], wide)|)
    ensures Unreadable(src, pos)
  {
    hide Lex, SkipBlank, LexToken, Quote, Render, LexedAs, Unreadable;
    var p := ps[0];
    var next := pos + |RenderPiece(p, wide)|;
    assert PieceOk(p);
    match p {
      case Blank(text) =>
        SkipBlankRun(src, pos, text, rest);
        UnreadableBlanks(src, pos, next);
        return;
      case StrPiece(_) => LexStrPiece(src, pos, p, wide, rest);
      case Punct(_) => LexPunctPiece(src, pos, p, wide, rest);
      case _ =>
        AfterWord(ps, rest, wide);
        LexWordPiece(src, pos, p, wide, rest);
    }
    PieceLexed(src, pos, p, wide);
    UnreadableLater(src, pos, next);
  }

  lemma AfterWord(ps: seq<Piece>, rest: string, wide: char -> bool)
    requires Spaced(ps) && ps != [] && (ps[0].WordPiece? || ps[0].TagPiece?)
    requires Render(ps[1..], wide) <= rest
    ensures rest == "" || !IsWordRune(rest[0])
  {
    var q := ps[1];
    assert PieceOk(q) && ps[1..][0] == q;
    assert RenderPiece(q, wide) != "" && RenderPiece(q, wide) <= Render(ps[1..], wide);
    assert rest[0] == RenderPiece(q, wide)[0];
    if q.Blank? {
      assert IsBlank(q.text[0]);
    }
  }

  lemma PieceLexed(src: string, pos: nat, p: Piece, wide: char -> bool)
    requires LexedAs(src, pos, p, wide)
    ensures pos < |src| && SkipBlank(src, pos) == Ok(pos) && LexToken(src, pos).Ok?
    ensures LexToken(src, pos).value.1 == pos + |RenderPiece(p, wide)|
  {
    hide SkipBlank, LexToken;
  }

  // ---------- Broken texts ----------

  /** After readable pieces the text has a tag that cannot be read. */
  ghost predicate BrokenBy(s: string, ps: seq<Piece>, u: string, n: nat, m: nat, wide: char -> bool) {
    Spaced(ps) && s == Render(ps, wide) + u && BadTagAt(u, n, m)
  }

  ghost predicate Broken(s: string, wide: char -> bool) {
    exists ps, u, n, m :: BrokenBy(s, ps, u, n, m, wide)
  }

  /** A broken text spells no well-formed script. */
  lemma {:induction false} BrokenUnspelled(text: string, s: Script, wide: char -> bool)
    requires Broken(text, wide) && ScriptOk(s)
    ensures !Spells(text, s)
  {
    hide Lex, Render, Spaced, BadTagAt, StrayTag, ScriptOk, At, SpellScript;
    var ps, u, n, m :| BrokenBy(text, ps, u, n, m, wide);
    assert text[0..] == text;
    DropPrefix(text, 0, Render(ps, wide), u);
    BadTagUnreadable(text, |Render(ps, wide)|, u, n, m, wide);
    UnreadableBehind(text, 0, ps, u, wide);
    if Spells(text, s) {
      SpelledTags(text, s);
    }
  }

  lemma {:induction false} BrokenBehind(ps: seq<Piece>, s: string, wide: char -> bool)
    requires Spaced(ps) && Broken(s, wide)
    ensures Broken(Render(ps, wide) + s, wide)
  {
    hide Render, Spaced, BadTagAt;
    var qs, u, n, m :| BrokenBy(s, qs, u, n, m, wide);
    SpacedAppend(ps, qs);
    RenderAppend(ps, qs, wide);
    Assoc(Render(ps, wide), Render(qs, wide), u);
    assert BrokenBy(Render(ps, wide) + s, ps + qs, u, n, m, wide);
  }

  lemma {:induction false} BrokenBefore(s: string, tail: string, wide: char -> bool)
    requires Broken(s, wide)
    ensures Broken(s + tail, wide)
  {
    hide Render, Spaced, BadTagAt;
    var ps, u, n, m :| BrokenBy(s, ps, u, n, m, wide);
    BadTagGrows(u, tail, n, m);
    Assoc(Render(ps, wide), u, tail);
    assert BrokenBy(s + tail, ps, u + tail, n, m, wide);
  }

  lemma BadTagGrows(u: string, tail: string, n: nat, m: nat)
    requires BadTagAt(u, n, m)
    ensures BadTagAt(u + tail, n, m)
  {
    hide Lower;
    assert (u + tail)[1..n] == u[1..n] && (u + tail)[n..m] == u[n..m];
  }

  // ---------- Untidy comparators ----------

  predicate AllSpace(s: string) {
    forall i :: 0 <= i < |s| ==> IsSpace(s[i])
  }

  lemma {:induction false} TrimLeftSplit(s: string) returns (a: string)
    ensures s == a + TrimLeft(s) && AllSpace(a)
  {
    if s != "" && IsSpace(s[0]) {
      var b := TrimLeftSplit(s[1..]);
      a := [s[0]] + b;
      assert s == [s[0]] + s[1..];
    } else {
      a := "";
    }
  }

  lemma {:induction false} TrimRightSplit(s: string) returns (b: string)
    ensures s == TrimRight(s) + b && AllSpace(b)
  {
    if s != "" && IsSpace(s[|s| - 1]) {
      var a := TrimRightSplit(s[..|s| - 1]);
      b := a + [s[|s| - 1]];
      assert s == s[..|s| - 1] + [s[|s| - 1]];
    } else {
      b := "";
    }
  }

  /** An untidy comparator has white space in front, or white space behind that the lexer does not skip. */
  lemma {:induction false} UntidyParts(comparator: string) returns (a: string, b: string)
    requires !Tidy(comparator)
    ensures ComparatorTag(comparator) == a + (TagWord(comparator) + b)
    ensures AllSpace(a) && AllSpace(b) && (a == "" ==> !AllBlank(b))
  {
    a := TrimLeftSplit(comparator);
    b := TrimRightSplit(TrimLeft(comparator));
    UntidyPrints(comparator);
    LowerSplit(a, Trim(comparator), b);
    SpacesLower(a);
    SpacesLower(b);
    assert comparator == a + (Trim(comparator) + b);
    hide Lower, Trim, TrimLeft, TrimRight;
    a, b := Lower(a), Lower(b);
    hide TagWord, ComparatorTag;
    assert a == "" ==> ComparatorTag(comparator)[|TagWord(comparator)|..] == b;
  }

  lemma {:induction false} UntidyTag(comparator: string, rest: string) returns (n: nat, m: nat)
    requires !Tidy(comparator)
    ensures BadTagAt((":" + ComparatorTag(comparator)) + rest, n, m)
  {
    hide Tidy, Lower, TagWord, ComparatorTag, IsSpace, IsBlank;
    var a, b := UntidyParts(comparator);
    var tag := TagWord(comparator);
    var u := (":" + ComparatorTag(comparator)) + rest;
    TagIsTag(comparator);
    if a != "" {
      n, m := 1, 1;
      assert u[1] == a[0];
      NoTag();
    } else {
      var k := FirstNonBlank(b);
      n := 1 + |tag|;
      m := n + k;
      assert u[1..n] == tag && u[n..m] == b[..k] && u[m] == b[k];
    }
  }

  lemma NoTag()
    ensures Lower("") !in COMPARATOR_TAGS
  {
    assert |Lower("")| == 0;
  }

  lemma UntidyPrints(comparator: string)
    requires !Tidy(comparator)
    ensures ComparatorTag(comparator) == Lower(comparator) && TagWord(comparator) == Lower(Trim(comparator))
  {
    hide Lower, Trim;
  }

  lemma LowerSplit(a: string, b: string, c: string)
    ensures Lower(a + (b + c)) == Lower(a) + (Lower(b) + Lower(c))
  {
  }

  lemma SpacesLower(s: string)
    requires AllSpace(s)
    ensures AllSpace(Lower(s))
  {
  }

  lemma {:induction false} FirstNonBlank(s: string) returns (k: nat)
    requires !AllBlank(s)
    ensures k < |s| && AllBlank(s[..k]) && !IsBlank(s[k])
  {
    if !IsBlank(s[0]) {
      k := 0;
    } else {
      assert forall i :: 0 < i < |s| ==> s[i] == s[1..][i - 1];
      k := FirstNonBlank(s[1..]);
      assert s[..k + 1] == [s[0]] + s[1..][..k];
      k := k + 1;
    }
  }

  // ---------- Untidy trees print broken texts ----------

  lemma {:induction false} LeadSpaced(word: string)
    requires word != "" && AllLowerLetters(word)
    ensures Spaced([WordPiece(word), Blank(" ")])
  {
    assert forall i :: 0 <= i < |word| ==> IsLowerLetter(word[i]);
  }

  /** A keyword and a space in front of a broken text. */
  lemma {:induction false} BrokenBehindWord(word: string, s: string, wide: char -> bool)
    requires word != "" && AllLowerLetters(word) && Broken(s, wide)
    ensures Broken((word + " ") + s, wide)
  {
    hide Spaced, Render, Broken;
    LeadSpaced(word);
    RenderTwo(WordPiece(word), Blank(" "), wide);
    BrokenBehind([WordPiece(word), Blank(" ")], s, wide);
  }

  lemma {:induction false} BrokenTag(comparator: string, rest: string, wide: char -> bool)
    requires !Tidy(comparator)
    ensures Broken((":" + ComparatorTag(comparator)) + rest, wide)
  {
    hide BadTagAt, Tidy, ComparatorTag;
    var u := (":" + ComparatorTag(comparator)) + rest;
    var n, m := UntidyTag(comparator, rest);
    SpacedNone();
    RenderNone(wide);
    assert "" + u == u;
    assert BrokenBy(u, [], u, n, m, wide);
  }

  lemma {:induction false} UntidyLeaf(c: Condition, wide: char -> bool)
    requires CompileLeaf(c, wide).Ok? && !Tidy(c.comparator)
    ensures Broken(CompileLeaf(c, wide).value, wide)
  {
    hide Quote, Lower, Trim, ComparatorTag, EqualFold, Concat, Tidy, Broken;
    var field := Lower(Trim(c.field));
    var printed := ":" + ComparatorTag(c.comparator);
    if EqualFold(c.comparator, "exists") {
      ExistsTidy(c.comparator);
    }
    if field in HEADER_FIELDS {
      var tail := [" ", "[", Quote(field, wide), "]", " ", Quote(c.value, wide)];
      assert ["header", " ", printed] + tail
          == ["header", " ", printed, " ", "[", Quote(field, wide), "]", " ", Quote(c.value, wide)];
      BrokenTest("header", c.comparator, tail, wide);
    } else {
      var word := if field == "body" then "body" else "hasflag";
      assert ["body", " ", printed] + [" ", Quote(c.value, wide)] == ["body", " ", printed, " ", Quote(c.value, wide)];
      assert ["hasflag", " ", printed] + [" ", Quote(c.value, wide)]
          == ["hasflag", " ", printed, " ", Quote(c.value, wide)];
      BrokenTest(word, c.comparator, [" ", Quote(c.value, wide)], wide);
    }
  }

  lemma {:induction false} BrokenTest(word: string, comparator: string, tail: seq<string>, wide: char -> bool)
    requires word in {"header", "body", "hasflag"} && !Tidy(comparator)
    ensures Broken(Concat([word, " ", ":" + ComparatorTag(comparator)] + tail), wide)
  {
    hide ComparatorTag, Tidy, Broken, Concat;
    var printed := ":" + ComparatorTag(comparator);
    assert [word, " ", printed] + tail == [word] + ([" "] + ([printed] + tail));
    ConcatCons(word, [" "] + ([printed] + tail));
    ConcatCons(" ", [printed] + tail);
    ConcatCons(printed, tail);
    BrokenTag(comparator, Concat(tail), wide);
    assert AllLowerLetters(word);
    BrokenBehindWord(word, printed + Concat(tail), wide);
    Assoc(word, " ", printed + Concat(tail));
  }

  lemma {:induction false} ExistsSpaceFree(comparator: string)
    requires EqualFold(comparator, "exists")
    ensures Trim(comparator) == comparator
  {
    PlainField("exists");
    forall i | 0 <= i < |comparator|
      ensures !IsSpace(comparator[i])
    {
      assert FoldChar(comparator[i]) == Fold(comparator)[i] == "exists"[i];
    }
    TrimSpaceFree(comparator);
  }

  lemma {:induction false} ExistsTidy(comparator: string)
    requires EqualFold(comparator, "exists")
    ensures Lower(Trim(comparator)) !in COMPARATOR_TAGS && TagWord(comparator) == "is" && Tidy(comparator)
  {
    ExistsSpaceFree(comparator);
    assert |Lower(comparator)| == |Fold(comparator)| == |Fold("exists")| == 6;
  }

  lemma {:induction false} UntidyCondition(c: Condition, wide: char -> bool)
    requires CompileCondition(c, wide).Ok? && !TidyCondition(c)
    ensures Broken(CompileCondition(c, wide).value, wide)
    decreases c, 1
  {
    hide CompileLeaf, Tidy, Broken;
    if c.group.Some? {
      UntidyGroup(c.group.value, wide);
    } else {
      UntidyLeaf(c, wide);
    }
    if c.negate {
      var inner := if c.group.Some? then CompileGroup(c.group.value, wide) else CompileLeaf(c, wide);
      assert AllLowerLetters("not");
      BrokenBehindWord("not", inner.value, wide);
      assert "not" + " " == "not ";
    }
  }

  lemma {:induction false} UntidyGroup(g: MatchGroup, wide: char -> bool)
    requires CompileGroup(g, wide).Ok? && !TidyGroup(g)
    ensures Broken(CompileGroup(g, wide).value, wide)
    decreases g, 0
  {
    hide TidyCondition, CompileConditions, Join, Broken, Spaced, Render, Trim, Lower;
    var op, body := GroupOp(g.op), Join(CompileConditions(g.conditions, wide).value, ", ");
    UntidyConditions(g.conditions, wide);
    BrokenBefore(body, ")", wide);
    SpacedBrackets(op);
    RenderTwo(WordPiece(op), Punct('('), wide);
    BrokenBehind([WordPiece(op), Punct('(')], body + ")", wide);
    Assoc(op + "(", body, ")");
  }

  lemma {:induction false} UntidyConditions(cs: seq<Condition>, wide: char -> bool)
    requires CompileConditions(cs, wide).Ok? && exists i :: 0 <= i < |cs| && !TidyCondition(cs[i])
    ensures Broken(Join(CompileConditions(cs, wide).value, ", "), wide)
    decreases cs, 0
  {
    hide TidyCondition, CompileCondition, Broken, Spaced, Render, Lexemes, WellSpelled, Spell;
    var parts := CompileConditions(cs, wide).value;
    assert parts[1..] == CompileConditions(cs[1..], wide).value;
    var tail := Join(parts[1..], ", ");
    if !TidyCondition(cs[0]) {
      UntidyCondition(cs[0], wide);
      if |cs| > 1 {
        BrokenBefore(parts[0], ", " + tail, wide);
        Assoc(parts[0], ", ", tail);
      }
    } else {
      UntidyLater(cs);
      UntidyConditions(cs[1..], wide);
      ConditionPrints(cs[0], wide);
      SpacedComma();
      CommaText(wide);
      BrokenBehind([Punct(','), Blank(" ")], tail, wide);
      BrokenBehind(ConditionPieces(cs[0]), ", " + tail, wide);
      Assoc(parts[0], ", ", tail);
    }
  }

  lemma UntidyLater(cs: seq<Condition>)
    requires exists i :: 0 <= i < |cs| && !TidyCondition(cs[i])
    requires TidyCondition(cs[0])
    ensures |cs| > 1 && exists i :: 0 <= i < |cs[1..]| && !TidyCondition(cs[1..][i])
  {
    hide TidyCondition;
    var i :| 0 <= i < |cs| && !TidyCondition(cs[i]);
    assert cs[1..][i - 1] == cs[i];
  }

  /** A rule with an untidy comparator compiles to a broken text. */
  lemma {:induction false} UntidyRule(r: Rule, wide: char -> bool)
    requires CompileText(r, wide).Ok? && !TidyGroup(r.match_)
    ensures Broken(CompileText(r, wide).value, wide)
  {
    hide TidyGroup, CompileGroup, CompileActions, Capabilities, RequireLine, RequirePieces, Spaced, Render, Broken, Lexemes;
    var test := CompileGroup(r.match_, wide).value;
    var tail := " {\n" + ((if r.actions == [] then "    keep;\n" else "") + (CompileActions(r.actions, wide).value + "}\n"));
    UntidyGroup(r.match_, wide);
    BrokenBefore(test, tail, wide);
    assert AllLowerLetters("if");
    BrokenBehindWord("if", test + tail, wide);
    CapabilitiesAllowed(r, wide);
    RequirePrints(Capabilities(r), wide);
    BrokenBehind(RequirePieces(Capabilities(r)), ("if" + " ") + (test + tail), wide);
    assert CompileText(r, wide).value == RequireLine(Capabilities(r), wide) + (("if" + " ") + (test + tail));
  }

  /** It spells no well-formed script, so it is rejected. */
  lemma {:induction false} UntidyRejected(r: Rule, existing: Rule, wide: char -> bool)
    requires CompileText(r, wide).Ok? && !TidyGroup(r.match_)
    ensures forall s :: ScriptOk(s) ==> !Spells(CompileText(r, wide).value, s)
    ensures ParseText(CompileText(r, wide).value, existing).Err?
  {
    hide TidyGroup, CompileText, Broken, ScriptOk, Spells, ParseText, Accepts, Denote, BodyActions;
    var text := CompileText(r, wide).value;
    UntidyRule(r, wide);
    forall s | ScriptOk(s)
      ensures !Spells(text, s)
    {
      BrokenUnspelled(text, s, wide);
    }
    if ParseText(text, existing).Ok? {
      ParseTextExact(text, existing, ParseText(text, existing).value);
    }
  }
}
