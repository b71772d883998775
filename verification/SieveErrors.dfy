/** Every error of a rejected script names one of the lines of its text. */
module SieveErrors {
  import opened RuleModel
  import opened SieveLexer
  import opened SieveParser

  // ---------- The lexer ----------

  lemma {:induction false} BlankErrorLine(src: string, pos: nat)
    requires pos <= |src| && SkipBlank(src, pos).Err?
    ensures LineAt(src, pos) <= SkipBlank(src, pos).error.line <= LineAt(src, |src|)
    decreases |src| - pos
  {
    hide LineEnd, CommentEnd;
    NewlinesMonotone(src, pos, |src|);
    var next :=
      if IsBlank(src[pos]) then pos + 1
      else if src[pos] == '#' then LineEnd(src, pos + 1)
      else if CommentEnd(src, pos + 2).Some? then CommentEnd(src, pos + 2).value
      else pos;
    if next > pos {
      NewlinesMonotone(src, pos, next);
      BlankErrorLine(src, next);
    }
  }

  lemma {:induction false} LexErrorLine(src: string, pos: nat)
    requires pos <= |src| && Lex(src, pos).Err?
    ensures LineAt(src, pos) <= Lex(src, pos).error.line <= LineAt(src, |src|)
    decreases |src| - pos
  {
    hide LineAt, SkipBlank, LexToken;
    if SkipBlank(src, pos).Err? {
      BlankErrorLine(src, pos);
    } else {
      var start := SkipBlank(src, pos).value;
      LinesOrdered(src, pos, start);
      LinesOrdered(src, start, |src|);
      if LexToken(src, start).Err? {
        TokenErrorLine(src, start);
      } else {
        var end := LexToken(src, start).value.1;
        LinesOrdered(src, start, end);
        LexErrorLine(src, end);
      }
    }
  }

  lemma LinesOrdered(src: string, a: nat, b: nat)
    requires a <= b <= |src|
    ensures 1 <= LineAt(src, a) <= LineAt(src, b)
  {
    NewlinesMonotone(src, a, b);
  }

  lemma TokenErrorLine(src: string, pos: nat)
    requires pos < |src| && LexToken(src, pos).Err?
    ensures LexToken(src, pos).error.line == LineAt(src, pos)
  {
  }

  // ---------- The parser ----------

  /** The error names the line of a token at or after `pos`. */
  predicate Blames(toks: seq<Token>, pos: nat, e: ScriptError) {
    exists k :: pos <= k < |toks| && toks[k].line == e.line
  }

  /** A failure blames a token at or after `pos`. */
  predicate Blaming<T>(toks: seq<Token>, pos: nat, r: Parsed<T>) {
    r.Failed? ==> Blames(toks, pos, r.error)
  }

  lemma BlamesHere(toks: seq<Token>, pos: nat)
    requires pos < |toks|
    ensures forall reason :: Blames(toks, pos, ScriptError(toks[pos].line, reason))
  {
  }

  lemma {:induction false} ItemsBlame(toks: seq<Token>, pos: nat)
    requires Terminated(toks) && pos < |toks|
    ensures Blaming(toks, pos, ParseItems(toks, pos))
    decreases |toks| - pos
  {
    if toks[pos].kind == Str && toks[pos + 1].kind == Comma {
      ItemsBlame(toks, pos + 2);
    }
  }

  lemma {:induction false} ListBlames(toks: seq<Token>, pos: nat)
    requires Terminated(toks) && pos < |toks|
    ensures Blaming(toks, pos, ParseStringList(toks, pos))
  {
    hide ParseItems;
    if toks[pos].kind == LBracket {
      ItemsBlame(toks, pos + 1);
    }
  }

  lemma {:induction false} TagBlames(toks: seq<Token>, pos: nat, default: string)
    requires Terminated(toks) && pos < |toks|
    ensures Blaming(toks, pos, ParseComparatorTag(toks, pos, default))
  {
  }

  lemma {:induction false} HeaderBlames(toks: seq<Token>, pos: nat)
    requires Terminated(toks) && pos + 1 < |toks|
    ensures Blaming(toks, pos, ParseHeader(toks, pos))
  {
    hide ParseStringList, ParseComparatorTag, FieldsToCondition, NormalizeField;
    TagBlames(toks, pos + 1, "is");
    var tag := ParseComparatorTag(toks, pos + 1, "is");
    if tag.Found? {
      ListBlames(toks, tag.end);
    }
  }

  lemma {:induction false} ExistsBlames(toks: seq<Token>, pos: nat)
    requires Terminated(toks) && pos + 1 < |toks|
    ensures Blaming(toks, pos, ParseExists(toks, pos))
  {
    hide ParseStringList, FieldsToCondition, NormalizeField;
    ListBlames(toks, pos + 1);
  }

  lemma {:induction false} ValueTestBlames(toks: seq<Token>, pos: nat, field: string, default: string)
    requires Terminated(toks) && pos + 1 < |toks|
    ensures Blaming(toks, pos, ParseValueTest(toks, pos, field, default))
  {
    hide ParseComparatorTag;
    TagBlames(toks, pos + 1, default);
  }

  lemma {:induction false} TestBlames(toks: seq<Token>, pos: nat, depth: nat)
    requires Terminated(toks) && pos < |toks|
    ensures Blaming(toks, pos, ParseTest(toks, pos, depth))
    decreases |toks| - pos, 1
  {
    hide ParseNot, ParseGroup, ParseHeader, ParseExists, ParseValueTest, KeywordOf, Blames;
    BlamesHere(toks, pos);
    if toks[pos].kind == Word {
      match KeywordOf(toks[pos].text) {
        case KwNot => NotBlames(toks, pos, depth);
        case KwGroup => GroupBlames(toks, pos, depth);
        case KwHeader => HeaderBlames(toks, pos);
        case KwExists => ExistsBlames(toks, pos);
        case KwBody => ValueTestBlames(toks, pos, "body", "contains");
        case KwHasFlag => ValueTestBlames(toks, pos, "keyword", "is");
        case KwUnknown =>
      }
    }
  }

  lemma {:induction false} NotBlames(toks: seq<Token>, pos: nat, depth: nat)
    requires Terminated(toks) && pos + 1 < |toks|
    ensures Blaming(toks, pos, ParseNot(toks, pos, depth))
    decreases |toks| - pos, 0
  {
    hide ParseTest;
    TestBlames(toks, pos + 1, depth + 1);
  }

  lemma {:induction false} GroupBlames(toks: seq<Token>, pos: nat, depth: nat)
    requires Terminated(toks) && pos + 1 < |toks|
    ensures Blaming(toks, pos, ParseGroup(toks, pos, depth))
    decreases |toks| - pos, 0
  {
    hide ParseTests;
    if depth < MAX_TEST_NESTING_DEPTH && toks[pos + 1].kind == LParen {
      TestsBlame(toks, pos + 2, depth + 1);
    }
  }

  lemma {:induction false} TestsBlame(toks: seq<Token>, pos: nat, depth: nat)
    requires Terminated(toks) && pos < |toks|
    ensures Blaming(toks, pos, ParseTests(toks, pos, depth))
    decreases |toks| - pos, 2
  {
    hide ParseTest;
    TestBlames(toks, pos, depth);
    var first := ParseTest(toks, pos, depth);
    if first.Found? && toks[first.end].kind == Comma {
      TestsBlame(toks, first.end + 1, depth);
    }
  }

  lemma {:induction false} ActionBlames(toks: seq<Token>, pos: nat)
    requires Terminated(toks) && pos < |toks|
    ensures Blaming(toks, pos, ParseAction(toks, pos))
  {
    hide ActionKind;
  }

  lemma {:induction false} ActionsBlame(toks: seq<Token>, pos: nat)
    requires Terminated(toks) && pos < |toks|
    ensures Blaming(toks, pos, ParseActions(toks, pos))
    decreases |toks| - pos
  {
    hide ParseAction;
    if toks[pos].kind != RBrace && toks[pos].kind != Eof {
      ActionBlames(toks, pos);
      if ParseAction(toks, pos).Found? {
        ActionsBlame(toks, ParseAction(toks, pos).end);
      }
    }
  }

  lemma {:induction false} RequiresBlame(toks: seq<Token>, pos: nat)
    requires Terminated(toks) && pos < |toks|
    ensures Blaming(toks, pos, ParseRequires(toks, pos))
    decreases |toks| - pos
  {
    hide ParseStringList, BadCapability, IsWord;
    if IsWord(toks[pos], "require") {
      NotLast(toks, pos);
      ListBlames(toks, pos + 1);
      var caps := ParseStringList(toks, pos + 1);
      if caps.Found? && toks[caps.end].kind == Semicolon {
        RequiresBlame(toks, caps.end + 1);
      }
    }
  }

  lemma NotLast(toks: seq<Token>, pos: nat)
    requires Terminated(toks) && pos < |toks| && IsWord(toks[pos], "require")
    ensures pos + 1 < |toks|
  {
  }

  lemma {:induction false} BlockBlames(toks: seq<Token>, pos: nat)
    requires Terminated(toks) && pos < |toks|
    ensures Blaming(toks, pos, ParseBlock(toks, pos))
  {
    hide ParseTest, ParseActions;
    TestBlames(toks, pos, 0);
    var test := ParseTest(toks, pos, 0);
    if test.Found? && toks[test.end].kind == LBrace {
      ActionsBlame(toks, test.end + 1);
    }
  }

  lemma {:induction false} ScriptBlames(toks: seq<Token>)
    requires Terminated(toks) && ParseScript(toks).Err?
    ensures Blames(toks, 0, ParseScript(toks).error)
  {
    hide ParseRequires, ParseBlock, IsWord;
    RequiresBlame(toks, 0);
    var requires_ := ParseRequires(toks, 0);
    if requires_.Found? && IsWord(toks[requires_.end], "if") {
      BlockBlames(toks, ExpectIf(toks, requires_.end).end);
    }
  }

  /** A rejected script is rejected with the number of one of its lines, counted from 1. */
  lemma {:induction false} ErrorLines(text: string, existing: Rule)
    requires ParseText(text, existing).Err?
    ensures 1 <= ParseText(text, existing).error.line <= LineAt(text, |text|)
  {
    hide Lex, ParseScript, LineAt, Terminated;
    LinesOrdered(text, 0, |text|);
    if Lex(text, 0).Err? {
      LexErrorLine(text, 0);
    } else {
      ScriptBlames(Lex(text, 0).value);
      LexShape(text, 0);
    }
  }
}
