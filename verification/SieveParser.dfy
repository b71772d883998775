/** The recursive-descent parser of the Sieve subset: a specification on token positions, and the
    stateful parser that computes it. */
module SieveParser {
  import opened Wrappers
  import opened Text
  import opened RuleModel
  import opened SieveLexer

  const MAX_TEST_NESTING_DEPTH: nat := 32

  const ALLOWED_CAPABILITIES: set<string> := {"fileinto", "body", "regex", "imap4flags", "kymail"}

  /** What a parsing function returns: a value and the position after it, or an error. */
  datatype Parsed<+T> = Found(value: T, end: nat) | Failed(error: ScriptError)

  function Display(t: Token): string {
    if t.kind == Eof then "end of input" else t.text
  }

  function Miss<T>(t: Token, what: string): Parsed<T> {
    Failed(ScriptError(t.line, Expected(what, Display(t))))
  }

  predicate IsWord(t: Token, word: string) {
    t.kind == Word && EqualFold(t.text, word)
  }

  function Expect(toks: seq<Token>, pos: nat, kind: TokKind, what: string): (r: Parsed<string>)
    requires Terminated(toks) && pos < |toks|
    ensures r.Found? ==> r.end == pos + 1 && (kind != Eof ==> r.end < |toks|)
  {
    if toks[pos].kind == kind then Found(toks[pos].text, pos + 1) else Miss(toks[pos], what)
  }

  function NormalizeField(f: string): string {
    Lower(Trim(f))
  }

  // ---------- String lists ----------

  function ParseItems(toks: seq<Token>, pos: nat): (r: Parsed<seq<string>>)
    requires Terminated(toks) && pos < |toks|
    ensures r.Found? ==> pos <= r.end < |toks|
    decreases |toks| - pos
  {
    if toks[pos].kind == RBracket then Found([], pos)
    else
      match Expect(toks, pos, Str, "string")
      case Failed(e) => Failed(e)
      case Found(s, next) =>
        if toks[next].kind == Comma then
          match ParseItems(toks, next + 1)
          case Failed(e) => Failed(e)
          case Found(rest, end) => Found([s] + rest, end)
        else Found([s], next)
  }

  function ParseStringList(toks: seq<Token>, pos: nat): (r: Parsed<seq<string>>)
    requires Terminated(toks) && pos < |toks|
    ensures r.Found? ==> pos < r.end < |toks|
  {
    match Expect(toks, pos, LBracket, "[")
    case Failed(e) => Failed(e)
    case Found(_, start) =>
      match ParseItems(toks, start)
      case Failed(e) => Failed(e)
      case Found(items, close) =>
        match Expect(toks, close, RBracket, "]")
        case Failed(e) => Failed(e)
        case Found(_, end) => Found(items, end)
  }

  // ---------- Tests ----------

  function ParseComparatorTag(toks: seq<Token>, pos: nat, default: string): (r: Parsed<string>)
    requires Terminated(toks) && pos < |toks|
    ensures r.Found? ==> pos <= r.end < |toks|
  {
    var t := toks[pos];
    if t.kind != ColonTag then Found(default, pos)
    else if Lower(t.text) in COMPARATOR_TAGS then Found(Lower(t.text), pos + 1)
    else Failed(ScriptError(t.line, UnsupportedTag(t.text)))
  }

  function FieldsToCondition(fields: seq<string>, comparator: string, value: string): Condition {
    if |fields| == 1 then Leaf(NormalizeField(fields[0]), comparator, value)
    else
      GroupCondition(MatchGroup("anyof",
        seq(|fields|, i requires 0 <= i < |fields| => Leaf(NormalizeField(fields[i]), comparator, value))))
  }

  /** The first field that is not one of the five header fields. */
  function BadField(fields: seq<string>): (r: Option<string>)
    ensures r == None <==> forall i :: 0 <= i < |fields| ==> NormalizeField(fields[i]) in HEADER_FIELDS
  {
    if fields == [] then None
    else if NormalizeField(fields[0]) !in HEADER_FIELDS then Some(fields[0])
    else
      assert forall i :: 0 < i < |fields| ==> fields[i] == fields[1..][i - 1];
      BadField(fields[1..])
  }

  function CheckedFields(fields: seq<string>, comparator: string, value: string, line: nat, end: nat)
    : (r: Parsed<Condition>)
    ensures r.Found? ==> r.end == end
  {
    if fields == [] then Failed(ScriptError(line, NoFields))
    else
      match BadField(fields)
      case Some(f) => Failed(ScriptError(line, UnsupportedField(f)))
      case None => Found(FieldsToCondition(fields, comparator, value), end)
  }

  function ParseHeader(toks: seq<Token>, pos: nat): (r: Parsed<Condition>)
    requires Terminated(toks) && pos + 1 < |toks|
    ensures r.Found? ==> pos < r.end < |toks|
  {
    match ParseComparatorTag(toks, pos + 1, "is")
    case Failed(e) => Failed(e)
    case Found(comparator, afterTag) =>
      match ParseStringList(toks, afterTag)
      case Failed(e) => Failed(e)
      case Found(fields, afterList) =>
        match Expect(toks, afterList, Str, "string value")
        case Failed(e) => Failed(e)
        case Found(value, end) => CheckedFields(fields, comparator, value, toks[pos].line, end)
  }

  function ParseExists(toks: seq<Token>, pos: nat): (r: Parsed<Condition>)
    requires Terminated(toks) && pos + 1 < |toks|
    ensures r.Found? ==> pos < r.end < |toks|
  {
    match ParseStringList(toks, pos + 1)
    case Failed(e) => Failed(e)
    case Found(fields, end) => CheckedFields(fields, "exists", "", toks[pos].line, end)
  }

  /** The `body` and `hasflag` tests: an optional comparator and a value. */
  function ParseValueTest(toks: seq<Token>, pos: nat, field: string, default: string): (r: Parsed<Condition>)
    requires Terminated(toks) && pos + 1 < |toks|
    ensures r.Found? ==> pos < r.end < |toks|
  {
    match ParseComparatorTag(toks, pos + 1, default)
    case Failed(e) => Failed(e)
    case Found(comparator, afterTag) =>
      match Expect(toks, afterTag, Str, "string value")
      case Failed(e) => Failed(e)
      case Found(value, end) => Found(Leaf(field, comparator, value), end)
  }

  datatype Keyword = KwNot | KwGroup | KwHeader | KwExists | KwBody | KwHasFlag | KwUnknown

  function KeywordOf(word: string): Keyword {
    if EqualFold(word, "not") then KwNot
    else if EqualFold(word, "allof") || EqualFold(word, "anyof") then KwGroup
    else if EqualFold(word, "header") || EqualFold(word, "address") then KwHeader
    else if EqualFold(word, "exists") then KwExists
    else if EqualFold(word, "body") then KwBody
    else if EqualFold(word, "hasflag") then KwHasFlag
    else KwUnknown
  }

  /** Parses one test at `pos`, `depth` enclosing not/allof/anyof levels being open. */
  function ParseTest(toks: seq<Token>, pos: nat, depth: nat): (r: Parsed<Condition>)
    requires Terminated(toks) && pos < |toks|
    ensures r.Found? ==> pos < r.end < |toks|
    decreases |toks| - pos, 1
  {
    var t := toks[pos];
    if t.kind != Word then Miss(t, "a test")
    else
      match KeywordOf(t.text)
      case KwNot => ParseNot(toks, pos, depth)
      case KwGroup => ParseGroup(toks, pos, depth)
      case KwHeader => ParseHeader(toks, pos)
      case KwExists => ParseExists(toks, pos)
      case KwBody => ParseValueTest(toks, pos, "body", "contains")
      case KwHasFlag => ParseValueTest(toks, pos, "keyword", "is")
      case KwUnknown => Failed(ScriptError(t.line, UnknownTest(t.text)))
  }

  function ParseNot(toks: seq<Token>, pos: nat, depth: nat): (r: Parsed<Condition>)
    requires Terminated(toks) && pos + 1 < |toks|
    ensures r.Found? ==> pos < r.end < |toks|
    decreases |toks| - pos, 0
  {
    if depth >= MAX_TEST_NESTING_DEPTH then Failed(ScriptError(toks[pos].line, NestingTooDeep))
    else
      match ParseTest(toks, pos + 1, depth + 1)
      case Failed(e) => Failed(e)
      case Found(inner, end) => Found(inner.(negate := !inner.negate), end)
  }

  function ParseGroup(toks: seq<Token>, pos: nat, depth: nat): (r: Parsed<Condition>)
    requires Terminated(toks) && pos + 1 < |toks|
    ensures r.Found? ==> pos < r.end < |toks|
    decreases |toks| - pos, 0
  {
    if depth >= MAX_TEST_NESTING_DEPTH then Failed(ScriptError(toks[pos].line, NestingTooDeep))
    else
      match Expect(toks, pos + 1, LParen, "(")
      case Failed(e) => Failed(e)
      case Found(_, start) =>
        match ParseTests(toks, start, depth + 1)
        case Failed(e) => Failed(e)
        case Found(conds, close) =>
          match Expect(toks, close, RParen, ")")
          case Failed(e) => Failed(e)
          case Found(_, end) => Found(GroupCondition(MatchGroup(Lower(toks[pos].text), conds)), end)
  }

  /** Parses a comma-separated, non-empty list of tests. */
  function ParseTests(toks: seq<Token>, pos: nat, depth: nat): (r: Parsed<seq<Condition>>)
    requires Terminated(toks) && pos < |toks|
    ensures r.Found? ==> pos < r.end < |toks|
    decreases |toks| - pos, 2
  {
    match ParseTest(toks, pos, depth)
    case Failed(e) => Failed(e)
    case Found(c, next) =>
      if toks[next].kind == Comma then
        match ParseTests(toks, next + 1, depth)
        case Failed(e) => Failed(e)
        case Found(rest, end) => Found([c] + rest, end)
      else Found([c], next)
  }

  // ---------- Actions ----------

  /** The action kind a script word stands for, and whether it takes a string. */
  function ActionKind(word: string): Option<(string, bool)> {
    match word
    case "fileinto" => Some(("move", true))
    case "discard" => Some(("delete", false))
    case "keep" => Some(("keep", false))
    case "stop" => Some(("stop", false))
    case "addflag" => Some(("keyword", true))
    case "removeflag" => Some(("unkeyword", true))
    case "markread" => Some(("read", false))
    case "archive" => Some(("archive", false))
    case "markspam" => Some(("spam", false))
    case _ => None
  }

  function ParseAction(toks: seq<Token>, pos: nat): (r: Parsed<Action>)
    requires Terminated(toks) && pos < |toks|
    ensures r.Found? ==> pos < r.end < |toks|
  {
    var t := toks[pos];
    if t.kind != Word then Miss(t, "an action")
    else
      match ActionKind(Lower(t.text))
      case None => Failed(ScriptError(t.line, UnknownAction(Lower(t.text))))
      case Some((kind, takesValue)) =>
        match (if takesValue then Expect(toks, pos + 1, Str, "string") else Found("", pos + 1))
        case Failed(e) => Failed(e)
        case Found(value, semi) =>
          match Expect(toks, semi, Semicolon, ";")
          case Failed(e) => Failed(e)
          case Found(_, end) => Found(Action(kind, value), end)
  }

  /** The actions up to the closing brace; a `keep` leaves no action behind. */
  function ParseActions(toks: seq<Token>, pos: nat): (r: Parsed<seq<Action>>)
    requires Terminated(toks) && pos < |toks|
    ensures r.Found? ==> pos <= r.end < |toks| && toks[r.end].kind == RBrace
    decreases |toks| - pos
  {
    if toks[pos].kind == RBrace then Found([], pos)
    else if toks[pos].kind == Eof then Failed(ScriptError(toks[pos].line, UnbalancedBraces))
    else
      match ParseAction(toks, pos)
      case Failed(e) => Failed(e)
      case Found(a, next) =>
        match ParseActions(toks, next)
        case Failed(e) => Failed(e)
        case Found(rest, end) => Found((if a.kind == "keep" then [] else [a]) + rest, end)
  }

  // ---------- Whole scripts ----------

  function BadCapability(caps: seq<string>): (r: Option<string>)
    ensures r == None <==> forall i :: 0 <= i < |caps| ==> Lower(Trim(caps[i])) in ALLOWED_CAPABILITIES
  {
    if caps == [] then None
    else if Lower(Trim(caps[0])) !in ALLOWED_CAPABILITIES then Some(caps[0])
    else
      assert forall i :: 0 < i < |caps| ==> caps[i] == caps[1..][i - 1];
      BadCapability(caps[1..])
  }

  /** Skips the `require` statements, each of which may only name allowed capabilities. */
  function ParseRequires(toks: seq<Token>, pos: nat): (r: Parsed<()>)
    requires Terminated(toks) && pos < |toks|
    ensures r.Found? ==> pos <= r.end < |toks|
    decreases |toks| - pos
  {
    if !IsWord(toks[pos], "require") then Found((), pos)
    else
      match ParseStringList(toks, pos + 1)
      case Failed(e) => Failed(e)
      case Found(caps, semi) =>
        match Expect(toks, semi, Semicolon, ";")
        case Failed(e) => Failed(e)
        case Found(_, next) =>
          match BadCapability(caps)
          case Some(c) => Failed(ScriptError(toks[pos].line, SieveLexer.UnsupportedCapability(c)))
          case None => ParseRequires(toks, next)
  }

  function ExpectIf(toks: seq<Token>, pos: nat): (r: Parsed<()>)
    requires Terminated(toks) && pos < |toks|
    ensures r.Found? ==> r.end == pos + 1 < |toks|
  {
    if IsWord(toks[pos], "if") then Found((), pos + 1) else Miss(toks[pos], "if")
  }

  /** The test, the braces and the actions after the `if`. */
  function ParseBlock(toks: seq<Token>, pos: nat): (r: Parsed<(Condition, seq<Action>)>)
    requires Terminated(toks) && pos < |toks|
    ensures r.Found? ==> pos < r.end < |toks|
  {
    match ParseTest(toks, pos, 0)
    case Failed(e) => Failed(e)
    case Found(root, brace) =>
      match Expect(toks, brace, LBrace, "{")
      case Failed(e) => Failed(e)
      case Found(_, body) =>
        match ParseActions(toks, body)
        case Failed(e) => Failed(e)
        case Found(actions, close) => Found((root, actions), close + 1)
  }

  /** The match tree of a rule whose root test is `root`: a group test becomes the tree itself,
      and its negation is dropped. */
  function RootMatch(root: Condition): MatchGroup {
    if root.group.Some? then root.group.value else MatchGroup("allof", [root])
  }

  function ParseScript(toks: seq<Token>): Result<(Condition, seq<Action>), ScriptError>
    requires Terminated(toks)
  {
    match ParseRequires(toks, 0)
    case Failed(e) => Err(e)
    case Found(_, start) =>
      match ExpectIf(toks, start)
      case Failed(e) => Err(e)
      case Found(_, test) =>
        match ParseBlock(toks, test)
        case Failed(e) => Err(e)
        case Found((root, actions), end) =>
          if toks[end].kind != Eof then Err(ScriptError(toks[end].line, ContentAfterRule))
          else Ok((root, actions))
  }

  /** The rule a script text denotes; every field but Match and Actions passes through. */
  function ParseText(text: string, existing: Rule): Result<Rule, ScriptError> {
    match Lex(text, 0)
    case Err(e) => Err(e)
    case Ok(toks) =>
      match ParseScript(toks)
      case Err(e) => Err(e)
      case Ok((root, actions)) => Ok(existing.(match_ := RootMatch(root), actions := actions))
  }

  // ---------- The parser object ----------

  function Moved<T>(p: Parsed<T>): Result<T, ScriptError> {
    match p
    case Found(v, _) => Ok(v)
    case Failed(e) => Err(e)
  }

  class Parser {
    const toks: seq<Token>
    var pos: nat
    var depth: nat

    ghost predicate Valid()
      reads this
    {
      Terminated(toks) && pos < |toks|
    }

    /** The object's step agrees with the specification: same value, same position, same depth
        after a success; the same error after a failure. */
    ghost predicate Did<T>(p: Parsed<T>, r: Result<T, ScriptError>, depthBefore: nat)
      reads this
    {
      && Valid()
      && r == Moved(p)
      && (p.Found? ==> pos == p.end && depth == depthBefore)
    }

    constructor (toks: seq<Token>)
      requires Terminated(toks)
      ensures Valid() && this.toks == toks && pos == 0 && depth == 0
    {
      this.toks := toks;
      pos := 0;
      depth := 0;
    }

    method EnterTest(line: nat) returns (r: Option<ScriptError>)
      modifies this`depth
      ensures depth == old(depth) + 1
      ensures r == if old(depth) >= MAX_TEST_NESTING_DEPTH then Some(ScriptError(line, NestingTooDeep)) else None
    {
      depth := depth + 1;
      r := if depth > MAX_TEST_NESTING_DEPTH then Some(ScriptError(line, NestingTooDeep)) else None;
    }

    method ExitTest()
      requires depth > 0
      modifies this`depth
      ensures depth == old(depth) - 1
    {
      depth := depth - 1;
    }

    /** Returns the current token and moves on, but never past the last token. */
    method Next() returns (t: Token)
      requires Valid()
      modifies this`pos
      ensures Valid() && t == toks[old(pos)]
      ensures pos == if old(pos) < |toks| - 1 then old(pos) + 1 else old(pos)
    {
      t := toks[pos];
      if pos < |toks| - 1 {
        pos := pos + 1;
      }
    }

    method ExpectKind(kind: TokKind, what: string) returns (r: Result<string, ScriptError>)
      requires Valid() && kind != Eof
      modifies this`pos
      ensures Did(Expect(toks, old(pos), kind, what), r, old(depth))
    {
      var t := toks[pos];
      if t.kind != kind {
        return Err(ScriptError(t.line, Expected(what, Display(t))));
      }
      t := Next();
      r := Ok(t.text);
    }

    method StringList() returns (r: Result<seq<string>, ScriptError>)
      requires Valid()
      modifies this`pos
      ensures Did(ParseStringList(toks, old(pos)), r, old(depth))
    {
      var open := ExpectKind(LBracket, "[");
      if open.Err? {
        return Err(open.error);
      }
      var out: seq<string> := [];
      ghost var start := pos;
      WithItemsNone(ParseItems(toks, pos));
      while toks[pos].kind != RBracket
        invariant Valid() && start <= pos
        invariant ParseItems(toks, start) == WithItems(out, ParseItems(toks, pos))
        decreases |toks| - pos
      {
        ghost var before := pos;
        var s := ExpectKind(Str, "string");
        if s.Err? {
          return Err(s.error);
        }
        if toks[pos].kind == Comma {
          WithItemsTwice(out, [s.value], ParseItems(toks, pos + 1));
          var _ := Next();
          out := out + [s.value];
        } else {
          out := out + [s.value];
          assert ParseItems(toks, start) == Found(out, pos);
          break;
        }
      }
      if toks[pos].kind == RBracket {
        assert out + [] == out;
      }
      assert ParseItems(toks, start) == Found(out, pos);
      var close := ExpectKind(RBracket, "]");
      if close.Err? {
        return Err(close.error);
      }
      r := Ok(out);
    }

    method ComparatorTag(default: string) returns (r: Result<string, ScriptError>)
      requires Valid()
      modifies this`pos
      ensures Did(ParseComparatorTag(toks, old(pos), default), r, old(depth))
    {
      if toks[pos].kind != ColonTag {
        return Ok(default);
      }
      var tag := Next();
      if Lower(tag.text) in COMPARATOR_TAGS {
        r := Ok(Lower(tag.text));
      } else {
        r := Err(ScriptError(tag.line, UnsupportedTag(tag.text)));
      }
    }

    method Header() returns (r: Result<Condition, ScriptError>)
      requires Valid() && toks[pos].kind != Eof
      modifies this`pos
      ensures Did(ParseHeader(toks, old(pos)), r, old(depth))
    {
      var t := Next();
      var comparator := ComparatorTag("is");
      if comparator.Err? {
        return Err(comparator.error);
      }
      var fields := StringList();
      if fields.Err? {
        return Err(fields.error);
      }
      var value := ExpectKind(Str, "string value");
      if value.Err? {
        return Err(value.error);
      }
      r := Moved(CheckedFields(fields.value, comparator.value, value.value, t.line, pos));
    }

    method Exists() returns (r: Result<Condition, ScriptError>)
      requires Valid() && toks[pos].kind != Eof
      modifies this`pos
      ensures Did(ParseExists(toks, old(pos)), r, old(depth))
    {
      var t := Next();
      var fields := StringList();
      if fields.Err? {
        return Err(fields.error);
      }
      r := Moved(CheckedFields(fields.value, "exists", "", t.line, pos));
    }

    method ValueTest(field: string, default: string) returns (r: Result<Condition, ScriptError>)
      requires Valid() && toks[pos].kind != Eof
      modifies this`pos
      ensures Did(ParseValueTest(toks, old(pos), field, default), r, old(depth))
    {
      var _ := Next();
      var comparator := ComparatorTag(default);
      if comparator.Err? {
        return Err(comparator.error);
      }
      var value := ExpectKind(Str, "string value");
      if value.Err? {
        return Err(value.error);
      }
      r := Ok(Leaf(field, comparator.value, value.value));
    }

    method Test() returns (r: Result<Condition, ScriptError>)
      requires Valid()
      modifies this
      ensures Did(ParseTest(toks, old(pos), old(depth)), r, old(depth))
      decreases |toks| - pos, 1
    {
      var t := toks[pos];
      if t.kind != Word {
        return Err(ScriptError(t.line, Expected("a test", Display(t))));
      }
      match KeywordOf(t.text)
      case KwNot => r := Negation();
      case KwGroup => r := Group();
      case KwHeader => r := Header();
      case KwExists => r := Exists();
      case KwBody => r := ValueTest("body", "contains");
      case KwHasFlag => r := ValueTest("keyword", "is");
      case KwUnknown => r := Err(ScriptError(t.line, UnknownTest(t.text)));
    }

    method Negation() returns (r: Result<Condition, ScriptError>)
      requires Valid() && toks[pos].kind != Eof
      modifies this
      ensures Did(ParseNot(toks, old(pos), old(depth)), r, old(depth))
      decreases |toks| - pos, 0
    {
      var t := Next();
      var tooDeep := EnterTest(t.line);
      if tooDeep.Some? {
        return Err(tooDeep.value);
      }
      var inner := Test();
      if inner.Err? {
        return Err(inner.error);
      }
      ExitTest();
      r := Ok(inner.value.(negate := !inner.value.negate));
    }

    method Group() returns (r: Result<Condition, ScriptError>)
      requires Valid() && toks[pos].kind != Eof
      modifies this
      ensures Did(ParseGroup(toks, old(pos), old(depth)), r, old(depth))
      decreases |toks| - pos, 0
    {
      var t := Next();
      var tooDeep := EnterTest(t.line);
      if tooDeep.Some? {
        return Err(tooDeep.value);
      }
      var open := ExpectKind(LParen, "(");
      if open.Err? {
        return Err(open.error);
      }
      var conds := Tests();
      if conds.Err? {
        return Err(conds.error);
      }
      var close := ExpectKind(RParen, ")");
      if close.Err? {
        return Err(close.error);
      }
      ExitTest();
      r := Ok(GroupCondition(MatchGroup(Lower(t.text), conds.value)));
    }

    method Tests() returns (r: Result<seq<Condition>, ScriptError>)
      requires Valid()
      modifies this
      ensures Did(ParseTests(toks, old(pos), old(depth)), r, old(depth))
      decreases |toks| - pos, 2
    {
      hide ParseTest;
      var conds: seq<Condition> := [];
      ghost var whole := ParseTests(toks, pos, depth);
      var more := true;
      WithItemsNone(whole);
      while more
        invariant Valid() && old(pos) <= pos && depth == old(depth)
        invariant more ==> whole == WithItems(conds, ParseTests(toks, pos, depth))
        invariant !more ==> whole == Found(conds, pos)
        decreases more, |toks| - pos
      {
        ghost var before := pos;
        var c := Test();
        if c.Err? {
          return Err(c.error);
        }
        if toks[pos].kind == Comma {
          WithItemsTwice(conds, [c.value], ParseTests(toks, pos + 1, depth));
          var _ := Next();
        } else {
          more := false;
        }
        conds := conds + [c.value];
      }
      r := Ok(conds);
    }

    method ActionStatement() returns (r: Result<Action, ScriptError>)
      requires Valid()
      modifies this`pos
      ensures Did(ParseAction(toks, old(pos)), r, old(depth))
    {
      var t := toks[pos];
      if t.kind != Word {
        return Err(ScriptError(t.line, Expected("an action", Display(t))));
      }
      var name := Lower(t.text);
      var _ := Next();
      var known := ActionKind(name);
      if known == None {
        return Err(ScriptError(t.line, UnknownAction(name)));
      }
      var value := "";
      if known.value.1 {
        var v := ExpectKind(Str, "string");
        if v.Err? {
          return Err(v.error);
        }
        value := v.value;
      }
      var semi := ExpectKind(Semicolon, ";");
      if semi.Err? {
        return Err(semi.error);
      }
      r := Ok(Action(known.value.0, value));
    }

    method Actions() returns (r: Result<seq<Action>, ScriptError>)
      requires Valid()
      modifies this`pos
      ensures Did(ParseActions(toks, old(pos)), r, old(depth))
    {
      var actions: seq<Action> := [];
      WithItemsNone(ParseActions(toks, pos));
      while toks[pos].kind != RBrace
        invariant Valid() && old(pos) <= pos
        invariant ParseActions(toks, old(pos)) == WithItems(actions, ParseActions(toks, pos))
        decreases |toks| - pos
      {
        if toks[pos].kind == Eof {
          return Err(ScriptError(toks[pos].line, UnbalancedBraces));
        }
        var a := ActionStatement();
        if a.Err? {
          return Err(a.error);
        }
        WithItemsTwice(actions, if a.value.kind == "keep" then [] else [a.value], ParseActions(toks, pos));
        if a.value.kind == "keep" {
          assert actions + [] == actions;
        } else {
          actions := actions + [a.value];
        }
      }
      assert actions + [] == actions;
      r := Ok(actions);
    }

    method Requires() returns (r: Result<(), ScriptError>)
      requires Valid()
      modifies this`pos
      ensures Did(ParseRequires(toks, old(pos)), r, old(depth))
    {
      while toks[pos].kind == Word && EqualFold(toks[pos].text, "require")
        invariant Valid() && old(pos) <= pos
        invariant ParseRequires(toks, old(pos)) == ParseRequires(toks, pos)
        decreases |toks| - pos
      {
        var reqTok := Next();
        var caps := StringList();
        if caps.Err? {
          return Err(caps.error);
        }
        var semi := ExpectKind(Semicolon, ";");
        if semi.Err? {
          return Err(semi.error);
        }
        var bad := BadCapability(caps.value);
        if bad.Some? {
          return Err(ScriptError(reqTok.line, SieveLexer.UnsupportedCapability(bad.value)));
        }
      }
      r := Ok(());
    }

    method If() returns (r: Result<(), ScriptError>)
      requires Valid()
      modifies this`pos
      ensures Did(ExpectIf(toks, old(pos)), r, old(depth))
    {
      var t := toks[pos];
      if t.kind != Word || !EqualFold(t.text, "if") {
        return Err(ScriptError(t.line, Expected("if", Display(t))));
      }
      var _ := Next();
      r := Ok(());
    }

    method Block() returns (r: Result<(Condition, seq<Action>), ScriptError>)
      requires Valid() && depth == 0
      modifies this
      ensures Did(ParseBlock(toks, old(pos)), r, 0)
    {
      var root := Test();
      if root.Err? {
        return Err(root.error);
      }
      var open := ExpectKind(LBrace, "{");
      if open.Err? {
        return Err(open.error);
      }
      var actions := Actions();
      if actions.Err? {
        return Err(actions.error);
      }
      var close := ExpectKind(RBrace, "}");
      r := Ok((root.value, actions.value));
    }
  }

  function WithItems<T>(out: seq<T>, tail: Parsed<seq<T>>): Parsed<seq<T>> {
    match tail
    case Failed(e) => Failed(e)
    case Found(rest, end) => Found(out + rest, end)
  }

  lemma WithItemsNone<T>(tail: Parsed<seq<T>>)
    ensures WithItems([], tail) == tail
  {
    if tail.Found? {
      assert [] + tail.value == tail.value;
    }
  }

  lemma WithItemsTwice<T>(a: seq<T>, b: seq<T>, tail: Parsed<seq<T>>)
    ensures WithItems(a, WithItems(b, tail)) == WithItems(a + b, tail)
  {
    if tail.Found? {
      assert a + (b + tail.value) == (a + b) + tail.value;
    }
  }

  method ParseRuleText(text: string, existing: Rule) returns (r: Result<Rule, ScriptError>)
    ensures r == ParseText(text, existing)
  {
    var toks := LexSieve(text);
    if toks.Err? {
      return Err(toks.error);
    }
    var p := new Parser(toks.value);
    var caps := p.Requires();
    if caps.Err? {
      return Err(caps.error);
    }
    var open := p.If();
    if open.Err? {
      return Err(open.error);
    }
    var block := p.Block();
    if block.Err? {
      return Err(block.error);
    }
    if p.toks[p.pos].kind != Eof {
      return Err(ScriptError(p.toks[p.pos].line, ContentAfterRule));
    }
    r := Ok(existing.(match_ := RootMatch(block.value.0), actions := block.value.1));
  }
}
