/** Rendering a rule as a script of the Sieve subset. */
module SieveCompiler {
  import opened Wrappers
  import opened Text
  import opened RuleModel

  datatype CompileError = UnsupportedField(field: string) | UnsupportedAction(kind: string)

  // ---------- Go's strconv.Quote ----------

  /** strconv.IsPrint.  It is exact up to U+00FF; beyond, `wide` stands for the Unicode tables. */
  predicate IsPrint(c: char, wide: char -> bool) {
    var n := c as int;
    if n <= 0xFF then 0x20 <= n < 0x7F || (0xA1 <= n && n != 0xAD) else wide(c)
  }

  function HexDigit(d: nat): char
    requires d < 16
  {
    if d < 10 then '0' + d as char else 'a' + (d - 10) as char
  }

  function Hex(n: nat, width: nat): (r: string)
    ensures |r| == width
  {
    if width == 0 then "" else Hex(n / 16, width - 1) + [HexDigit(n % 16)]
  }

  /** What follows the backslash when an unprintable character is escaped. */
  function EscapeTail(c: char): (r: string)
    ensures r != ""
  {
    match c as int
    case 7 => "a"
    case 8 => "b"
    case 12 => "f"
    case 10 => "n"
    case 13 => "r"
    case 9 => "t"
    case 11 => "v"
    case n =>
      if n < 0x20 || n == 0x7F then "x" + Hex(n, 2)
      else if n < 0x10000 then "u" + Hex(n, 4)
      else "U" + Hex(n, 8)
  }

  function QuoteChar(c: char, wide: char -> bool): string {
    if c == '"' || c == '\\' then ['\\', c]
    else if IsPrint(c, wide) then [c]
    else ['\\'] + EscapeTail(c)
  }

  function QuoteBody(s: string, wide: char -> bool): string {
    if s == "" then "" else QuoteChar(s[0], wide) + QuoteBody(s[1..], wide)
  }

  function Quote(s: string, wide: char -> bool): string {
    "\"" + QuoteBody(s, wide) + "\""
  }

  // ---------- Capabilities ----------

  predicate UsesField(g: MatchGroup, field: string) {
    exists i :: 0 <= i < |g.conditions| && ConditionUsesField(g.conditions[i], field)
  }

  predicate ConditionUsesField(c: Condition, field: string) {
    if c.group.Some? then UsesField(c.group.value, field) else EqualFold(c.field, field)
  }

  predicate UsesComparator(g: MatchGroup, comparator: string) {
    exists i :: 0 <= i < |g.conditions| && ConditionUsesComparator(g.conditions[i], comparator)
  }

  predicate ConditionUsesComparator(c: Condition, comparator: string) {
    if c.group.Some? then UsesComparator(c.group.value, comparator) else c.comparator == comparator
  }

  predicate UsesAction(r: Rule, kinds: set<string>) {
    exists i :: 0 <= i < |r.actions| && r.actions[i].kind in kinds
  }

  function Capabilities(r: Rule): seq<string> {
    (if UsesAction(r, {"move"}) then ["fileinto"] else [])
    + (if UsesField(r.match_, "body") then ["body"] else [])
    + (if UsesComparator(r.match_, "regex") then ["regex"] else [])
    + (if UsesAction(r, {"keyword", "unkeyword"}) || UsesField(r.match_, "keyword") then ["imap4flags"] else [])
    + (if UsesAction(r, {"read", "archive", "spam"}) then ["kymail"] else [])
  }

  // ---------- The compiler ----------

  function ComparatorTag(comparator: string): string {
    if Lower(Trim(comparator)) in COMPARATOR_TAGS then Lower(comparator) else "is"
  }

  function GroupOp(op: string): string {
    if Lower(Trim(op)) == "anyof" then "anyof" else "allof"
  }

  function CompileLeaf(c: Condition, wide: char -> bool): Result<string, CompileError> {
    var field := Lower(Trim(c.field));
    var tag := ":" + ComparatorTag(c.comparator);
    if field in HEADER_FIELDS then
      if EqualFold(c.comparator, "exists") then
        Ok(Concat(["exists", " ", "[", Quote(field, wide), "]"]))
      else
        Ok(Concat(["header", " ", tag, " ", "[", Quote(field, wide), "]", " ", Quote(c.value, wide)]))
    else if field == "body" then
      Ok(Concat(["body", " ", tag, " ", Quote(c.value, wide)]))
    else if field == "keyword" then
      Ok(Concat(["hasflag", " ", tag, " ", Quote(c.value, wide)]))
    else Err(UnsupportedField(c.field))
  }

  function CompileCondition(c: Condition, wide: char -> bool): Result<string, CompileError> {
    var inner := if c.group.Some? then CompileGroup(c.group.value, wide) else CompileLeaf(c, wide);
    if inner.Ok? && c.negate then Ok("not " + inner.value) else inner
  }

  function CompileConditions(cs: seq<Condition>, wide: char -> bool): (r: Result<seq<string>, CompileError>)
    ensures r.Ok? ==> |r.value| == |cs|
  {
    if cs == [] then Ok([])
    else
      match CompileCondition(cs[0], wide)
      case Err(e) => Err(e)
      case Ok(head) =>
        match CompileConditions(cs[1..], wide)
        case Err(e) => Err(e)
        case Ok(tail) => Ok([head] + tail)
  }

  function CompileGroup(g: MatchGroup, wide: char -> bool): Result<string, CompileError> {
    match CompileConditions(g.conditions, wide)
    case Err(e) => Err(e)
    case Ok(parts) => Ok(GroupOp(g.op) + "(" + Join(parts, ", ") + ")")
  }

  /** The script word of an action kind, and whether it takes a string. */
  function ActionWord(kind: string): Option<(string, bool)> {
    match kind
    case "keyword" => Some(("addflag", true))
    case "unkeyword" => Some(("removeflag", true))
    case "move" => Some(("fileinto", true))
    case "read" => Some(("markread", false))
    case "archive" => Some(("archive", false))
    case "spam" => Some(("markspam", false))
    case "delete" => Some(("discard", false))
    case "stop" => Some(("stop", false))
    case _ => None
  }

  function CompileAction(a: Action, wide: char -> bool): Result<string, CompileError> {
    match ActionWord(a.kind)
    case None => Err(UnsupportedAction(a.kind))
    case Some((word, true)) => Ok(Concat([word, " ", Quote(a.value, wide), ";"]))
    case Some((word, false)) => Ok(Concat([word, ";"]))
  }

  function CompileActions(actions: seq<Action>, wide: char -> bool): Result<string, CompileError> {
    if actions == [] then Ok("")
    else
      match CompileAction(actions[0], wide)
      case Err(e) => Err(e)
      case Ok(line) =>
        match CompileActions(actions[1..], wide)
        case Err(e) => Err(e)
        case Ok(rest) => Ok("    " + line + "\n" + rest)
  }

  function QuoteAll(ss: seq<string>, wide: char -> bool): (r: seq<string>)
    ensures |r| == |ss|
  {
    seq(|ss|, i requires 0 <= i < |ss| => Quote(ss[i], wide))
  }

  function RequireLine(caps: seq<string>, wide: char -> bool): string {
    if caps == [] then "" else "require [" + Join(QuoteAll(caps, wide), ", ") + "];\n\n"
  }

  /** The script of a rule; only Match and Actions appear in it. */
  function CompileText(r: Rule, wide: char -> bool): Result<string, CompileError> {
    match CompileGroup(r.match_, wide)
    case Err(e) => Err(e)
    case Ok(test) =>
      match CompileActions(r.actions, wide)
      case Err(e) => Err(e)
      case Ok(lines) =>
        Ok(RequireLine(Capabilities(r), wide)
           + "if " + test + " {\n"
           + (if r.actions == [] then "    keep;\n" else "")
           + lines + "}\n")
  }

  function Prepend(head: string, tail: Result<string, CompileError>): Result<string, CompileError> {
    match tail
    case Err(e) => Err(e)
    case Ok(text) => Ok(head + text)
  }

  lemma PrependTwice(a: string, b: string, tail: Result<string, CompileError>)
    ensures Prepend(a, Prepend(b, tail)) == Prepend(a + b, tail)
  {
    if tail.Ok? {
      assert a + (b + tail.value) == (a + b) + tail.value;
    }
  }

  method AppendActions(start: string, actions: seq<Action>, wide: char -> bool)
    returns (r: Result<string, CompileError>)
    ensures r == Prepend(start, CompileActions(actions, wide))
  {
    var sb := start;
    for i := 0 to |actions|
      invariant Prepend(start, CompileActions(actions, wide)) == Prepend(sb, CompileActions(actions[i..], wide))
    {
      var line := CompileAction(actions[i], wide);
      assert actions[i..][1..] == actions[i + 1..];
      if line.Err? {
        return Err(line.error);
      }
      PrependTwice(sb, "    " + line.value + "\n", CompileActions(actions[i + 1..], wide));
      sb := sb + ("    " + line.value + "\n");
    }
    assert sb + "" == sb;
    r := Ok(sb);
  }

  method CompileRule(r: Rule, wide: char -> bool) returns (script: Result<string, CompileError>)
    ensures script == CompileText(r, wide)
  {
    var sb := RequireLine(Capabilities(r), wide);
    var test := CompileGroup(r.match_, wide);
    if test.Err? {
      return Err(test.error);
    }
    sb := sb + "if " + test.value + " {\n" + (if r.actions == [] then "    keep;\n" else "");
    var body := AppendActions(sb, r.actions, wide);
    if body.Err? {
      return Err(body.error);
    }
    script := Ok(body.value + "}\n");
  }
}
