/** The `require` line of a compiled script against the extensions the script uses (RFC 5228,
    section 3.2). */
module SieveRequires {
  import opened Wrappers
  import opened Text
  import opened RuleModel
  import opened SieveParser
  import opened SieveCompiler
  import opened SieveGrammar
  import opened SieveScripts
  import opened SieveUnique
  import opened SievePrinting
  import opened CompiledTests
  import opened CompiledRules
  import opened SieveRejections
  import opened SieveRoundTrip

  // ---------- What a script uses and requires ----------

  predicate RegexTag(tag: Option<string>) {
    tag.Some? && Lower(tag.value) == "regex"
  }

  /** The test uses the extension. */
  predicate TestUses(t: Test, cap: string) {
    match t
    case Not(_, inner) => TestUses(inner, cap)
    case Group(_, tests) => exists i :: 0 <= i < |tests| && TestUses(tests[i], cap)
    case Header(_, tag, _, _) => cap == "regex" && RegexTag(tag)
    case Exists(_, _) => false
    case Body(_, tag, _) => cap == "body" || (cap == "regex" && RegexTag(tag))
    case HasFlag(_, tag, _) => cap == "imap4flags" || (cap == "regex" && RegexTag(tag))
  }

  predicate StatementUses(s: Statement, cap: string) {
    || (cap == "fileinto" && s.word == "fileinto")
    || (cap == "imap4flags" && s.word in {"addflag", "removeflag"})
    || (cap == "kymail" && s.word in {"markread", "archive", "markspam"})
  }

  predicate ScriptUses(s: Script, cap: string) {
    TestUses(s.test, cap) || exists i :: 0 <= i < |s.body| && StatementUses(s.body[i], cap)
  }

  predicate ScriptRequires(s: Script, cap: string) {
    exists i :: 0 <= i < |s.requires_| && cap in s.requires_[i].caps.items
  }

  // ---------- What a tree prints ----------

  /** The leaf prints a test that uses the extension: by its trimmed, lower-cased field or comparator. */
  predicate LeafPrintsUse(c: Condition, cap: string) {
    var field := Lower(Trim(c.field));
    || (cap == "body" && field == "body")
    || (cap == "imap4flags" && field == "keyword")
    || (cap == "regex" && TagWord(c.comparator) == "regex")
  }

  predicate ConditionPrintsUse(c: Condition, cap: string) {
    if c.group.Some? then TreePrintsUse(c.group.value, cap) else LeafPrintsUse(c, cap)
  }

  predicate TreePrintsUse(g: MatchGroup, cap: string) {
    exists i :: 0 <= i < |g.conditions| && ConditionPrintsUse(g.conditions[i], cap)
  }

  /** The leaf is one the capability check notices: it compares field and comparator untrimmed, and the
      comparator in its exact case. */
  predicate LeafNoticed(c: Condition, cap: string) {
    || (cap == "body" && EqualFold(c.field, "body"))
    || (cap == "imap4flags" && EqualFold(c.field, "keyword"))
    || (cap == "regex" && c.comparator == "regex")
  }

  predicate ConditionNoticed(c: Condition, cap: string) {
    if c.group.Some? then TreeNoticed(c.group.value, cap) else LeafNoticed(c, cap)
  }

  predicate TreeNoticed(g: MatchGroup, cap: string) {
    exists i :: 0 <= i < |g.conditions| && ConditionNoticed(g.conditions[i], cap)
  }

  const ACTION_KINDS: map<string, set<string>> := map[
    "fileinto" := {"move"}, "imap4flags" := {"keyword", "unkeyword"}, "kymail" := {"read", "archive", "spam"}]

  predicate ActionsUse(actions: seq<Action>, cap: string) {
    cap in ACTION_KINDS && exists i :: 0 <= i < |actions| && actions[i].kind in ACTION_KINDS[cap]
  }

  lemma {:induction false} LeafPrintsExact(c: Condition, wide: char -> bool, cap: string)
    requires CompileLeaf(c, wide).Ok?
    ensures TestUses(PrintedLeaf(c, wide), cap) == LeafPrintsUse(c, cap)
  {
    hide Lower, Trim, EqualFold, TagWord, Reread, CompileLeaf;
    TagIsTag(c.comparator);
    KnownLeaf(c, wide);
    if EqualFold(c.comparator, "exists") {
      ExistsTidy(c.comparator);
    }
  }

  lemma {:induction false} ConditionPrintsExact(c: Condition, wide: char -> bool, cap: string)
    requires CompileCondition(c, wide).Ok?
    ensures TestUses(PrintedCondition(c, wide), cap) == ConditionPrintsUse(c, cap)
    decreases c, 1
  {
    hide PrintedLeaf, CompileLeaf, LeafPrintsUse, TreePrintsUse, PrintedGroup;
    if c.group.Some? {
      TreePrintsExact(c.group.value, wide, cap);
    } else {
      LeafPrintsExact(c, wide, cap);
    }
  }

  lemma {:induction false} TreePrintsExact(g: MatchGroup, wide: char -> bool, cap: string)
    requires CompileGroup(g, wide).Ok?
    ensures TestUses(PrintedGroup(g, wide), cap) == TreePrintsUse(g, cap)
    decreases g, 0
  {
    hide ConditionPrintsUse, PrintedCondition, CompileCondition;
    var cs, ts := g.conditions, PrintedConditions(g.conditions, wide);
    forall i | 0 <= i < |cs|
      ensures TestUses(ts[i], cap) == ConditionPrintsUse(cs[i], cap)
    {
      PrintedAt(cs, wide, i);
      ConditionPrintsExact(cs[i], wide, cap);
    }
  }

  lemma {:induction false} PrintedAt(cs: seq<Condition>, wide: char -> bool, i: nat)
    requires i < |cs| && CompileConditions(cs, wide).Ok?
    ensures PrintedConditions(cs, wide)[i] == PrintedCondition(cs[i], wide) && CompileCondition(cs[i], wide).Ok?
    decreases i
  {
    hide PrintedCondition, CompileCondition;
    if i > 0 {
      PrintedAt(cs[1..], wide, i - 1);
    }
  }

  lemma {:induction false} StatementPrintsExact(a: Action, wide: char -> bool, cap: string)
    requires ActionWord(a.kind).Some?
    ensures StatementUses(PrintedStatement(a, wide), cap) == (cap in ACTION_KINDS && a.kind in ACTION_KINDS[cap])
  {
    hide Reread;
  }

  /** The printed script uses an extension exactly when some leaf or action of the rule calls for it. */
  lemma {:induction false} ScriptUsesExact(r: Rule, wide: char -> bool, cap: string)
    requires CompileText(r, wide).Ok? && Supported(r.actions)
    ensures ScriptUses(PrintedScript(r, wide), cap) == (TreePrintsUse(r.match_, cap) || ActionsUse(r.actions, cap))
  {
    hide CompileGroup, CompileActions, PrintedGroup, TestUses, TreePrintsUse, StatementUses, PrintedStatement,
         RequireLine, Capabilities;
    TreePrintsExact(r.match_, wide, cap);
    var s := PrintedScript(r, wide);
    if r.actions == [] {
      KeepUsesNothing(cap);
    } else {
      forall i | 0 <= i < |r.actions|
        ensures StatementUses(s.body[i], cap) == (cap in ACTION_KINDS && r.actions[i].kind in ACTION_KINDS[cap])
      {
        StatementPrintsExact(r.actions[i], wide, cap);
      }
    }
  }

  lemma KeepUsesNothing(cap: string)
    ensures !StatementUses(Statement("keep", None), cap)
  {
  }

  // ---------- What the require line lists ----------

  lemma {:induction false} NoticedField(g: MatchGroup, cap: string, field: string)
    requires (cap == "body" && field == "body") || (cap == "imap4flags" && field == "keyword")
    ensures UsesField(g, field) == TreeNoticed(g, cap)
    decreases g
  {
    hide EqualFold;
    forall i | 0 <= i < |g.conditions|
      ensures ConditionUsesField(g.conditions[i], field) == ConditionNoticed(g.conditions[i], cap)
    {
      if g.conditions[i].group.Some? {
        NoticedField(g.conditions[i].group.value, cap, field);
      }
    }
  }

  lemma {:induction false} NoticedRegex(g: MatchGroup)
    ensures UsesComparator(g, "regex") == TreeNoticed(g, "regex")
    decreases g
  {
    hide EqualFold;
    forall i | 0 <= i < |g.conditions|
      ensures ConditionUsesComparator(g.conditions[i], "regex") == ConditionNoticed(g.conditions[i], "regex")
    {
      if g.conditions[i].group.Some? {
        NoticedRegex(g.conditions[i].group.value);
      }
    }
  }

  lemma {:induction false} NothingNoticed(g: MatchGroup, cap: string)
    requires cap !in {"body", "imap4flags", "regex"}
    ensures !TreeNoticed(g, cap)
    decreases g
  {
    forall i | 0 <= i < |g.conditions|
      ensures !ConditionNoticed(g.conditions[i], cap)
    {
      if g.conditions[i].group.Some? {
        NothingNoticed(g.conditions[i].group.value, cap);
      }
    }
  }

  /** The require line lists an extension exactly when the check noticed a leaf or an action. */
  lemma {:induction false} RequiredExact(r: Rule, wide: char -> bool, cap: string)
    requires Supported(r.actions) && cap in ALLOWED_CAPABILITIES
    ensures ScriptRequires(PrintedScript(r, wide), cap) == (TreeNoticed(r.match_, cap) || ActionsUse(r.actions, cap))
  {
    hide TreeNoticed, UsesField, UsesComparator, UsesAction, ActionsUse, Capabilities, PrintedScript, ScriptRequires, Supported;
    CapabilitiesExact(r, cap);
    ActionsNoticed(r, cap);
    NoticedField(r.match_, "body", "body");
    NoticedField(r.match_, "imap4flags", "keyword");
    NoticedRegex(r.match_);
    if cap !in {"body", "imap4flags", "regex"} {
      NothingNoticed(r.match_, cap);
    }
    RequiresAre(r, wide, cap);
  }

  lemma {:induction false} CapabilitiesExact(r: Rule, cap: string)
    ensures cap in Capabilities(r)
       <==> || (cap == "fileinto" && UsesAction(r, {"move"}))
            || (cap == "body" && UsesField(r.match_, "body"))
            || (cap == "regex" && UsesComparator(r.match_, "regex"))
            || (cap == "imap4flags" && (UsesAction(r, {"keyword", "unkeyword"}) || UsesField(r.match_, "keyword")))
            || (cap == "kymail" && UsesAction(r, {"read", "archive", "spam"}))
  {
    hide UsesAction, UsesField, UsesComparator;
  }

  lemma {:induction false} ActionsNoticed(r: Rule, cap: string)
    ensures ActionsUse(r.actions, cap)
       <==> || (cap == "fileinto" && UsesAction(r, {"move"}))
            || (cap == "imap4flags" && UsesAction(r, {"keyword", "unkeyword"}))
            || (cap == "kymail" && UsesAction(r, {"read", "archive", "spam"}))
  {
    assert ACTION_KINDS.Keys == {"fileinto", "imap4flags", "kymail"};
  }

  lemma {:induction false} RequiresAre(r: Rule, wide: char -> bool, cap: string)
    requires Supported(r.actions)
    ensures ScriptRequires(PrintedScript(r, wide), cap) <==> cap in Capabilities(r)
  {
    hide Capabilities, PrintedGroup, PrintedStatement;
    var s := PrintedScript(r, wide);
    if Capabilities(r) != [] {
      assert s.requires_[0].caps.items == Capabilities(r);
    }
  }

  // ---------- Main results ----------

  lemma {:induction false} NoticedPrints(g: MatchGroup, cap: string)
    ensures TreeNoticed(g, cap) ==> TreePrintsUse(g, cap)
    decreases g
  {
    if TreeNoticed(g, cap) {
      var i :| 0 <= i < |g.conditions| && ConditionNoticed(g.conditions[i], cap);
      if g.conditions[i].group.Some? {
        NoticedPrints(g.conditions[i].group.value, cap);
      } else {
        NoticedLeafPrints(g.conditions[i], cap);
      }
      assert ConditionPrintsUse(g.conditions[i], cap);
    }
  }

  lemma {:induction false} NoticedLeafPrints(c: Condition, cap: string)
    requires LeafNoticed(c, cap)
    ensures LeafPrintsUse(c, cap)
  {
    if cap == "body" {
      FoldsTo(c.field, "body");
    } else if cap == "imap4flags" {
      FoldsTo(c.field, "keyword");
    } else {
      PlainField("regex");
    }
  }

  lemma {:induction false} FoldsTo(s: string, field: string)
    requires field == "body" || field == "keyword"
    requires EqualFold(s, field)
    ensures Lower(Trim(s)) == field
  {
    PlainField(field);
    forall i | 0 <= i < |s|
      ensures LowerChar(s[i]) == field[i]
    {
      assert FoldChar(s[i]) == Fold(s)[i] == field[i];
    }
    assert |s| == |Fold(s)|;
    assert Lower(s) == field;
    LowerLettersSpaceFree(s);
  }

  /** The one script a compiled text spells is the printed one. */
  lemma {:induction false} SpelledIsPrinted(r: Rule, s: Script, wide: char -> bool)
    requires CompileText(r, wide).Ok? && ScriptOk(s) && Spells(CompileText(r, wide).value, s)
    ensures Supported(r.actions) && s == PrintedScript(r, wide)
  {
    hide CompileText, ScriptOk, Spells, PrintedScript, TidyGroup;
    CompiledSpells(r, wide);
    SpellsUnique(CompileText(r, wide).value, s, PrintedScript(r, wide));
  }

  /** A compiled script never requires an extension it does not use. */
  lemma {:induction false} RequiresOnlyUsed(r: Rule, s: Script, wide: char -> bool, cap: string)
    requires CompileText(r, wide).Ok? && ScriptOk(s) && Spells(CompileText(r, wide).value, s)
    requires cap in ALLOWED_CAPABILITIES
    ensures ScriptRequires(s, cap) ==> ScriptUses(s, cap)
  {
    hide CompileText, ScriptOk, Spells, PrintedScript, TreePrintsUse, TreeNoticed, ScriptUses, ScriptRequires;
    SpelledIsPrinted(r, s, wide);
    RequiredExact(r, wide, cap);
    ScriptUsesExact(r, wide, cap);
    NoticedPrints(r.match_, cap);
  }

  /** A compiled script requires an extension it uses if and only if an action calls for it, or a leaf
      that prints a use of it comes with one the check notices: fields are noticed only without
      padding, the regex comparator only in lower case. */
  lemma {:induction false} RequiresUsedExact(r: Rule, s: Script, wide: char -> bool, cap: string)
    requires CompileText(r, wide).Ok? && ScriptOk(s) && Spells(CompileText(r, wide).value, s)
    requires cap in ALLOWED_CAPABILITIES
    ensures (ScriptUses(s, cap) ==> ScriptRequires(s, cap))
       <==> (ActionsUse(r.actions, cap) || (TreePrintsUse(r.match_, cap) ==> TreeNoticed(r.match_, cap)))
  {
    hide CompileText, ScriptOk, Spells, PrintedScript, TreePrintsUse, TreeNoticed, ScriptUses, ScriptRequires;
    SpelledIsPrinted(r, s, wide);
    RequiredExact(r, wide, cap);
    ScriptUsesExact(r, wide, cap);
  }

  lemma {:induction false} ShapedNoticed(g: MatchGroup, cap: string)
    requires Shaped(g)
    ensures TreePrintsUse(g, cap) ==> TreeNoticed(g, cap)
    decreases g
  {
    if TreePrintsUse(g, cap) {
      var i :| 0 <= i < |g.conditions| && ConditionPrintsUse(g.conditions[i], cap);
      if g.conditions[i].group.Some? {
        ShapedNoticed(g.conditions[i].group.value, cap);
      } else {
        ShapedLeafNoticed(g.conditions[i], cap);
      }
      assert ConditionNoticed(g.conditions[i], cap);
    }
  }

  lemma {:induction false} ShapedLeafNoticed(c: Condition, cap: string)
    requires ShapedLeaf(c) && LeafPrintsUse(c, cap)
    ensures LeafNoticed(c, cap)
  {
    KnownFieldPlain(c.field);
    if c.comparator in COMPARATOR_TAGS {
      PlainTag(c.comparator);
    } else {
      PlainField("exists");
    }
    hide Lower, Trim, Fold;
  }

  /** Rules in the parser's shape, so all rules that came from a script, require exactly what they use. */
  lemma {:induction false} ShapedRequiresExactly(r: Rule, s: Script, wide: char -> bool, cap: string)
    requires CompileText(r, wide).Ok? && ScriptOk(s) && Spells(CompileText(r, wide).value, s)
    requires cap in ALLOWED_CAPABILITIES && Shaped(r.match_)
    ensures ScriptRequires(s, cap) <==> ScriptUses(s, cap)
  {
    hide CompileText, ScriptOk, Spells, TreePrintsUse, TreeNoticed, Shaped, ScriptUses, ScriptRequires;
    RequiresOnlyUsed(r, s, wide, cap);
    RequiresUsedExact(r, s, wide, cap);
    ShapedNoticed(r.match_, cap);
  }

  /** A padded field slips through: the script compiled for this rule uses `body` without requiring it. */
  lemma {:induction false} PaddedFieldUnnoticed(wide: char -> bool)
    ensures var r := LoneRule(Leaf(" body", "is", "x"));
            && CompileText(r, wide).Ok?
            && exists s :: ScriptOk(s) && Spells(CompileText(r, wide).value, s)
                           && ScriptUses(s, "body") && !ScriptRequires(s, "body")
  {
    var c := Leaf(" body", "is", "x");
    var r := LoneRule(c);
    hide CompileText, ScriptOk, Spells, PrintedScript, ScriptUses, ScriptRequires, TidyGroup, Tidy;
    PaddedBody(wide);
    LoneReparse(c, r, wide);
    CompiledSpells(r, wide);
    RequiresUsedExact(r, PrintedScript(r, wide), wide, "body");
    ScriptUsesExact(r, wide, "body");
    assert ConditionPrintsUse(r.match_.conditions[0], "body");
    assert forall i :: 0 <= i < |r.match_.conditions| ==> !ConditionNoticed(r.match_.conditions[i], "body");
  }

  lemma {:induction false} PaddedBody(wide: char -> bool)
    ensures Lower(Trim(" body")) == "body" && !EqualFold(" body", "body")
    ensures CompileLeaf(Leaf(" body", "is", "x"), wide).Ok? && Tidy("is")
  {
    hide Quote, Concat;
    PlainField("body");
    assert " body"[1..] == "body";
    assert Trim(" body") == Trim("body");
    assert |Fold(" body")| == 5 && |Fold("body")| == 4;
    PlainTag("is");
  }
}
