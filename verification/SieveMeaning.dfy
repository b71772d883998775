/** When compiling a rule and parsing the script back keeps its meaning. */
module SieveMeaning {
  import opened Wrappers
  import opened Text
  import opened RuleModel
  import opened SieveParser
  import opened SieveCompiler
  import opened RulesEngine
  import opened SieveGrammar
  import opened SievePrinting
  import opened CompiledTests
  import opened SieveRejections
  import opened SieveRoundTrip

  // ---------- Safe leaves ----------

  /** The engine and the compiler read the leaf alike: its comparator is one of the four tags up to
      case and padding and its value is quotable, or it is a plain `exists` on a header field. */
  predicate SafeLeaf(c: Condition, wide: char -> bool) {
    if Lower(Trim(c.comparator)) in COMPARATOR_TAGS then Quotable(c.value, wide)
    else
      && Lower(Trim(c.field)) in HEADER_FIELDS
      && Lower(Trim(c.comparator)) == "exists" && EqualFold(c.comparator, "exists")
  }

  predicate SafeCondition(c: Condition, wide: char -> bool) {
    if c.group.Some? then SafeGroup(c.group.value, wide) else SafeLeaf(c, wide)
  }

  predicate SafeGroup(g: MatchGroup, wide: char -> bool) {
    forall i :: 0 <= i < |g.conditions| ==> SafeCondition(g.conditions[i], wide)
  }

  /** The engine's and the compiler's tests for the keyword field agree. */
  lemma {:induction false} KeywordFolds(s: string)
    ensures EqualFold(s, "keyword") <==> Lower(s) == "keyword"
  {
    var k := "keyword";
    PlainField(k);
    if EqualFold(s, k) {
      assert |s| == |k|;
      forall i | 0 <= i < |s|
        ensures LowerChar(s[i]) == k[i]
      {
        assert FoldChar(s[i]) == Fold(s)[i] == k[i];
      }
      assert Lower(s) == k;
    }
    if Lower(s) == k {
      assert |s| == |k|;
      forall i | 0 <= i < |s|
        ensures FoldChar(s[i]) == k[i]
      {
        assert LowerChar(s[i]) == Lower(s)[i] == k[i];
      }
      assert Fold(s) == k;
    }
  }

  /** Matching a value only looks at the normalized comparator. */
  lemma {:induction false} SameComparator(a: string, b: string, candidate: string, value: string, p: Patterns)
    requires Lower(Trim(a)) == Lower(Trim(b))
    ensures MatchesValue(a, candidate, value, p) == MatchesValue(b, candidate, value, p)
  {
  }

  lemma {:induction false} ExistsIgnoresValue(comparator: string, candidate: string, v: string, w: string, p: Patterns)
    requires Lower(Trim(comparator)) == "exists"
    ensures MatchesValue(comparator, candidate, v, p) == MatchesValue(comparator, candidate, w, p)
  {
  }

  /** Two leaves with the same normalized field, and comparators and values that match alike, match
      alike. */
  lemma {:induction false} LeavesAlike(c: Condition, d: Condition, input: EvalInput, p: Patterns)
    requires c.group == None && d.group == None && c.negate == d.negate
    requires Lower(Trim(c.field)) == Lower(Trim(d.field))
    requires forall candidate ::
               MatchesValue(c.comparator, candidate, c.value, p) == MatchesValue(d.comparator, candidate, d.value, p)
    ensures ConditionMatches(c, input, p) == ConditionMatches(d, input, p)
  {
    hide MatchesValue, Lower, Trim, EqualFold;
    KeywordFolds(Trim(c.field));
    KeywordFolds(Trim(d.field));
  }

  lemma {:induction false} SafeLeafMeans(c: Condition, wide: char -> bool, input: EvalInput, p: Patterns)
    requires c.group == None && CompileLeaf(c, wide).Ok? && SafeLeaf(c, wide)
    ensures ConditionMatches(ReprintedLeaf(c, wide), input, p) == ConditionMatches(c, input, p)
  {
    var d := ReprintedLeaf(c, wide);
    SafeLeafAlike(c, wide);
    hide MatchesValue, ConditionMatches, Trim, Lower, CompileLeaf, ReprintedLeaf, EqualFold, SafeLeaf;
    forall candidate
      ensures MatchesValue(c.comparator, candidate, c.value, p) == MatchesValue(d.comparator, candidate, d.value, p)
    {
      SameComparator(c.comparator, d.comparator, candidate, c.value, p);
      if d.value != c.value {
        ExistsIgnoresValue(d.comparator, candidate, c.value, d.value, p);
      }
    }
    LeavesAlike(c, d, input, p);
  }

  /** A reprinted safe leaf has the same normalized field and comparator, and its value unless that is
      ignored. */
  lemma {:induction false} SafeLeafAlike(c: Condition, wide: char -> bool)
    requires c.group == None && CompileLeaf(c, wide).Ok? && SafeLeaf(c, wide)
    ensures var d := ReprintedLeaf(c, wide);
            && d.group == None && d.negate == c.negate
            && Lower(Trim(d.field)) == Lower(Trim(c.field))
            && Lower(Trim(d.comparator)) == Lower(Trim(c.comparator))
            && (d.value == c.value || Lower(Trim(d.comparator)) == "exists")
  {
    hide Trim, Lower, Quotable, Reread, Concat, Quote, Fold, EqualFold;
    KnownTags();
    RereadExact(c.value, wide);
    KnownLeaf(c, wide);
    KnownFieldPlain(Lower(Trim(c.field)));
    if EqualFold(c.comparator, "exists") {
      ExistsTidy(c.comparator);
    }
  }

  lemma {:induction false} KnownTags()
    ensures forall tag :: tag in COMPARATOR_TAGS ==> Lower(Trim(tag)) == tag
    ensures Lower(Trim("exists")) == "exists"
  {
    hide Lower, Trim;
    forall tag | tag in COMPARATOR_TAGS
      ensures Lower(Trim(tag)) == tag
    {
      PlainTagWord(tag);
    }
    PlainField("exists");
  }

  lemma {:induction false} PlainTagWord(tag: string)
    requires tag in COMPARATOR_TAGS
    ensures Lower(Trim(tag)) == tag
  {
    assert AllLowerLetters(tag);
    PlainField(tag);
  }

  // ---------- A weight that quoting changes ----------

  /** Space counts for nothing, the two control characters with a one-letter escape that are no
      space for one, all others for two: escaping a character adds weight. */
  function CharWeight(c: char): nat {
    if IsSpace(c) then 0 else if c as int == 7 || c as int == 8 then 1 else 2
  }

  function Weight(s: string): nat {
    if s == "" then 0 else CharWeight(s[0]) + Weight(s[1..])
  }

  lemma {:induction false} WeightAppend(a: string, b: string)
    ensures Weight(a + b) == Weight(a) + Weight(b)
    decreases |a|
  {
    if a == "" {
      assert a + b == b;
    } else {
      assert (a + b)[1..] == a[1..] + b;
      WeightAppend(a[1..], b);
    }
  }

  lemma {:induction false} SpaceWeightless(s: string)
    requires AllSpace(s)
    ensures Weight(s) == 0
  {
    if s != "" {
      SpaceWeightless(s[1..]);
    }
  }

  lemma {:induction false} TrimWeight(s: string)
    ensures Weight(Trim(s)) == Weight(s)
  {
    var a := TrimLeftSplit(s);
    var b := TrimRightSplit(TrimLeft(s));
    WeightAppend(a, TrimLeft(s));
    WeightAppend(Trim(s), b);
    SpaceWeightless(a);
    SpaceWeightless(b);
  }

  lemma {:induction false} CaseWeight(s: string)
    ensures Weight(Lower(s)) == Weight(s) && Weight(Fold(s)) == Weight(s)
  {
    if s != "" {
      CaseWeight(s[1..]);
      assert Lower(s)[1..] == Lower(s[1..]) && Fold(s)[1..] == Fold(s[1..]);
    }
  }

  lemma {:induction false} HeavyWeight(s: string)
    requires forall i :: 0 <= i < |s| ==> CharWeight(s[i]) == 2
    ensures Weight(s) == 2 * |s|
  {
    if s != "" {
      HeavyWeight(s[1..]);
    }
  }

  lemma {:induction false} HexHeavy(n: nat, width: nat)
    ensures forall i :: 0 <= i < width ==> CharWeight(Hex(n, width)[i]) == 2
  {
    if width > 0 {
      HexHeavy(n / 16, width - 1);
    }
  }

  lemma {:induction false} EscapeGains(c: char, wide: char -> bool)
    requires !QuotableChar(c, wide)
    ensures Weight(EscapeTail(c)) > CharWeight(c)
  {
    var tail := EscapeTail(c);
    HexHeavy(c as int, 2);
    HexHeavy(c as int, 4);
    HexHeavy(c as int, 8);
    HeavyWeight(tail);
  }

  /** Rereading adds weight exactly when some character had to be escaped. */
  lemma {:induction false} RereadWeight(s: string, wide: char -> bool)
    ensures Weight(Reread(s, wide)) >= Weight(s)
    ensures Weight(Reread(s, wide)) == Weight(s) <==> Quotable(s, wide)
  {
    if s != "" {
      var head := if QuotableChar(s[0], wide) then [s[0]] else EscapeTail(s[0]);
      RereadWeight(s[1..], wide);
      WeightAppend(head, Reread(s[1..], wide));
      assert Quotable(s, wide) <==> QuotableChar(s[0], wide) && Quotable(s[1..], wide) by {
        assert forall i :: 0 < i < |s| ==> s[i] == s[1..][i - 1];
        assert forall i :: 0 <= i < |s[1..]| ==> s[1..][i] == s[i + 1];
      }
      if QuotableChar(s[0], wide) {
        assert head[1..] == "";
      } else {
        EscapeGains(s[0], wide);
      }
    }
  }

  lemma {:induction false} SubstringWeight(s: string, part: string)
    requires HasSubstring(s, part)
    ensures Weight(part) <= Weight(s)
  {
    var i :| 0 <= i <= |s| && part <= s[i..];
    assert s == s[..i] + (part + s[i..][|part|..]);
    WeightAppend(s[..i], part + s[i..][|part|..]);
    WeightAppend(part, s[i..][|part|..]);
  }

  // ---------- Separating messages ----------

  /** A message with the same text everywhere. */
  function Uniform(text: string): EvalInput {
    EvalInput(text, text, text, text, text, text, [text], "")
  }

  /** Patterns that match exactly when the pattern is `pattern`. */
  function OnlyPattern(pattern: string): Patterns {
    Patterns((a, b) => a == pattern, (a, b) => a == pattern)
  }

  lemma {:induction false} UniformMatches(c: Condition, text: string, p: Patterns)
    requires c.group == None
    requires Lower(Trim(c.field)) in {"from", "to", "cc", "bcc", "subject", "body", "keyword"}
    ensures ConditionMatches(c, Uniform(text), p) == (c.negate != MatchesValue(c.comparator, text, c.value, p))
  {
    hide MatchesValue, Lower, Trim, EqualFold;
    KeywordFolds(Trim(c.field));
    assert Uniform(text).keywords[0] == text;
  }

  lemma SelfSubstring(s: string)
    ensures HasSubstring(s, s)
  {
    assert s <= s[0..];
  }

  /** A value that cannot be quoted stops matching itself. */
  lemma {:induction false} UnquotableSeparates(tag: string, v: string, wide: char -> bool)
    requires tag in COMPARATOR_TAGS && !Quotable(v, wide)
    ensures MatchesValue(tag, v, v, OnlyPattern(v))
    ensures !MatchesValue(tag, v, Reread(v, wide), OnlyPattern(v))
  {
    var w := Reread(v, wide);
    KnownTags();
    hide Lower, Trim, Fold, Reread, Quotable, HasSubstring;
    RereadWeight(v, wide);
    SelfSubstring(Lower(v));
    TrimWeight(v);
    TrimWeight(w);
    CaseWeight(Trim(v));
    CaseWeight(Trim(w));
    CaseWeight(v);
    CaseWeight(w);
    if HasSubstring(Lower(v), Lower(w)) {
      SubstringWeight(Lower(v), Lower(w));
    }
  }

  function Xs(n: nat): string {
    seq(n, i => 'x')
  }

  lemma {:induction false} XsKept(v: string, n: nat)
    requires n > 0
    ensures var t := TrimLeft(v + Xs(n)); |t| >= n && !IsSpace(t[|t| - 1])
    decreases |v|
  {
    var s := v + Xs(n);
    if v == "" {
      assert s == Xs(n) && s[0] == 'x' && s[n - 1] == 'x';
    } else if IsSpace(v[0]) {
      assert s[1..] == v[1..] + Xs(n);
      XsKept(v[1..], n);
    } else {
      assert s[|s| - 1] == 'x';
    }
  }

  lemma {:induction false} XsKeepTrim(v: string, n: nat)
    requires n > 0
    ensures |Trim(v + Xs(n))| >= n
  {
    hide Xs, TrimLeft;
    XsKept(v, n);
  }

  lemma {:induction false} TrimShortens(s: string)
    ensures |Trim(s)| <= |s|
  {
    var a := TrimLeftSplit(s);
    var b := TrimRightSplit(TrimLeft(s));
    assert |s| == |a| + (|Trim(s)| + |b|);
  }

  lemma {:induction false} LongContains(comparator: string, v: string, n: nat, p: Patterns)
    requires Lower(Trim(comparator)) !in COMPARATOR_TAGS && n > 0
    ensures MatchesValue(comparator, v + Xs(n), v, p)
  {
    var text := v + Xs(n);
    XsKeepTrim(v, n);
    hide Trim, Xs, EqualFold;
    assert Trim(text) != "";
    assert Lower(v) <= Lower(text)[0..];
    assert HasSubstring(Lower(text), Lower(v));
  }

  lemma {:induction false} LongIsNot(v: string, w: string, p: Patterns)
    ensures !MatchesValue("is", v + Xs(|w| + 1), w, p)
  {
    var text := v + Xs(|w| + 1);
    XsKeepTrim(v, |w| + 1);
    TrimShortens(w);
    PlainField("is");
    hide Trim, Xs, Lower;
    assert |Fold(Trim(text))| > |Fold(Trim(w))|;
  }

  /** Text that is blank but contains the value, or the other way round. */
  function OddText(v: string): string {
    if v == "" then "" else if Lower(v) == "a" then "b" else "a"
  }

  lemma {:induction false} OddSeparates(comparator: string, v: string, p: Patterns)
    requires Lower(Trim(comparator)) !in COMPARATOR_TAGS && Lower(Trim(comparator)) != "exists"
    ensures MatchesValue(comparator, OddText(v), v, p) != MatchesValue("exists", OddText(v), "", p)
  {
    var text := OddText(v);
    KnownTags();
    assert AllLowerLetters(text);
    PlainField(text);
    assert |Lower(v)| == |v|;
    hide Trim, Lower;
    if v == "" {
      assert Lower(v) <= text[0..];
    } else {
      forall i | 0 <= i <= |text|
        ensures !(Lower(v) <= text[i..])
      {
        assert Lower(v) <= text[i..] ==> i == 0 && Lower(v) == text;
      }
    }
  }

  /** Text and patterns on which an unsafe leaf and its reprint disagree. */
  function Separator(c: Condition, wide: char -> bool): string {
    if Lower(Trim(c.comparator)) in COMPARATOR_TAGS then c.value
    else if Lower(Trim(c.field)) in HEADER_FIELDS && EqualFold(c.comparator, "exists") then OddText(c.value)
    else c.value + Xs(|Reread(c.value, wide)| + 1)
  }

  lemma {:induction false} UnsafeSeparated(c: Condition, wide: char -> bool)
    requires c.group == None && CompileLeaf(c, wide).Ok? && !SafeLeaf(c, wide)
    ensures var input, p := Uniform(Separator(c, wide)), OnlyPattern(c.value);
            ConditionMatches(ReprintedLeaf(c, wide), input, p) != ConditionMatches(c, input, p)
  {
    hide MatchesValue, ConditionMatches, Lower, Trim, EqualFold, CompileLeaf, Reread, Quotable, Xs, OddText;
    var d, text, p := ReprintedLeaf(c, wide), Separator(c, wide), OnlyPattern(c.value);
    var tag := Lower(Trim(c.comparator));
    KnownTags();
    KnownLeaf(c, wide);
    KnownFieldPlain(Lower(Trim(c.field)));
    UniformMatches(c, text, p);
    UniformMatches(d, text, p);
    if EqualFold(c.comparator, "exists") {
      ExistsTidy(c.comparator);
    }
    if tag in COMPARATOR_TAGS {
      UnquotableSeparates(tag, c.value, wide);
      SameComparator(c.comparator, tag, text, c.value, p);
    } else if Lower(Trim(c.field)) in HEADER_FIELDS && EqualFold(c.comparator, "exists") {
      OddSeparates(c.comparator, c.value, p);
    } else {
      LongContains(c.comparator, c.value, |Reread(c.value, wide)| + 1, p);
      LongIsNot(c.value, Reread(c.value, wide), p);
    }
  }

  ghost predicate ConditionsAlike(c: Condition, d: Condition) {
    forall input, p :: ConditionMatches(c, input, p) == ConditionMatches(d, input, p)
  }

  /** What comes back for a leaf means the same on all messages exactly when the leaf is safe. */
  lemma {:induction false} LeafMeaningExact(c: Condition, wide: char -> bool)
    requires c.group == None && CompileLeaf(c, wide).Ok?
    ensures ConditionsAlike(ReprintedLeaf(c, wide), c) <==> SafeLeaf(c, wide)
  {
    hide ConditionMatches, CompileLeaf, SafeLeaf, ReprintedLeaf;
    if SafeLeaf(c, wide) {
      forall input, p
        ensures ConditionMatches(ReprintedLeaf(c, wide), input, p) == ConditionMatches(c, input, p)
      {
        SafeLeafMeans(c, wide, input, p);
      }
    } else {
      UnsafeSeparated(c, wide);
    }
  }

  // ---------- Trees ----------

  lemma {:induction false} ReprintedConditionMeans(c: Condition, wide: char -> bool, input: EvalInput, p: Patterns)
    requires CompileCondition(c, wide).Ok? && SafeCondition(c, wide)
    ensures ConditionMatches(ReprintedCondition(c, wide), input, p) == ConditionMatches(c, input, p)
    decreases c, 1
  {
    hide SafeLeaf, CompileLeaf, ReprintedLeaf, GroupMatches, MatchesValue;
    if c.group.Some? {
      ReprintedGroupMeans(c.group.value, wide, input, p);
    } else {
      SafeLeafMeans(c, wide, input, p);
    }
  }

  lemma {:induction false} ReprintedGroupMeans(g: MatchGroup, wide: char -> bool, input: EvalInput, p: Patterns)
    requires CompileGroup(g, wide).Ok? && SafeGroup(g, wide)
    ensures GroupMatches(ReprintedGroup(g, wide), input, p) == GroupMatches(g, input, p)
    decreases g, 0
  {
    hide SafeCondition, ConditionMatches;
    PlainField("anyof");
    PlainField("allof");
    var cs, rs := g.conditions, ReprintedConditions(g.conditions, wide);
    forall i | 0 <= i < |cs|
      ensures ConditionMatches(rs[i], input, p) == ConditionMatches(cs[i], input, p)
    {
      ReprintedAt(cs, wide, i);
      CompiledAt(cs, wide, i);
      ReprintedConditionMeans(cs[i], wide, input, p);
    }
    hide Lower, Trim;
    GroupsAlike(g, ReprintedGroup(g, wide), input, p);
  }

  lemma {:induction false} CompiledAt(cs: seq<Condition>, wide: char -> bool, i: nat)
    requires i < |cs| && CompileConditions(cs, wide).Ok?
    ensures CompileCondition(cs[i], wide).Ok?
  {
    if i > 0 {
      CompiledAt(cs[1..], wide, i - 1);
    }
  }

  lemma {:induction false} GroupsAlike(g: MatchGroup, h: MatchGroup, input: EvalInput, p: Patterns)
    requires |g.conditions| == |h.conditions|
    requires Lower(Trim(g.op)) == "anyof" <==> Lower(Trim(h.op)) == "anyof"
    requires forall i :: 0 <= i < |g.conditions| ==>
               ConditionMatches(h.conditions[i], input, p) == ConditionMatches(g.conditions[i], input, p)
    ensures GroupMatches(h, input, p) == GroupMatches(g, input, p)
  {
    hide ConditionMatches, Lower, Trim;
  }

  ghost predicate Alike(g: MatchGroup, h: MatchGroup) {
    forall input, p :: GroupMatches(g, input, p) == GroupMatches(h, input, p)
  }

  /** The rule parsed back from the compiled text matches the same messages. */
  ghost predicate KeepsMeaning(r: Rule, existing: Rule, wide: char -> bool)
    requires CompileText(r, wide).Ok? && ParseText(CompileText(r, wide).value, existing).Ok?
  {
    Alike(ParseText(CompileText(r, wide).value, existing).value.match_, r.match_)
  }

  /** Compiling and parsing back preserves meaning: whenever the script is accepted, a rule whose
      leaves are safe matches the same messages afterwards, however its operators, fields and
      comparators were spelled. */
  lemma {:induction false} MeaningPreserved(r: Rule, existing: Rule, wide: char -> bool)
    requires CompileText(r, wide).Ok? && ParseText(CompileText(r, wide).value, existing).Ok?
    requires SafeGroup(r.match_, wide)
    ensures KeepsMeaning(r, existing, wide)
  {
    hide GroupMatches, ParseText, SafeGroup, CompileGroup, CompileActions, Readable;
    hide ReprintedGroup, ReprintedActions, RequireLine, Capabilities;
    ReparseExact(r, existing, wide);
    forall input, p
      ensures GroupMatches(ReprintedGroup(r.match_, wide), input, p) == GroupMatches(r.match_, input, p)
    {
      ReprintedGroupMeans(r.match_, wide, input, p);
    }
  }

  // ---------- The condition is exact ----------

  lemma {:induction false} LoneMatches(c: Condition, input: EvalInput, p: Patterns)
    ensures GroupMatches(MatchGroup("allof", [c]), input, p) == ConditionMatches(c, input, p)
  {
    hide ConditionMatches;
    PlainField("allof");
    var g := MatchGroup("allof", [c]);
    assert g.conditions[0] == c;
  }

  lemma {:induction false} LoneAlike(c: Condition, d: Condition)
    ensures Alike(MatchGroup("allof", [d]), MatchGroup("allof", [c])) <==> ConditionsAlike(d, c)
  {
    hide GroupMatches, ConditionMatches;
    var g, h := MatchGroup("allof", [d]), MatchGroup("allof", [c]);
    forall input, p
      ensures GroupMatches(g, input, p) == ConditionMatches(d, input, p)
      ensures GroupMatches(h, input, p) == ConditionMatches(c, input, p)
    {
      LoneMatches(d, input, p);
      LoneMatches(c, input, p);
    }
    if !ConditionsAlike(d, c) {
      var input, p :| ConditionMatches(d, input, p) != ConditionMatches(c, input, p);
      assert GroupMatches(g, input, p) != GroupMatches(h, input, p);
    }
  }

  /** The script of a rule of one leaf is accepted exactly when the comparator is tidy, and the rule then
      keeps its meaning exactly when the leaf is safe. */
  lemma {:induction false} LoneMeaningExact(c: Condition, existing: Rule, wide: char -> bool)
    requires c.group == None && CompileLeaf(c, wide).Ok?
    ensures CompileText(LoneRule(c), wide).Ok?
    ensures ParseText(CompileText(LoneRule(c), wide).value, existing).Ok? <==> Tidy(c.comparator)
    ensures Tidy(c.comparator) ==> (KeepsMeaning(LoneRule(c), existing, wide) <==> SafeLeaf(c, wide))
  {
    hide ConditionMatches, ParseText, CompileText, CompileLeaf, SafeLeaf, ReprintedLeaf, Tidy, Alike, ConditionsAlike;
    LoneReparse(c, existing, wide);
    LeafMeaningExact(c, wide);
    LoneAlike(c, ReprintedLeaf(c, wide));
  }

  /** Every leaf of the tree is one of `leaves`. */
  predicate DrawnFrom(g: MatchGroup, leaves: set<Condition>) {
    forall i :: 0 <= i < |g.conditions| ==>
      if g.conditions[i].group.Some? then DrawnFrom(g.conditions[i].group.value, leaves) else g.conditions[i] in leaves
  }

  /** The leaf can be part of a script that is accepted. */
  predicate Usable(c: Condition, wide: char -> bool) {
    c.group == None && CompileLeaf(c, wide).Ok? && Tidy(c.comparator)
  }

  lemma {:induction false} DrawnSafe(g: MatchGroup, leaves: set<Condition>, wide: char -> bool)
    requires CompileGroup(g, wide).Ok? && TidyGroup(g) && DrawnFrom(g, leaves)
    requires forall c :: c in leaves && Usable(c, wide) ==> SafeLeaf(c, wide)
    ensures SafeGroup(g, wide)
    decreases g
  {
    hide SafeLeaf, Tidy, CompileLeaf;
    forall i | 0 <= i < |g.conditions|
      ensures SafeCondition(g.conditions[i], wide)
    {
      var c := g.conditions[i];
      CompiledAt(g.conditions, wide, i);
      assert TidyCondition(c);
      if c.group.Some? {
        DrawnSafe(c.group.value, leaves, wide);
      } else {
        assert c in leaves && Usable(c, wide);
      }
    }
  }

  /** Whatever leaves are given, all accepted rules built from them keep their meaning exactly when
      every usable one of the leaves is safe. */
  lemma {:induction false} SafeLeavesExact(leaves: set<Condition>, wide: char -> bool)
    ensures (forall r: Rule, existing: Rule ::
               DrawnFrom(r.match_, leaves) && CompileText(r, wide).Ok?
               && ParseText(CompileText(r, wide).value, existing).Ok?
               ==> KeepsMeaning(r, existing, wide))
       <==> forall c :: c in leaves && Usable(c, wide) ==> SafeLeaf(c, wide)
  {
    hide SafeLeaf, CompileLeaf, Tidy, CompileGroup, CompileActions, ParseText, KeepsMeaning, DrawnFrom, TidyGroup;
    hide Populated, PrintedDepth, ReprintedGroup, ReprintedActions, RequireLine, Capabilities;
    if forall c :: c in leaves && Usable(c, wide) ==> SafeLeaf(c, wide) {
      forall r: Rule, existing: Rule | DrawnFrom(r.match_, leaves) && CompileText(r, wide).Ok?
                                       && ParseText(CompileText(r, wide).value, existing).Ok?
        ensures KeepsMeaning(r, existing, wide)
      {
        ReparseExact(r, existing, wide);
        DrawnSafe(r.match_, leaves, wide);
        MeaningPreserved(r, existing, wide);
      }
    }
    forall c | c in leaves && Usable(c, wide) && !SafeLeaf(c, wide)
      ensures exists r: Rule, existing: Rule ::
                && DrawnFrom(r.match_, leaves) && CompileText(r, wide).Ok?
                && ParseText(CompileText(r, wide).value, existing).Ok? && !KeepsMeaning(r, existing, wide)
    {
      LoneDrawn(c, leaves);
      LoneMeaningExact(c, LoneRule(c), wide);
    }
  }

  lemma LoneDrawn(c: Condition, leaves: set<Condition>)
    requires c in leaves && c.group == None
    ensures DrawnFrom(LoneRule(c).match_, leaves)
  {
  }

  lemma {:induction false} MissingReprinted(value: string, wide: char -> bool)
    ensures var c := Leaf("subject", "", value);
            && CompileLeaf(c, wide).Ok? && Tidy("") && ReprintedLeaf(c, wide) == Leaf("subject", "is", Reread(value, wide))
  {
    hide Concat, Quote;
    PlainField("subject");
    PlainField("exists");
    assert Trim("") == "" && Lower("") == "" && Fold("") == "";
  }

  lemma {:induction false} MissingSeparates(value: string, w: string, p: Patterns)
    ensures var input := Uniform(value + Xs(|w| + 1));
            ConditionMatches(Leaf("subject", "", value), input, p) && !ConditionMatches(Leaf("subject", "is", w), input, p)
  {
    var text := value + Xs(|w| + 1);
    hide MatchesValue, ConditionMatches, Xs, Trim;
    KnownFieldPlain("subject");
    MissingTag();
    LongContains("", value, |w| + 1, p);
    LongIsNot(value, w, p);
    UniformMatches(Leaf("subject", "", value), text, p);
    UniformMatches(Leaf("subject", "is", w), text, p);
  }

  lemma MissingTag()
    ensures Lower(Trim("")) !in COMPARATOR_TAGS
  {
    assert Trim("") == "" && |Lower("")| == 0;
  }

  /** A missing comparator is `contains` to the engine and `is` to the compiler: the rule parsed back
      from the script no longer matches a message the rule matches. */
  lemma {:induction false} MissingComparatorChangesMeaning(value: string, existing: Rule, p: Patterns, wide: char -> bool)
    ensures var r := LoneRule(Leaf("subject", "", value));
            var input := Uniform(value + Xs(|Reread(value, wide)| + 1));
            && CompileText(r, wide).Ok? && ParseText(CompileText(r, wide).value, existing).Ok?
            && GroupMatches(r.match_, input, p)
            && !GroupMatches(ParseText(CompileText(r, wide).value, existing).value.match_, input, p)
  {
    hide GroupMatches, ConditionMatches, ParseText, CompileText, CompileLeaf, ReprintedLeaf, Tidy, Reread, Xs, Uniform;
    var c, w := Leaf("subject", "", value), Reread(value, wide);
    var input := Uniform(value + Xs(|w| + 1));
    MissingReprinted(value, wide);
    LoneReparse(c, existing, wide);
    LoneMatches(c, input, p);
    LoneMatches(Leaf("subject", "is", w), input, p);
    MissingSeparates(value, w, p);
  }
}
