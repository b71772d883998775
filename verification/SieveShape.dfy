/** The bounds on the shape of match trees: the check both entry points share, and what the parser
    lets through. */
module SieveShape {
  import opened Wrappers
  import opened RuleModel
  import opened SieveLexer
  import opened SieveParser
  import opened SieveGrammar
  import opened SieveScripts

  // ---------- The check ----------

  const MAX_MATCH_CONDITIONS: nat := 300

  datatype ShapeError = TooDeep | TooManyConditions

  function ValidateGroup(g: MatchGroup, depth: nat, count: nat): Result<nat, ShapeError>
    decreases g, 0
  {
    if depth > MAX_TEST_NESTING_DEPTH then Err(TooDeep) else ValidateConditions(g.conditions, depth, count)
  }

  function ValidateConditions(cs: seq<Condition>, depth: nat, count: nat): Result<nat, ShapeError>
    decreases cs, 1
  {
    if cs == [] then Ok(count)
    else if cs[0].group.Some? then
      match ValidateGroup(cs[0].group.value, depth + 1, count)
      case Err(e) => Err(e)
      case Ok(n) => ValidateConditions(cs[1..], depth, n)
    else if count + 1 > MAX_MATCH_CONDITIONS then Err(TooManyConditions)
    else ValidateConditions(cs[1..], depth, count + 1)
  }

  /** The one traversal that checks both bounds; it stops at the first violation. */
  function ValidateMatchShape(m: MatchGroup): Result<nat, ShapeError> {
    ValidateGroup(m, 1, 0)
  }

  function GroupDepth(g: MatchGroup): nat {
    1 + GroupDepths(g.conditions)
  }

  function GroupDepths(cs: seq<Condition>): nat {
    if cs == [] then 0
    else
      var a := if cs[0].group.Some? then GroupDepth(cs[0].group.value) else 0;
      var b := GroupDepths(cs[1..]);
      if a > b then a else b
  }

  function LeafCount(g: MatchGroup): nat {
    LeafCounts(g.conditions)
  }

  function LeafCounts(cs: seq<Condition>): nat {
    if cs == [] then 0
    else (if cs[0].group.Some? then LeafCount(cs[0].group.value) else 1) + LeafCounts(cs[1..])
  }

  lemma {:induction false} ValidateGroupExact(g: MatchGroup, depth: nat, count: nat)
    requires depth >= 1 && count <= MAX_MATCH_CONDITIONS
    ensures ValidateGroup(g, depth, count).Ok?
       <==> depth - 1 + GroupDepth(g) <= MAX_TEST_NESTING_DEPTH && count + LeafCount(g) <= MAX_MATCH_CONDITIONS
    ensures ValidateGroup(g, depth, count).Ok? ==> ValidateGroup(g, depth, count).value == count + LeafCount(g)
    decreases g, 0
  {
    if depth <= MAX_TEST_NESTING_DEPTH {
      ValidateConditionsExact(g.conditions, depth, count);
    }
  }

  lemma {:induction false} ValidateConditionsExact(cs: seq<Condition>, depth: nat, count: nat)
    requires 1 <= depth <= MAX_TEST_NESTING_DEPTH && count <= MAX_MATCH_CONDITIONS
    ensures ValidateConditions(cs, depth, count).Ok?
       <==> depth + GroupDepths(cs) <= MAX_TEST_NESTING_DEPTH && count + LeafCounts(cs) <= MAX_MATCH_CONDITIONS
    ensures ValidateConditions(cs, depth, count).Ok? ==> ValidateConditions(cs, depth, count).value == count + LeafCounts(cs)
    decreases cs, 1
  {
    if cs != [] {
      if cs[0].group.Some? {
        ValidateGroupExact(cs[0].group.value, depth + 1, count);
        if ValidateGroup(cs[0].group.value, depth + 1, count).Ok? {
          ValidateConditionsExact(cs[1..], depth, count + LeafCount(cs[0].group.value));
        }
      } else if count < MAX_MATCH_CONDITIONS {
        ValidateConditionsExact(cs[1..], depth, count + 1);
      }
    }
  }

  /** The traversal accepts exactly the trees of group depth at most 32 with at most 300 leaves. */
  lemma {:induction false} ValidateExact(m: MatchGroup)
    ensures ValidateMatchShape(m).Ok?
       <==> GroupDepth(m) <= MAX_TEST_NESTING_DEPTH && LeafCount(m) <= MAX_MATCH_CONDITIONS
  {
    ValidateGroupExact(m, 1, 0);
  }

  // ---------- What the parser lets through ----------

  /** The group levels of the tree a test denotes: `not` adds none, a list of several fields adds one. */
  function Levels(t: Test): nat {
    match t
    case Not(_, inner) => Levels(inner)
    case Group(_, tests) => 1 + LevelsAll(tests)
    case Header(_, _, fields, _) => if |fields.items| == 1 then 0 else 1
    case Exists(_, fields) => if |fields.items| == 1 then 0 else 1
    case _ => 0
  }

  function LevelsAll(tests: seq<Test>): nat {
    if tests == [] then 0
    else
      var a, b := Levels(tests[0]), LevelsAll(tests[1..]);
      if a > b then a else b
  }

  /** The leaves of the tree a test denotes: one for every listed field. */
  function LeafTests(t: Test): nat {
    match t
    case Not(_, inner) => LeafTests(inner)
    case Group(_, tests) => LeafTestsAll(tests)
    case Header(_, _, fields, _) => |fields.items|
    case Exists(_, fields) => |fields.items|
    case _ => 1
  }

  function LeafTestsAll(tests: seq<Test>): nat {
    if tests == [] then 0 else LeafTests(tests[0]) + LeafTestsAll(tests[1..])
  }

  function ConditionLevels(c: Condition): nat {
    if c.group.Some? then GroupDepth(c.group.value) else 0
  }

  function ConditionLeaves(c: Condition): nat {
    if c.group.Some? then LeafCount(c.group.value) else 1
  }

  lemma {:induction false} DenotedShape(t: Test)
    ensures ConditionLevels(Denote(t)) == Levels(t) && ConditionLeaves(Denote(t)) == LeafTests(t)
    decreases t, 1
  {
    match t {
      case Not(_, inner) => DenotedShape(inner);
      case Group(_, tests) => DenotedShapes(tests);
      case Header(_, tag, fields, value) => FieldsFlat(fields.items, TagOr(tag, "is"), value);
      case Exists(_, fields) => FieldsFlat(fields.items, "exists", "");
      case _ =>
    }
  }

  lemma {:induction false} DenotedShapes(tests: seq<Test>)
    ensures GroupDepths(DenoteAll(tests)) == LevelsAll(tests) && LeafCounts(DenoteAll(tests)) == LeafTestsAll(tests)
    decreases tests, 0
  {
    if tests != [] {
      DenotedShape(tests[0]);
      DenotedShapes(tests[1..]);
    }
  }

  lemma {:induction false} FieldsFlat(fields: seq<string>, comparator: string, value: string)
    ensures var c := FieldsToCondition(fields, comparator, value);
            ConditionLevels(c) == (if |fields| == 1 then 0 else 1) && ConditionLeaves(c) == |fields|
  {
    if |fields| != 1 {
      NoGroups(FieldsToCondition(fields, comparator, value).group.value.conditions);
    }
  }

  lemma {:induction false} NoGroups(cs: seq<Condition>)
    requires forall i :: 0 <= i < |cs| ==> cs[i].group == None
    ensures GroupDepths(cs) == 0 && LeafCounts(cs) == |cs|
  {
    if cs != [] {
      NoGroups(cs[1..]);
    }
  }

  lemma {:induction false} LevelsBound(t: Test)
    ensures Levels(t) <= Depth(t) + 1
    decreases t, 1
  {
    match t {
      case Not(_, inner) => LevelsBound(inner);
      case Group(_, tests) => LevelsAllBound(tests);
      case _ =>
    }
  }

  lemma {:induction false} LevelsAllBound(tests: seq<Test>)
    ensures LevelsAll(tests) <= DepthAll(tests) + 1
    decreases tests, 0
  {
    if tests != [] {
      LevelsBound(tests[0]);
      LevelsAllBound(tests[1..]);
    }
  }

  lemma {:induction false} RootShaped(t: Test)
    ensures GroupDepth(RootMatch(Denote(t))) == if Levels(t) == 0 then 1 else Levels(t)
    ensures LeafCount(RootMatch(Denote(t))) == LeafTests(t)
  {
    DenotedShape(t);
    var root := Denote(t);
    if root.group == None {
      NoGroups([root]);
    }
  }

  /** Every accepted script yields a tree of group depth at most 33. */
  lemma {:induction false} ParsedDepth(text: string, existing: Rule)
    requires ParseText(text, existing).Ok?
    ensures GroupDepth(ParseText(text, existing).value.match_) <= MAX_TEST_NESTING_DEPTH + 1
  {
    hide Lex, At, SpellScript, ParseScript, ScriptOk, BodyActions;
    var s := RecoverScript(Lex(text, 0).value);
    LevelsBound(s.test);
    RootShaped(s.test);
  }

  /** The shape check passes what the parser makes of an accepted script exactly when the script's groups,
      counted without `not` and with one more for a test of several fields, nest at most 32 deep and
      its tests list at most 300 leaves. */
  lemma {:induction false} ParsedValidExact(text: string, existing: Rule, s: Script)
    requires ScriptOk(s) && Accepts(s.test, 0) && Spells(text, s)
    ensures ParseText(text, existing).Ok?
    ensures ValidateMatchShape(ParseText(text, existing).value.match_).Ok?
       <==> Levels(s.test) <= MAX_TEST_NESTING_DEPTH && LeafTests(s.test) <= MAX_MATCH_CONDITIONS
  {
    hide ParseText, StatementOk, RequireOk, WellSpelled, Spells, Accepts, ValidateMatchShape, Denote, BodyActions;
    ParseTextExact(text, existing, existing.(match_ := RootMatch(Denote(s.test)), actions := BodyActions(s.body)));
    RootShaped(s.test);
    ValidateExact(RootMatch(Denote(s.test)));
  }
}
