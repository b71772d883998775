/** Evaluating match trees and rule lists against a message. */
module RulesEngine {
  import opened Text
  import opened RuleModel
  import opened Sorting

  datatype EvalInput = EvalInput(
    from: string,
    to: string,
    cc: string,
    bcc: string,
    subject: string,
    body: string,
    keywords: seq<string>,
    folder: string)

  /** The regexp library: does a pattern match a candidate?  `wildcard` is the compiled glob of
      the `matches` comparator, `regex` the raw one; an invalid pattern matches nothing. */
  datatype Patterns = Patterns(
    wildcard: (string, string) -> bool,
    regex: (string, string) -> bool)

  datatype Outcome = Outcome(matched: seq<string>, applied: seq<Action>, stopped: bool)

  /** strings.Contains */
  predicate HasSubstring(s: string, part: string) {
    exists i :: 0 <= i <= |s| && part <= s[i..]
  }

  predicate MatchesValue(comparator: string, candidate: string, value: string, p: Patterns) {
    match Lower(Trim(comparator))
    case "exists" => Trim(candidate) != ""
    case "is" => EqualFold(Trim(candidate), Trim(value))
    case "matches" => p.wildcard(value, candidate)
    case "regex" => p.regex(value, candidate)
    case _ => HasSubstring(Lower(candidate), Lower(value))
  }

  function FieldValue(input: EvalInput, field: string): string {
    match Lower(Trim(field))
    case "from" => input.from
    case "to" => input.to
    case "cc" => input.cc
    case "bcc" => input.bcc
    case "subject" => input.subject
    case "body" => input.body
    case _ => ""
  }

  predicate GroupMatches(g: MatchGroup, input: EvalInput, p: Patterns) {
    if Lower(Trim(g.op)) == "anyof" then
      exists i :: 0 <= i < |g.conditions| && ConditionMatches(g.conditions[i], input, p)
    else
      forall i :: 0 <= i < |g.conditions| ==> ConditionMatches(g.conditions[i], input, p)
  }

  predicate ConditionMatches(c: Condition, input: EvalInput, p: Patterns) {
    var result :=
      if c.group.Some? then GroupMatches(c.group.value, input, p)
      else if EqualFold(Trim(c.field), "keyword") then
        exists i :: 0 <= i < |input.keywords| && MatchesValue(c.comparator, input.keywords[i], c.value, p)
      else MatchesValue(c.comparator, FieldValue(input, c.field), c.value, p);
    if c.negate then !result else result
  }

  predicate FolderInScope(scope: RuleScope, folder: string) {
    || scope.folders == []
    || exists i :: 0 <= i < |scope.folders| && EqualFold(Trim(scope.folders[i]), Trim(folder))
  }

  predicate Fires(r: Rule, input: EvalInput, p: Patterns) {
    r.enabled && FolderInScope(r.scope, input.folder) && GroupMatches(r.match_, input, p)
  }

  predicate Stops(r: Rule) {
    exists i :: 0 <= i < |r.actions| && r.actions[i].kind == "stop"
  }

  // ---------- What an evaluation means ----------

  function ByOrder(a: Rule, b: Rule): bool {
    a.order < b.order
  }

  /** The rules that fire, in their given order. */
  function Firing(rules: seq<Rule>, input: EvalInput, p: Patterns): seq<Rule> {
    if rules == [] then []
    else (if Fires(rules[0], input, p) then [rules[0]] else []) + Firing(rules[1..], input, p)
  }

  /** The prefix up to and including the first rule that stops the walk. */
  function UpToStop(rules: seq<Rule>): seq<Rule> {
    if rules == [] then []
    else if Stops(rules[0]) then [rules[0]]
    else [rules[0]] + UpToStop(rules[1..])
  }

  function Names(rules: seq<Rule>): seq<string> {
    seq(|rules|, i requires 0 <= i < |rules| => rules[i].name)
  }

  function AllActions(rules: seq<Rule>): seq<Action> {
    if rules == [] then [] else rules[0].actions + AllActions(rules[1..])
  }

  predicate AnyStops(rules: seq<Rule>) {
    exists i :: 0 <= i < |rules| && Stops(rules[i])
  }

  function OutcomeOf(rules: seq<Rule>): Outcome {
    Outcome(Names(rules), AllActions(rules), AnyStops(rules))
  }

  /** The outcome the engine promises: the firing rules in stable Order, cut after the first stop. */
  function Evaluation(input: EvalInput, rules: seq<Rule>, p: Patterns): Outcome {
    OutcomeOf(UpToStop(Firing(Sort(ByOrder, rules), input, p)))
  }

  /** The walk past the first of `rules`, for a rule that fires and for one that does not. */
  lemma {:induction false} WalkStep(rules: seq<Rule>, input: EvalInput, p: Patterns)
    requires rules != []
    ensures var rest := UpToStop(Firing(rules[1..], input, p));
            UpToStop(Firing(rules, input, p))
            == if !Fires(rules[0], input, p) then rest else if Stops(rules[0]) then [rules[0]] else [rules[0]] + rest
  {
    hide Fires, Stops;
    var more := Firing(rules[1..], input, p);
    assert [] + more == more && ([rules[0]] + more)[1..] == more;
  }

  method Evaluate(input: EvalInput, activeRules: seq<Rule>, p: Patterns) returns (outcome: Outcome)
    ensures outcome == Evaluation(input, activeRules, p)
  {
    hide Sort, Firing, UpToStop, GroupMatches, FolderInScope, OutcomeOf;
    var sorted := Sort(ByOrder, activeRules);
    ghost var kept: seq<Rule> := [];
    ghost var all := UpToStop(Firing(sorted, input, p));
    outcome := Outcome([], [], false);
    NothingYet();
    assert sorted[0..] == sorted && [] + all == all;
    for k := 0 to |sorted|
      invariant all == kept + UpToStop(Firing(sorted[k..], input, p))
      invariant outcome == OutcomeOf(kept) && !outcome.stopped
    {
      var r := sorted[k];
      assert sorted[k..][1..] == sorted[k + 1..] && sorted[k..][0] == r;
      WalkStep(sorted[k..], input, p);
      if r.enabled && FolderInScope(r.scope, input.folder) && GroupMatches(r.match_, input, p) {
        AppendRule(kept, r);
        var stopped := false;
        for j := 0 to |r.actions|
          invariant stopped <==> exists i :: 0 <= i < j && r.actions[i].kind == "stop"
        {
          if r.actions[j].kind == "stop" {
            stopped := true;
          }
        }
        assert Fires(r, input, p) && (stopped <==> Stops(r));
        outcome := Outcome(outcome.matched + [r.name], outcome.applied + r.actions, stopped);
        kept := kept + [r];
        if outcome.stopped {
          return;
        }
      }
    }
    NothingLeft(input, p);
    assert sorted[|sorted|..] == [] && kept + [] == kept;
  }

  lemma NothingYet()
    ensures OutcomeOf([]) == Outcome([], [], false)
  {
  }

  lemma NothingLeft(input: EvalInput, p: Patterns)
    ensures UpToStop(Firing([], input, p)) == []
  {
  }

  lemma AppendRule(rules: seq<Rule>, r: Rule)
    ensures var o := OutcomeOf(rules);
            OutcomeOf(rules + [r]) == Outcome(o.matched + [r.name], o.applied + r.actions, o.stopped || Stops(r))
  {
    AllActionsAppend(rules, r);
    assert Names(rules + [r]) == Names(rules) + [r.name];
    assert (rules + [r])[|rules|] == r;
    forall i | 0 <= i < |rules|
      ensures (rules + [r])[i] == rules[i]
    {
    }
  }

  lemma AllActionsAppend(rules: seq<Rule>, r: Rule)
    ensures AllActions(rules + [r]) == AllActions(rules) + r.actions
  {
    if rules == [] {
      assert [] + [r] == [r];
    } else {
      assert (rules + [r])[1..] == rules[1..] + [r];
      AllActionsAppend(rules[1..], r);
    }
  }

  /** The rules of one Order value, as listed. */
  function WithOrder(rules: seq<Rule>, order: int): seq<Rule> {
    if rules == [] then []
    else (if rules[0].order == order then [rules[0]] else []) + WithOrder(rules[1..], order)
  }

  lemma {:induction false} OrderPeers(rules: seq<Rule>, z: Rule)
    ensures Peers(ByOrder, z, rules) == WithOrder(rules, z.order)
    decreases |rules|
  {
    if rules != [] {
      OrderPeers(rules[1..], z);
    }
  }

  /** Two listings evaluate alike on every message if the rules of each Order value come in the same order
      in both, however those of different Orders are mixed. */
  lemma {:induction false} EvaluationIgnoresListing(input: EvalInput, a: seq<Rule>, b: seq<Rule>, p: Patterns)
    requires forall order :: WithOrder(a, order) == WithOrder(b, order)
    ensures Evaluation(input, a, p) == Evaluation(input, b, p)
  {
    forall z
      ensures Peers(ByOrder, z, a) == Peers(ByOrder, z, b)
    {
      OrderPeers(a, z);
      OrderPeers(b, z);
    }
    SortSameExact(ByOrder, a, b);
  }

  ghost predicate DistinctOrders(rules: seq<Rule>) {
    forall i, j :: 0 <= i < j < |rules| ==> rules[i].order != rules[j].order
  }

  /** With distinct Orders the outcome is the same for every permutation of the rules. */
  lemma {:induction false} DistinctOrdersPermute(input: EvalInput, a: seq<Rule>, b: seq<Rule>, p: Patterns)
    requires DistinctOrders(a) && multiset(a) == multiset(b)
    ensures Evaluation(input, a, p) == Evaluation(input, b, p)
  {
    SortForgetsArrival(ByOrder, a, b);
  }

  /** The evaluated rules are exactly the firing ones that no earlier firing rule cut off. */
  lemma {:induction false} UpToStopExact(rules: seq<Rule>)
    ensures UpToStop(rules) <= rules
    ensures forall i :: 0 <= i < |UpToStop(rules)| - 1 ==> !Stops(rules[i])
    ensures |UpToStop(rules)| < |rules| ==> UpToStop(rules) != [] && Stops(rules[|UpToStop(rules)| - 1])
  {
    if rules != [] && !Stops(rules[0]) {
      UpToStopExact(rules[1..]);
      assert rules == [rules[0]] + rules[1..];
    }
  }
}
