/** Filter rules: a match tree and an ordered list of actions. */
module RuleModel {
  import opened Wrappers

  datatype RuleScope = RuleScope(folders: seq<string>)

  datatype MatchGroup = MatchGroup(op: string, conditions: seq<Condition>)

  /** One leaf test, or (when `group` is present) a nested group whose leaf fields are ignored. */
  datatype Condition = Condition(
    negate: bool,
    group: Option<MatchGroup>,
    field: string,
    comparator: string,
    value: string)

  /** The parameter is called `kind` because `type` is reserved. */
  datatype Action = Action(kind: string, value: string)

  datatype Rule = Rule(
    id: string,
    name: string,
    enabled: bool,
    order: int,
    scope: RuleScope,
    match_: MatchGroup,
    actions: seq<Action>,
    rev: int)

  const HEADER_FIELDS: set<string> := {"from", "to", "cc", "bcc", "subject"}

  const COMPARATOR_TAGS: set<string> := {"contains", "is", "matches", "regex"}

  function Leaf(field: string, comparator: string, value: string): Condition {
    Condition(false, None, field, comparator, value)
  }

  function GroupCondition(group: MatchGroup): Condition {
    Condition(false, Some(group), "", "", "")
  }
}
