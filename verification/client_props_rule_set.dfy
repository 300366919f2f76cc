/**
 * The record the client-property rule selection hands back: the fake
 * User-Agent of the selected group, if it has one, and the group's property
 * overrides. Its two fields are read-only once built, and its getters are the
 * datatype's field selectors.
 */
module ClientPropsRuleSet {
  import opened Wrappers
  import opened Schema

  datatype RuleSet = RuleSet(userAgent: Option<string>, ruleSet: seq<ClientRule>)

  /** The record built for a matching group carries that group's User-Agent and override list. */
  function FromGroup(g: ClientGroup): (r: RuleSet)
    ensures r.userAgent == g.ua && r.ruleSet == g.rules
  {
    RuleSet(g.ua, g.rules)
  }
}
