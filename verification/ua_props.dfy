/**
 * The User-Agent rule extractor (the `uar` branch). After the tree walk, it
 * reads further properties straight out of the User-Agent. It does this in
 * two steps:
 *
 * 1. It chooses the rules to run. It first tries the groups whose property
 *    matcher agrees with the walk result, refining by regex when a group has
 *    several rule sets. It then adds the rules of the first group whose
 *    search regex matches.
 * 2. It runs those rules in order. The last rule that produces a value for a
 *    name wins.
 */
module UaProps {
  import opened Wrappers
  import opened Php
  import opened Pcre
  import opened Schema
  import opened PropsHandler

  /** The regex table chosen at construction: the one for API id 1 if the branch has it, else the default set `d`. */
  function Regexes(u: UaRules): (r: map<int, string>)
    ensures "1" in u.regexes ==> r == u.regexes["1"]
    ensures "1" !in u.regexes && "d" in u.regexes ==> r == u.regexes["d"]
    ensures "1" !in u.regexes && "d" !in u.regexes ==> r == map[]
  {
    if "1" in u.regexes then u.regexes["1"]
    else if "d" in u.regexes then u.regexes["d"]
    else map[]
  }

  /** Everything one extraction run reads besides the rules themselves. */
  datatype Run = Run(e: Engine, t: Tree, u: UaRules, ua: string, sought: Option<set<int>>, typed: bool)

  /** `preg_match($this->regexes[$id], $ua)` succeeded; a missing pattern is an empty regex, which never matches. */
  predicate RegexMatches(run: Run, id: int) {
    id in Regexes(run.u) && run.e.matches(Regexes(run.u)[id], run.ua)
  }

  // ----------------------------------------------------------------------------
  // Skip check

  /**
   * `_skipUaRules`: some skip id was found by the walk and its raw value is
   * truthy (for instance `isBot` is true).
   */
  function SkipUaRules(t: Tree, skipIds: seq<int>, idProps: map<int, int>): (r: bool)
    ensures r <==> exists k :: 0 <= k < |skipIds| && skipIds[k] in idProps && ToBool(RawValue(t, idProps[skipIds[k]]))
  {
    if |skipIds| == 0 then false
    else if skipIds[0] in idProps && ToBool(RawValue(t, idProps[skipIds[0]])) then true
    else
      var r := SkipUaRules(t, skipIds[1..], idProps);
      assert r ==> exists k :: 0 <= k < |skipIds| && skipIds[k] in idProps && ToBool(RawValue(t, idProps[skipIds[k]])) by {
        if r {
          var k :| 0 <= k < |skipIds[1..]| && skipIds[1..][k] in idProps && ToBool(RawValue(t, idProps[skipIds[1..][k]]));
          assert skipIds[k + 1] == skipIds[1..][k];
        }
      }
      assert (exists k :: 0 <= k < |skipIds| && skipIds[k] in idProps && ToBool(RawValue(t, idProps[skipIds[k]]))) ==> r by {
        if exists k :: 0 <= k < |skipIds| && skipIds[k] in idProps && ToBool(RawValue(t, idProps[skipIds[k]])) {
          var k :| 0 <= k < |skipIds| && skipIds[k] in idProps && ToBool(RawValue(t, idProps[skipIds[k]]));
          assert k != 0;
          assert skipIds[1..][k - 1] == skipIds[k];
        }
      }
      r
  }

  // ----------------------------------------------------------------------------
  // Step 1: choosing the rules

  /** One matcher pair holds: the walk found the property with exactly the expected value id. */
  predicate PairHolds(pair: (int, int), idProps: map<int, int>) {
    pair.0 in idProps && idProps[pair.0] == pair.1
  }

  /** The matcher loop, `matched` being the flag it carries: set by each agreeing pair, the loop left at the first disagreeing one. */
  function MatchFrom(m: seq<(int, int)>, idProps: map<int, int>, matched: bool): (r: bool)
    ensures |m| == 0 ==> r == matched
    ensures |m| > 0 ==> (r <==> forall k :: 0 <= k < |m| ==> PairHolds(m[k], idProps))
  {
    if |m| == 0 then matched
    else if PairHolds(m[0], idProps) then
      var r := MatchFrom(m[1..], idProps, true);
      assert (forall k :: 0 <= k < |m| ==> PairHolds(m[k], idProps)) <==> PairHolds(m[0], idProps) && forall k :: 0 <= k < |m[1..]| ==> PairHolds(m[1..][k], idProps) by {
        if forall k :: 0 <= k < |m[1..]| ==> PairHolds(m[1..][k], idProps) {
          forall k | 0 <= k < |m| ensures PairHolds(m[k], idProps) {
            if k > 0 {
              assert m[k] == m[1..][k - 1];
            }
          }
        }
      }
      r
    else false
  }

  /**
   * `_checkPropertiesMatch`: every pair of the matcher was found with the
   * expected value id; an empty matcher never matches.
   */
  function CheckPropertiesMatch(m: seq<(int, int)>, idProps: map<int, int>): (r: bool)
    ensures r <==> |m| > 0 && forall k :: 0 <= k < |m| ==> PairHolds(m[k], idProps)
  {
    MatchFrom(m, idProps, false)
  }

  /** Which regex of a rule set `_findRulesToRunByRegex` consults. */
  datatype RegexKind = Refine | Search

  /** The rule set has a regex of the given kind and it matches the User-Agent. */
  predicate SetFires(run: Run, s: UaRuleSet, kind: RegexKind) {
    var id := if kind == Refine then s.refine else s.search;
    id.Some? && RegexMatches(run, id.value)
  }

  /** `_findRulesToRunByRegex`: the rules of the first set whose regex of the given kind matches; none if no set's does. */
  function FindRulesToRunByRegex(run: Run, sets: seq<UaRuleSet>, kind: RegexKind): (r: Option<seq<UaRule>>)
    ensures r.None? <==> forall i :: 0 <= i < |sets| ==> !SetFires(run, sets[i], kind)
    ensures r.Some? ==> exists i :: (0 <= i < |sets| && SetFires(run, sets[i], kind) && r.value == sets[i].rules &&
      forall j :: 0 <= j < i ==> !SetFires(run, sets[j], kind))
  {
    if |sets| == 0 then None
    else if SetFires(run, sets[0], kind) then Some(sets[0].rules)
    else
      var r := FindRulesToRunByRegex(run, sets[1..], kind);
      assert r.None? ==> forall i :: 0 <= i < |sets| ==> !SetFires(run, sets[i], kind) by {
        if r.None? {
          forall i | 0 <= i < |sets| ensures !SetFires(run, sets[i], kind) {
            if i > 0 {
              assert sets[i] == sets[1..][i - 1];
            }
          }
        }
      }
      assert r.Some? ==> exists i :: (0 <= i < |sets| && SetFires(run, sets[i], kind) && r.value == sets[i].rules &&
          forall j :: 0 <= j < i ==> !SetFires(run, sets[j], kind)) by {
        if r.Some? {
          var i :| 0 <= i < |sets[1..]| && SetFires(run, sets[1..][i], kind) && r.value == sets[1..][i].rules &&
            forall j :: 0 <= j < i ==> !SetFires(run, sets[1..][j], kind);
          assert sets[i + 1] == sets[1..][i];
          forall j | 0 <= j < i + 1 ensures !SetFires(run, sets[j], kind) {
            if j > 0 {
              assert sets[j] == sets[1..][j - 1];
            }
          }
        }
      }
      r
  }

  /**
   * The rules one group contributes in step 1. A group without a matcher, or
   * whose matcher does not hold, contributes nothing. With two or more rule
   * sets the first set whose refine regex matches is taken, possibly none.
   * With exactly one set, that set is taken.
   */
  function GroupRules(run: Run, g: UaGroup, idProps: map<int, int>): (r: Option<seq<UaRule>>)
    ensures g.matcher.None? || !CheckPropertiesMatch(g.matcher.value, idProps) ==> r.None?
    ensures g.matcher.Some? && CheckPropertiesMatch(g.matcher.value, idProps) && |g.sets| == 1 ==> r == Some(g.sets[0].rules)
    ensures g.matcher.Some? && CheckPropertiesMatch(g.matcher.value, idProps) && |g.sets| >= 2 ==>
      r == FindRulesToRunByRegex(run, g.sets, Refine)
    ensures |g.sets| == 0 ==> r.None?
  {
    if g.matcher.None? || !CheckPropertiesMatch(g.matcher.value, idProps) then None
    else if |g.sets| >= 2 then FindRulesToRunByRegex(run, g.sets, Refine)
    else if |g.sets| == 1 then Some(g.sets[0].rules)
    else None
  }

  /** `_findRulesByProperties`: the concatenation, in group order, of what every group contributes. */
  function FindRulesByProperties(run: Run, groups: seq<UaGroup>, idProps: map<int, int>): (r: seq<UaRule>)
    ensures (forall i :: 0 <= i < |groups| ==> GroupRules(run, groups[i], idProps).None?) ==> r == []
    ensures forall x :: x in r ==> exists i :: (0 <= i < |groups| && GroupRules(run, groups[i], idProps).Some? &&
      x in GroupRules(run, groups[i], idProps).value)
  {
    if |groups| == 0 then []
    else
      var rest := FindRulesByProperties(run, groups[1..], idProps);
      assert forall i :: 0 <= i < |groups[1..]| ==> groups[1..][i] == groups[i + 1];
      GroupRules(run, groups[0], idProps).GetOr([]) + rest
  }

  /** Step 1 over two runs of groups is step 1 over each, one after the other: group order is kept. */
  lemma {:induction false} FindRulesByPropertiesAppend(run: Run, g1: seq<UaGroup>, g2: seq<UaGroup>, idProps: map<int, int>)
    ensures FindRulesByProperties(run, g1 + g2, idProps) ==
      FindRulesByProperties(run, g1, idProps) + FindRulesByProperties(run, g2, idProps)
  {
    if |g1| > 0 {
      var head := GroupRules(run, g1[0], idProps).GetOr([]);
      assert (g1 + g2)[0] == g1[0] && (g1 + g2)[1..] == g1[1..] + g2;
      FindRulesByPropertiesStep(run, g1 + g2, idProps);
      FindRulesByPropertiesStep(run, g1, idProps);
      FindRulesByPropertiesAppend(run, g1[1..], g2, idProps);
      assert head + (FindRulesByProperties(run, g1[1..], idProps) + FindRulesByProperties(run, g2, idProps))
          == (head + FindRulesByProperties(run, g1[1..], idProps)) + FindRulesByProperties(run, g2, idProps);
    } else {
      assert g1 + g2 == g2;
    }
  }

  lemma FindRulesByPropertiesStep(run: Run, groups: seq<UaGroup>, idProps: map<int, int>)
    requires |groups| > 0
    ensures FindRulesByProperties(run, groups, idProps) ==
      GroupRules(run, groups[0], idProps).GetOr([]) + FindRulesByProperties(run, groups[1..], idProps)
  {
  }

  /** The rules a group's rule sets give by search regex. */
  function SearchRules(run: Run, g: UaGroup): Option<seq<UaRule>> {
    FindRulesToRunByRegex(run, g.sets, Search)
  }

  /** `_findRulesByRegex`: the rules chosen by search regex in the first group where one matches. */
  function FindRulesByRegex(run: Run, groups: seq<UaGroup>): (r: Option<seq<UaRule>>)
    ensures r.None? <==> forall i :: 0 <= i < |groups| ==> SearchRules(run, groups[i]).None?
    ensures r.Some? ==> exists i :: (0 <= i < |groups| && r == SearchRules(run, groups[i]) &&
      forall j :: 0 <= j < i ==> SearchRules(run, groups[j]).None?)
  {
    if |groups| == 0 then None
    else if SearchRules(run, groups[0]).Some? then SearchRules(run, groups[0])
    else
      var r := FindRulesByRegex(run, groups[1..]);
      assert r.None? ==> forall i :: 0 <= i < |groups| ==> SearchRules(run, groups[i]).None? by {
        if r.None? {
          forall i | 0 <= i < |groups| ensures SearchRules(run, groups[i]).None? {
            if i > 0 {
              assert groups[i] == groups[1..][i - 1];
            }
          }
        }
      }
      assert r.Some? ==> exists i :: (0 <= i < |groups| && r == SearchRules(run, groups[i]) &&
          forall j :: 0 <= j < i ==> SearchRules(run, groups[j]).None?) by {
        if r.Some? {
          var i :| 0 <= i < |groups[1..]| && r == SearchRules(run, groups[1..][i]) &&
            forall j :: 0 <= j < i ==> SearchRules(run, groups[1..][j]).None?;
          assert groups[i + 1] == groups[1..][i];
          forall j | 0 <= j < i + 1 ensures SearchRules(run, groups[j]).None? {
            if j > 0 {
              assert groups[j] == groups[1..][j - 1];
            }
          }
        }
      }
      r
  }

  /** `_getUaPropertyRules`: the step-1 rules followed by the rules of the regex search, when it finds any. */
  function GetUaPropertyRules(run: Run, idProps: map<int, int>): (r: seq<UaRule>)
    ensures |r| == |FindRulesByProperties(run, run.u.groups, idProps)| + |FindRulesByRegex(run, run.u.groups).GetOr([])|
    ensures r[..|FindRulesByProperties(run, run.u.groups, idProps)|] == FindRulesByProperties(run, run.u.groups, idProps)
    ensures r[|FindRulesByProperties(run, run.u.groups, idProps)|..] == FindRulesByRegex(run, run.u.groups).GetOr([])
    ensures (forall i :: 0 <= i < |run.u.groups| ==>
      GroupRules(run, run.u.groups[i], idProps).None? && SearchRules(run, run.u.groups[i]).None?) ==> r == []
    ensures forall x :: x in r ==> exists i :: (0 <= i < |run.u.groups| &&
      ((GroupRules(run, run.u.groups[i], idProps).Some? && x in GroupRules(run, run.u.groups[i], idProps).value) ||
       (SearchRules(run, run.u.groups[i]).Some? && x in SearchRules(run, run.u.groups[i]).value)))
  {
    var first := FindRulesByProperties(run, run.u.groups, idProps);
    var second := FindRulesByRegex(run, run.u.groups).GetOr([]);
    assert (first + second)[..|first|] == first;
    assert (first + second)[|first|..] == second;
    first + second
  }

  // ----------------------------------------------------------------------------
  // Step 2: running the rules

  /**
   * What one rule contributes: nothing when a sought set excludes its
   * property. Otherwise a fixed-value rule always yields its value. A regex
   * rule yields the capture only when the regex matches and the capture is
   * neither unset nor `empty()` (so not `""` and not `"0"`).
   */
  function RuleOutcome(run: Run, rule: UaRule): (r: Option<(string, Value)>)
    ensures r.Some? ==> (run.sought.None? || rule.prop in run.sought.value) && r.value.0 == PropertyFromId(run.t, rule.prop)
    ensures (run.sought.None? || rule.prop in run.sought.value) && rule.value.Some? ==>
      r == Some((PropertyFromId(run.t, rule.prop), GetValue(run.t, rule.prop, rule.value.value, run.typed)))
    ensures rule.value.None? ==>
      (r.Some? <==> (run.sought.None? || rule.prop in run.sought.value) && RegexMatches(run, rule.regex) &&
                     !EmptyString(run.e.capture(Regexes(run.u)[rule.regex], run.ua, rule.pos)))
  {
    var name := PropertyFromId(run.t, rule.prop);
    if run.sought.Some? && rule.prop !in run.sought.value then None
    else if rule.value.Some? then Some((name, GetValue(run.t, rule.prop, rule.value.value, run.typed)))
    else if RegexMatches(run, rule.regex) then
      var cap := run.e.capture(Regexes(run.u)[rule.regex], run.ua, rule.pos);
      if EmptyString(cap) then None
      else Some((name, if run.typed then ConvertToTyped(run.t, Str(cap.value), rule.prop) else Str(cap.value)))
    else None
  }

  /** The rule at `i` produces a value for `name` and no later rule does. */
  ghost predicate LastProducer(run: Run, rules: seq<UaRule>, i: int, name: string) {
    0 <= i < |rules| && RuleOutcome(run, rules[i]).Some? && RuleOutcome(run, rules[i]).value.0 == name &&
    forall j :: i < j < |rules| ==> RuleOutcome(run, rules[j]).None? || RuleOutcome(run, rules[j]).value.0 != name
  }

  /**
   * `_extractProperties`: the rules run in order, each writing its outcome
   * into the result; the result is null when no rule produced anything.
   */
  function ExtractProperties(run: Run, rules: seq<UaRule>): (r: Option<Props>)
    ensures r.None? <==> forall i :: 0 <= i < |rules| ==> RuleOutcome(run, rules[i]).None?
    decreases |rules|
  {
    if |rules| == 0 then None
    else
      var init := rules[..|rules| - 1];
      var acc := ExtractProperties(run, init);
      assert forall i :: 0 <= i < |init| ==> init[i] == rules[i];
      var out := RuleOutcome(run, rules[|rules| - 1]);
      if out.None? then acc else Some(acc.GetOr(map[])[out.value.0 := out.value.1])
  }

  /** The names in the result are exactly those some rule produced. */
  lemma {:induction false} ExtractNames(run: Run, rules: seq<UaRule>, name: string)
    requires ExtractProperties(run, rules).Some?
    ensures name in ExtractProperties(run, rules).value <==>
      exists i :: 0 <= i < |rules| && RuleOutcome(run, rules[i]).Some? && RuleOutcome(run, rules[i]).value.0 == name
    decreases |rules|
  {
    var init := rules[..|rules| - 1];
    assert forall i :: 0 <= i < |init| ==> init[i] == rules[i];
    var out := RuleOutcome(run, rules[|rules| - 1]);
    if ExtractProperties(run, init).Some? {
      ExtractNames(run, init, name);
    }
  }

  /** For every name, the value in the result is the one of the last rule that produced that name. */
  lemma {:induction false} ExtractLastWins(run: Run, rules: seq<UaRule>, i: int, name: string)
    requires LastProducer(run, rules, i, name)
    ensures ExtractProperties(run, rules).Some?
    ensures name in ExtractProperties(run, rules).value
    ensures ExtractProperties(run, rules).value[name] == RuleOutcome(run, rules[i]).value.1
    decreases |rules|
  {
    var init := rules[..|rules| - 1];
    assert forall k :: 0 <= k < |init| ==> init[k] == rules[k];
    if i < |rules| - 1 {
      assert LastProducer(run, init, i, name);
      ExtractLastWins(run, init, i, name);
    }
  }

  /**
   * `getProperties`: null when a skip property is set; otherwise the
   * extraction over the chosen rules.
   */
  function GetProperties(run: Run, idProps: map<int, int>): (r: Option<Props>)
    ensures SkipUaRules(run.t, run.u.skipIds, idProps) ==> r.None?
    ensures !SkipUaRules(run.t, run.u.skipIds, idProps) ==> r == ExtractProperties(run, GetUaPropertyRules(run, idProps))
    ensures r.None? <==> (SkipUaRules(run.t, run.u.skipIds, idProps) ||
      forall rule :: rule in GetUaPropertyRules(run, idProps) ==> RuleOutcome(run, rule).None?)
    ensures r.Some? ==> forall name :: name in r.value ==> exists rule :: (rule in GetUaPropertyRules(run, idProps) &&
      RuleOutcome(run, rule).Some? && RuleOutcome(run, rule).value.0 == name)
  {
    if SkipUaRules(run.t, run.u.skipIds, idProps) then None
    else
      var rules := GetUaPropertyRules(run, idProps);
      var r := ExtractProperties(run, rules);
      assert r.Some? ==> forall name :: name in r.value ==> exists rule :: (rule in rules &&
          RuleOutcome(run, rule).Some? && RuleOutcome(run, rule).value.0 == name) by {
        if r.Some? {
          forall name | name in r.value
            ensures exists rule :: rule in rules && RuleOutcome(run, rule).Some? && RuleOutcome(run, rule).value.0 == name
          {
            ExtractNames(run, rules, name);
            var i :| 0 <= i < |rules| && RuleOutcome(run, rules[i]).Some? && RuleOutcome(run, rules[i]).value.0 == name;
            assert rules[i] in rules;
          }
        }
      }
      r
  }

  /**
   * With a sought set, every name the extractor returns is the name of some
   * chosen rule's property, and that property is sought.
   */
  lemma SoughtOnly(run: Run, idProps: map<int, int>, name: string)
    requires run.sought.Some?
    requires GetProperties(run, idProps).Some? && name in GetProperties(run, idProps).value
    ensures exists rule :: (rule in GetUaPropertyRules(run, idProps) && rule.prop in run.sought.value &&
      PropertyFromId(run.t, rule.prop) == name)
  {
    var rules := GetUaPropertyRules(run, idProps);
    ExtractNames(run, rules, name);
    var i :| 0 <= i < |rules| && RuleOutcome(run, rules[i]).Some? && RuleOutcome(run, rules[i]).value.0 == name;
    assert rules[i] in rules;
  }
}
