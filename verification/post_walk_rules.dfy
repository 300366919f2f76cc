/**
 * The shared set-up of the two post-walk rule engines: while the rule groups
 * are read at construction time, the ids of the properties the matchers look
 * at (the "required" properties a restricted walk must still fetch) and the
 * ids of the properties the rules can write (the "output" properties) are
 * collected once. Both engines are reduced to a `GroupView` for this.
 */
module PostWalkRules {
  import opened Wrappers
  import opened Schema

  /** What the set-up sees of a rule group: its matcher property ids and, per rule set, the property ids the rules write. */
  datatype GroupView = GroupView(matcherIds: seq<int>, ruleSets: seq<seq<int>>)

  /** The two id sets a handler keeps (`propertyId => 1` maps in the library). */
  datatype RuleIndex = RuleIndex(matcherIds: set<int>, outputIds: set<int>)

  /** `_initGetMatcherPropertyIds`: add a group's matcher ids to `acc`. */
  function AddIds(ids: seq<int>, acc: set<int>): (r: set<int>)
    ensures acc <= r
    ensures forall x :: x in r <==> x in acc || x in ids
  {
    if |ids| == 0 then acc else AddIds(ids[1..], acc + {ids[0]})
  }

  /** `_initGetRulePropertyIds`: add the property ids written by every rule of every set to `acc`. */
  function AddRuleIds(sets: seq<seq<int>>, acc: set<int>): (r: set<int>)
    ensures acc <= r
    ensures forall x :: x in r <==> x in acc || exists j :: 0 <= j < |sets| && x in sets[j]
  {
    if |sets| == 0 then acc
    else
      var r := AddRuleIds(sets[1..], AddIds(sets[0], acc));
      assert forall x :: (exists j :: 0 <= j < |sets| && x in sets[j]) <==>
                        (x in sets[0] || exists j :: 0 <= j < |sets[1..]| && x in sets[1..][j]) by {
        forall x | exists j :: 0 <= j < |sets| && x in sets[j]
          ensures x in sets[0] || exists j :: 0 <= j < |sets[1..]| && x in sets[1..][j]
        {
          var j :| 0 <= j < |sets| && x in sets[j];
          if j > 0 {
            assert x in sets[1..][j - 1];
          }
        }
      }
      r
  }

  /** `_init`: the loop over all groups, starting from `acc`. */
  function InitFrom(groups: seq<GroupView>, acc: RuleIndex): (r: RuleIndex)
    decreases |groups|
  {
    if |groups| == 0 then acc
    else
      var g := groups[0];
      InitFrom(groups[1..], RuleIndex(AddIds(g.matcherIds, acc.matcherIds), AddRuleIds(g.ruleSets, acc.outputIds)))
  }

  /** The index a handler builds at construction, starting from two empty sets. */
  function Init(groups: seq<GroupView>): RuleIndex {
    InitFrom(groups, RuleIndex({}, {}))
  }

  /** Some group's matcher looks at property `x`. */
  ghost predicate IsMatcherId(groups: seq<GroupView>, x: int) {
    exists i :: 0 <= i < |groups| && x in groups[i].matcherIds
  }

  /** Some rule of some set of some group writes property `x`. */
  ghost predicate IsOutputId(groups: seq<GroupView>, x: int) {
    exists i, j :: 0 <= i < |groups| && 0 <= j < |groups[i].ruleSets| && x in groups[i].ruleSets[j]
  }

  /** The set-up only ever adds ids: whatever the accumulator held is still there afterwards. */
  lemma {:induction false} InitMonotone(groups: seq<GroupView>, acc: RuleIndex)
    ensures acc.matcherIds <= InitFrom(groups, acc).matcherIds
    ensures acc.outputIds <= InitFrom(groups, acc).outputIds
    decreases |groups|
  {
    if |groups| > 0 {
      var g := groups[0];
      var next := RuleIndex(AddIds(g.matcherIds, acc.matcherIds), AddRuleIds(g.ruleSets, acc.outputIds));
      InitMonotone(groups[1..], next);
    }
  }

  /** The ids collected from `acc` onwards are those of `acc` plus those the groups mention. */
  lemma {:induction false} InitFromMembers(groups: seq<GroupView>, acc: RuleIndex, x: int)
    ensures x in InitFrom(groups, acc).matcherIds <==> x in acc.matcherIds || IsMatcherId(groups, x)
    ensures x in InitFrom(groups, acc).outputIds <==> x in acc.outputIds || IsOutputId(groups, x)
    decreases |groups|
  {
    if |groups| > 0 {
      var g := groups[0];
      var next := RuleIndex(AddIds(g.matcherIds, acc.matcherIds), AddRuleIds(g.ruleSets, acc.outputIds));
      InitFromMembers(groups[1..], next, x);
      if IsMatcherId(groups, x) {
        var i :| 0 <= i < |groups| && x in groups[i].matcherIds;
        if i > 0 {
          assert x in groups[1..][i - 1].matcherIds;
        }
      }
      if IsMatcherId(groups[1..], x) {
        var i :| 0 <= i < |groups[1..]| && x in groups[1..][i].matcherIds;
        assert x in groups[i + 1].matcherIds;
      }
      if IsOutputId(groups, x) {
        var i, j :| 0 <= i < |groups| && 0 <= j < |groups[i].ruleSets| && x in groups[i].ruleSets[j];
        if i > 0 {
          assert x in groups[1..][i - 1].ruleSets[j];
        }
      }
      if IsOutputId(groups[1..], x) {
        var i, j :| 0 <= i < |groups[1..]| && 0 <= j < |groups[1..][i].ruleSets| && x in groups[1..][i].ruleSets[j];
        assert x in groups[i + 1].ruleSets[j];
      }
    }
  }

  /**
   * `propIsOutput(id)` holds exactly when some rule writes property `id`, and
   * `getRequiredProperties()` holds exactly the ids some matcher looks at.
   */
  lemma InitMembers(groups: seq<GroupView>, x: int)
    ensures PropIsOutput(Init(groups), x) <==> IsOutputId(groups, x)
    ensures x in RequiredProperties(Init(groups)) <==> IsMatcherId(groups, x)
  {
    InitFromMembers(groups, RuleIndex({}, {}), x);
  }

  /** `propIsOutput`. */
  predicate PropIsOutput(index: RuleIndex, id: int) {
    id in index.outputIds
  }

  /** `getRequiredProperties`. */
  function RequiredProperties(index: RuleIndex): set<int> {
    index.matcherIds
  }

  // ----------------------------------------------------------------------------
  // The two engines' views of their groups

  /** A `uar` group: the matcher's property ids (none when it has no matcher) and each set's rules. */
  function UaView(g: UaGroup): (v: GroupView)
    ensures g.matcher.None? ==> v.matcherIds == []
    ensures g.matcher.Some? ==> |v.matcherIds| == |g.matcher.value|
    ensures g.matcher.Some? ==> forall k :: 0 <= k < |g.matcher.value| ==> v.matcherIds[k] == g.matcher.value[k].0
    ensures |v.ruleSets| == |g.sets|
    ensures forall j :: 0 <= j < |g.sets| ==> |v.ruleSets[j]| == |g.sets[j].rules|
    ensures forall j, k :: 0 <= j < |g.sets| && 0 <= k < |g.sets[j].rules| ==> v.ruleSets[j][k] == g.sets[j].rules[k].prop
  {
    var ids := if g.matcher.Some? then seq(|g.matcher.value|, k requires 0 <= k < |g.matcher.value| => g.matcher.value[k].0) else [];
    GroupView(ids, seq(|g.sets|, j requires 0 <= j < |g.sets| =>
      seq(|g.sets[j].rules|, k requires 0 <= k < |g.sets[j].rules| => g.sets[j].rules[k].prop)))
  }

  /** A `cpr` group: its matchers' property ids and its single override list wrapped as one rule set (`_initRuleSets`). */
  function ClientView(g: ClientGroup): (v: GroupView)
    ensures |v.matcherIds| == |g.matchers| && forall k :: 0 <= k < |g.matchers| ==> v.matcherIds[k] == g.matchers[k].prop
    ensures |v.ruleSets| == 1 && |v.ruleSets[0]| == |g.rules|
    ensures forall k :: 0 <= k < |g.rules| ==> v.ruleSets[0][k] == g.rules[k].prop
  {
    GroupView(seq(|g.matchers|, k requires 0 <= k < |g.matchers| => g.matchers[k].prop),
              [seq(|g.rules|, k requires 0 <= k < |g.rules| => g.rules[k].prop)])
  }

  /** The index of the `uar` handler. */
  function UaIndex(u: UaRules): RuleIndex {
    Init(seq(|u.groups|, i requires 0 <= i < |u.groups| => UaView(u.groups[i])))
  }

  /** The index of the `cpr` handler. */
  function ClientIndex(c: ClientRules): RuleIndex {
    Init(seq(|c.groups|, i requires 0 <= i < |c.groups| => ClientView(c.groups[i])))
  }

  /** The `uar` handler reports property `x` as an output exactly when some rule of some set of some group sets it. */
  lemma UaOutputs(u: UaRules, x: int)
    ensures PropIsOutput(UaIndex(u), x) <==>
      exists i, j, k :: 0 <= i < |u.groups| && 0 <= j < |u.groups[i].sets| && 0 <= k < |u.groups[i].sets[j].rules|
        && u.groups[i].sets[j].rules[k].prop == x
  {
    var views := seq(|u.groups|, i requires 0 <= i < |u.groups| => UaView(u.groups[i]));
    InitMembers(views, x);
    if IsOutputId(views, x) {
      var i, j :| 0 <= i < |views| && 0 <= j < |views[i].ruleSets| && x in views[i].ruleSets[j];
      var k :| 0 <= k < |views[i].ruleSets[j]| && views[i].ruleSets[j][k] == x;
      assert u.groups[i].sets[j].rules[k].prop == x;
    }
    if exists i, j, k :: 0 <= i < |u.groups| && 0 <= j < |u.groups[i].sets| && 0 <= k < |u.groups[i].sets[j].rules|
        && u.groups[i].sets[j].rules[k].prop == x {
      var i, j, k :| 0 <= i < |u.groups| && 0 <= j < |u.groups[i].sets| && 0 <= k < |u.groups[i].sets[j].rules|
        && u.groups[i].sets[j].rules[k].prop == x;
      assert views[i].ruleSets[j][k] == x;
    }
  }

  /** The `uar` handler requires property `x` exactly when some group's matcher names it. */
  lemma UaRequired(u: UaRules, x: int)
    ensures x in RequiredProperties(UaIndex(u)) <==>
      exists i, k :: 0 <= i < |u.groups| && u.groups[i].matcher.Some? && 0 <= k < |u.groups[i].matcher.value|
        && u.groups[i].matcher.value[k].0 == x
  {
    var views := seq(|u.groups|, i requires 0 <= i < |u.groups| => UaView(u.groups[i]));
    InitMembers(views, x);
    if IsMatcherId(views, x) {
      var i :| 0 <= i < |views| && x in views[i].matcherIds;
      var k :| 0 <= k < |views[i].matcherIds| && views[i].matcherIds[k] == x;
      assert u.groups[i].matcher.value[k].0 == x;
    }
    if exists i, k :: 0 <= i < |u.groups| && u.groups[i].matcher.Some? && 0 <= k < |u.groups[i].matcher.value|
        && u.groups[i].matcher.value[k].0 == x {
      var i, k :| 0 <= i < |u.groups| && u.groups[i].matcher.Some? && 0 <= k < |u.groups[i].matcher.value|
        && u.groups[i].matcher.value[k].0 == x;
      assert views[i].matcherIds[k] == x;
    }
  }

  /** The `cpr` handler reports property `x` as an output exactly when some group's overrides write it. */
  lemma ClientOutputs(c: ClientRules, x: int)
    ensures PropIsOutput(ClientIndex(c), x) <==>
      exists i, k :: 0 <= i < |c.groups| && 0 <= k < |c.groups[i].rules| && c.groups[i].rules[k].prop == x
  {
    var views := seq(|c.groups|, i requires 0 <= i < |c.groups| => ClientView(c.groups[i]));
    InitMembers(views, x);
    if IsOutputId(views, x) {
      var i, j :| 0 <= i < |views| && 0 <= j < |views[i].ruleSets| && x in views[i].ruleSets[j];
      assert j == 0;
      var k :| 0 <= k < |views[i].ruleSets[0]| && views[i].ruleSets[0][k] == x;
      assert c.groups[i].rules[k].prop == x;
    }
    if exists i, k :: 0 <= i < |c.groups| && 0 <= k < |c.groups[i].rules| && c.groups[i].rules[k].prop == x {
      var i, k :| 0 <= i < |c.groups| && 0 <= k < |c.groups[i].rules| && c.groups[i].rules[k].prop == x;
      assert views[i].ruleSets[0][k] == x;
    }
  }

  /** The `cpr` handler requires property `x` exactly when some group has a matcher on it. */
  lemma ClientRequired(c: ClientRules, x: int)
    ensures x in RequiredProperties(ClientIndex(c)) <==>
      exists i, k :: 0 <= i < |c.groups| && 0 <= k < |c.groups[i].matchers| && c.groups[i].matchers[k].prop == x
  {
    var views := seq(|c.groups|, i requires 0 <= i < |c.groups| => ClientView(c.groups[i]));
    InitMembers(views, x);
    if IsMatcherId(views, x) {
      var i :| 0 <= i < |views| && x in views[i].matcherIds;
      var k :| 0 <= k < |views[i].matcherIds| && views[i].matcherIds[k] == x;
      assert c.groups[i].matchers[k].prop == x;
    }
    if exists i, k :: 0 <= i < |c.groups| && 0 <= k < |c.groups[i].matchers| && c.groups[i].matchers[k].prop == x {
      var i, k :| 0 <= i < |c.groups| && 0 <= k < |c.groups[i].matchers| && c.groups[i].matchers[k].prop == x;
      assert views[i].matcherIds[k] == x;
    }
  }
}
