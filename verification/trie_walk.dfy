/**
 * The tree walk of `Api.php` (`_seekProperties`) and the two steps around it:
 * turning the walk's id map into a name-to-value map (`_lookupNameValue`) and
 * the whole single-walk lookup with the User-Agent rules on top
 * (`_getPropertiesFromTree`).
 *
 * At each node the walk first records the node's properties. With no sought
 * set it records all of them, and deeper nodes override shallower ones. With a
 * sought set it records only sought ids. A sought id leaves the set once it is
 * found at a node whose mask does not hold it, and the walk stops as soon as
 * the set runs empty. Then the node's normalisation regexes are stripped from
 * the rest of the User-Agent, in order. The walk descends into the child whose
 * edge label is the shortest prefix of what is left.
 */
module TrieWalk {
  import opened Wrappers
  import opened Php
  import opened Pcre
  import opened Schema
  import opened PropsHandler
  import opened PostWalkRules
  import UaProps

  /** `$tree['r'][1]`: the normalisation regexes of this API, none when the table lacks them. */
  function WalkRules(t: Tree): map<int, string> {
    if "1" in t.regex then t.regex["1"] else map[]
  }

  /**
   * The node's rules applied in listed order, each as
   * `preg_replace('/' . $rules[$id] . '/', '', $s)`; a rule id missing from the
   * table makes the pattern empty.
   */
  function Normalise(e: Engine, rules: map<int, string>, ids: seq<int>, s: string): (r: string)
    ensures StripShrinks(e) ==> |r| <= |s|
    ensures |ids| == 0 ==> r == s
    decreases |ids|
  {
    if |ids| == 0 then s
    else Normalise(e, rules, ids[1..], e.strip(if ids[0] in rules then rules[ids[0]] else "", s))
  }

  /** The child map has an edge labelled with the first `n` characters of `s`. */
  predicate HasEdge(c: map<string, Node>, s: string, n: nat) {
    n <= |s| && s[..n] in c
  }

  /** The child scan from length `n` on. */
  function ShortestFrom(c: map<string, Node>, s: string, n: nat): (r: Option<nat>)
    requires n >= 1
    ensures r.Some? ==> n <= r.value && HasEdge(c, s, r.value) && forall k :: n <= k < r.value ==> !HasEdge(c, s, k)
    ensures r.None? ==> forall k :: n <= k ==> !HasEdge(c, s, k)
    decreases |s| - n
  {
    if n > |s| then None
    else if s[..n] in c then Some(n)
    else ShortestFrom(c, s, n + 1)
  }

  /**
   * The `for ($c = 1; ...)` scan: the length of the shortest non-empty
   * prefix of `s` that labels a child, if any does.
   */
  function ShortestChildKey(c: map<string, Node>, s: string): (r: Option<nat>)
    ensures r.None? <==> forall k :: 1 <= k ==> !HasEdge(c, s, k)
    ensures r.Some? ==> 1 <= r.value <= |s| && s[..r.value] in c
    ensures r.Some? ==> forall k :: 1 <= k < r.value ==> !HasEdge(c, s, k)
  {
    ShortestFrom(c, s, 1)
  }

  /** The walk state: found ids, the sought set (null for want-all), the edges taken, and whether the walk stopped early. */
  datatype Walk = Walk(found: map<int, int>, sought: Option<set<int>>, edges: seq<string>, stopped: bool)

  /**
   * What one node's `d` does to the walk. The library loops over the sought
   * keys: each one present in `d` is recorded, and removed from the sought set
   * unless the mask holds it. It returns when a removal leaves the set empty.
   * That can only be the last key of the loop, so the loop amounts to the set
   * operations below.
   */
  function Visit(node: Node, found: map<int, int>, sought: Option<set<int>>): (r: (map<int, int>, Option<set<int>>, bool))
    ensures sought.None? ==> r.1.None? && !r.2
    ensures sought.Some? ==> r.1.Some? && r.1.value <= sought.value
    ensures sought.Some? ==> (r.2 <==> |sought.value| > 0 && r.1.value == {})
    ensures found.Keys <= r.0.Keys
  {
    if sought.None? then (found + node.d, None, false)
    else
      var s := sought.value;
      var rest := set k | k in s && (k !in node.d || k in node.m);
      var hits := map k | k in node.d && k in s :: node.d[k];
      (found + hits, Some(rest), |s| > 0 && rest == {})
  }

  /**
   * A node records the ids of its `d` that are sought (all of them when
   * nothing is sought) over what was found before, and a sought id stays
   * sought unless the node records it without masking it.
   */
  lemma VisitSpec(node: Node, found: map<int, int>, sought: Option<set<int>>, k: int)
    ensures var r := Visit(node, found, sought);
      sought.Some? ==> (k in r.1.value <==> k in sought.value && (k !in node.d || k in node.m))
    ensures var r := Visit(node, found, sought);
      k in r.0 <==> k in found || (k in node.d && (sought.None? || k in sought.value))
    ensures var r := Visit(node, found, sought);
      k in r.0 ==> r.0[k] == (if k in node.d && (sought.None? || k in sought.value) then node.d[k] else found[k])
  {
  }

  /** `_seekProperties`: one node visited, then the descent into the child the scan picks. */
  function Seek(e: Engine, rules: map<int, string>, node: Node, s: string, w: Walk): (r: Walk)
    ensures w.sought.None? ==> r.sought.None? && !r.stopped
    ensures |w.edges| <= |r.edges| && r.edges[..|w.edges|] == w.edges
    decreases node
  {
    var v := Visit(node, w.found, w.sought);
    if v.2 then Walk(v.0, v.1, w.edges, true)
    else
      var rest := Normalise(e, rules, node.r, s);
      match ShortestChildKey(node.c, rest)
      case None => Walk(v.0, v.1, w.edges, false)
      case Some(n) =>
        var r := Seek(e, rules, node.c[rest[..n]], rest[n..], Walk(v.0, v.1, w.edges + [rest[..n]], false));
        assert r.edges[..|w.edges|] == (r.edges[..|w.edges| + 1])[..|w.edges|];
        r
  }

  /** One step of the walk: descending into the child the scan picks. */
  lemma SeekDescends(e: Engine, rules: map<int, string>, node: Node, s: string, w: Walk, n: nat)
    requires !Visit(node, w.found, w.sought).2
    requires ShortestChildKey(node.c, Normalise(e, rules, node.r, s)) == Some(n)
    ensures var rest := Normalise(e, rules, node.r, s);
      var v := Visit(node, w.found, w.sought);
      Seek(e, rules, node, s, w) == Seek(e, rules, node.c[rest[..n]], rest[n..], Walk(v.0, v.1, w.edges + [rest[..n]], false))
  {
  }

  /** The walk ends at a node whose children match nothing, or when the sought set runs empty, and takes no further edge. */
  lemma SeekEnds(e: Engine, rules: map<int, string>, node: Node, s: string, w: Walk)
    requires Visit(node, w.found, w.sought).2 || ShortestChildKey(node.c, Normalise(e, rules, node.r, s)).None?
    ensures Seek(e, rules, node, s, w).edges == w.edges
  {
  }

  // ----------------------------------------------------------------------------
  // The want-all walk as a path

  /** The nodes the walk visits (starting with `node`) and the edges it follows, when nothing stops it. */
  function Path(e: Engine, rules: map<int, string>, node: Node, s: string): (r: (seq<Node>, seq<string>))
    ensures |r.0| == |r.1| + 1 && r.0[0] == node
    decreases node
  {
    var rest := Normalise(e, rules, node.r, s);
    match ShortestChildKey(node.c, rest)
    case None => ([node], [])
    case Some(n) =>
      var p := Path(e, rules, node.c[rest[..n]], rest[n..]);
      ([node] + p.0, [rest[..n]] + p.1)
  }

  /** The property maps of `nodes` laid over `acc` one after the other, so that a later node overrides an earlier one. */
  function Overlay(acc: map<int, int>, nodes: seq<Node>): map<int, int>
    decreases |nodes|
  {
    if |nodes| == 0 then acc else Overlay(acc + nodes[0].d, nodes[1..])
  }

  /**
   * The want-all walk accumulates every property on its path, deeper nodes
   * winning (`$node['d'] + $properties`), and follows exactly the path's
   * edges.
   */
  lemma {:induction false} SeekAll(e: Engine, rules: map<int, string>, node: Node, s: string, w: Walk)
    requires w.sought.None?
    ensures Seek(e, rules, node, s, w) == Walk(Overlay(w.found, Path(e, rules, node, s).0), None, w.edges + Path(e, rules, node, s).1, false)
    decreases node
  {
    var rest := Normalise(e, rules, node.r, s);
    match ShortestChildKey(node.c, rest)
    case None =>
      assert Overlay(w.found, [node]) == Overlay(w.found + node.d, []);
    case Some(n) =>
      var child := node.c[rest[..n]];
      var w2 := Walk(w.found + node.d, None, w.edges + [rest[..n]], false);
      SeekAll(e, rules, child, rest[n..], w2);
      var p := Path(e, rules, child, rest[n..]);
      assert ([node] + p.0)[1..] == p.0;
      assert w.edges + [rest[..n]] + p.1 == w.edges + ([rest[..n]] + p.1);
  }

  /** The last index of `nodes` whose map holds `k`. */
  ghost predicate LastHolder(nodes: seq<Node>, k: int, i: int) {
    0 <= i < |nodes| && k in nodes[i].d && forall j :: i < j < |nodes| ==> k !in nodes[j].d
  }

  /**
   * The overlay holds `k` exactly when `acc` or some node does. Its value is
   * the one of the deepest node holding `k`, and that of `acc` when no node
   * holds it.
   */
  lemma {:induction false} OverlayDeepestWins(acc: map<int, int>, nodes: seq<Node>, k: int)
    ensures k in Overlay(acc, nodes) <==> k in acc || exists i :: 0 <= i < |nodes| && k in nodes[i].d
    ensures forall i :: LastHolder(nodes, k, i) ==> k in Overlay(acc, nodes) && Overlay(acc, nodes)[k] == nodes[i].d[k]
    ensures (forall i :: 0 <= i < |nodes| ==> k !in nodes[i].d) && k in acc ==> Overlay(acc, nodes)[k] == acc[k]
    decreases |nodes|
  {
    if |nodes| > 0 {
      OverlayDeepestWins(acc + nodes[0].d, nodes[1..], k);
      assert forall i :: 0 <= i < |nodes[1..]| ==> nodes[1..][i] == nodes[i + 1];
      forall i | LastHolder(nodes, k, i)
        ensures k in Overlay(acc, nodes) && Overlay(acc, nodes)[k] == nodes[i].d[k]
      {
        if i > 0 {
          assert LastHolder(nodes[1..], k, i - 1);
        }
      }
    }
  }

  /**
   * `_seekPostWalkProperties`: a want-all walk with no normalisation regexes
   * (so a node's rules strip with an empty pattern). It lays the properties
   * of every node on the path over `found`, deeper nodes winning.
   */
  function SeekPostWalk(e: Engine, node: Node, s: string, found: map<int, int>): (r: map<int, int>)
    ensures r == Overlay(found, Path(e, map[], node, s).0)
  {
    SeekAll(e, map[], node, s, Walk(found, None, [], false));
    Seek(e, map[], node, s, Walk(found, None, [], false)).found
  }

  // ----------------------------------------------------------------------------
  // The sought walk

  /** One step of the path: the edge the scan picks, then the child's path. */
  lemma PathDescends(e: Engine, rules: map<int, string>, node: Node, s: string, n: nat)
    requires ShortestChildKey(node.c, Normalise(e, rules, node.r, s)) == Some(n)
    ensures var rest := Normalise(e, rules, node.r, s);
      Path(e, rules, node, s).1 == [rest[..n]] + Path(e, rules, node.c[rest[..n]], rest[n..]).1
  {
  }

  lemma AppendStep<T>(a: seq<T>, x: T, b: seq<T>, r: seq<T>, stopped: bool)
    requires r <= a + [x] + b
    requires !stopped ==> r == a + [x] + b
    ensures r <= a + ([x] + b)
    ensures !stopped ==> r == a + ([x] + b)
  {
    assert a + [x] + b == a + ([x] + b);
  }

  /** The sought walk takes the same route as the want-all walk, and may stop before its end. */
  lemma {:induction false} SoughtFollowsPath(e: Engine, rules: map<int, string>, node: Node, s: string, w: Walk)
    ensures Seek(e, rules, node, s, w).edges <= w.edges + Path(e, rules, node, s).1
    ensures !Seek(e, rules, node, s, w).stopped ==> Seek(e, rules, node, s, w).edges == w.edges + Path(e, rules, node, s).1
    decreases node
  {
    var v := Visit(node, w.found, w.sought);
    var rest := Normalise(e, rules, node.r, s);
    var k := ShortestChildKey(node.c, rest);
    if v.2 || k.None? {
      SeekEnds(e, rules, node, s, w);
    } else {
      var n := k.value;
      var w2 := Walk(v.0, v.1, w.edges + [rest[..n]], false);
      SeekDescends(e, rules, node, s, w, n);
      PathDescends(e, rules, node, s, n);
      SoughtFollowsPath(e, rules, node.c[rest[..n]], rest[n..], w2);
      var r := Seek(e, rules, node, s, w);
      AppendStep(w.edges, rest[..n], Path(e, rules, node.c[rest[..n]], rest[n..]).1, r.edges, r.stopped);
    }
  }

  /** The labels of the edges taken, joined: the `$matched` string. */
  function Concat(edges: seq<string>): string
    decreases |edges|
  {
    if |edges| == 0 then "" else Concat(edges[..|edges| - 1]) + edges[|edges| - 1]
  }

  lemma ConcatAppend(edges: seq<string>, x: string)
    ensures Concat(edges + [x]) == Concat(edges) + x
  {
    assert (edges + [x])[..|edges|] == edges;
  }

  /** When regex stripping never lengthens a string, the matched edges are no longer than the User-Agent. */
  lemma {:induction false} MatchedWithinInput(e: Engine, rules: map<int, string>, node: Node, s: string, w: Walk)
    requires StripShrinks(e)
    ensures |Concat(Seek(e, rules, node, s, w).edges)| <= |Concat(w.edges)| + |s|
    decreases node
  {
    var v := Visit(node, w.found, w.sought);
    var rest := Normalise(e, rules, node.r, s);
    if !v.2 {
      match ShortestChildKey(node.c, rest)
      case None =>
      case Some(n) =>
        var child := node.c[rest[..n]];
        MatchedWithinInput(e, rules, child, rest[n..], Walk(v.0, v.1, w.edges + [rest[..n]], false));
        ConcatAppend(w.edges, rest[..n]);
    }
  }

  lemma PrefixStep(c0: string, x: string, y: string, r: string)
    requires c0 + x <= r <= c0 + x + y
    ensures c0 <= r <= c0 + (x + y)
  {
    assert c0 + x + y == c0 + (x + y);
    assert r[..|c0|] == (c0 + x)[..|c0|];
  }

  /** No node of the trie carries normalisation rules. */
  ghost predicate NoRules(node: Node)
    decreases node
  {
    |node.r| == 0 && forall k :: k in node.c ==> NoRules(node.c[k])
  }

  /** Without normalisation rules the matched edges spell a prefix of the User-Agent. */
  lemma {:induction false} MatchedIsPrefix(e: Engine, rules: map<int, string>, node: Node, s: string, w: Walk)
    requires NoRules(node)
    ensures Concat(w.edges) <= Concat(Seek(e, rules, node, s, w).edges) <= Concat(w.edges) + s
    decreases node
  {
    var v := Visit(node, w.found, w.sought);
    var k := ShortestChildKey(node.c, s);
    if v.2 || k.None? {
      SeekEnds(e, rules, node, s, w);
    } else {
      var n := k.value;
      var w2 := Walk(v.0, v.1, w.edges + [s[..n]], false);
      SeekDescends(e, rules, node, s, w, n);
      MatchedIsPrefix(e, rules, node.c[s[..n]], s[n..], w2);
      ConcatAppend(w.edges, s[..n]);
      PrefixStep(Concat(w.edges), s[..n], s[n..], Concat(Seek(e, rules, node, s, w).edges));
      assert s[..n] + s[n..] == s;
    }
  }

  // ----------------------------------------------------------------------------
  // From ids to names

  /** `array_flip(array_intersect_key($pnr, $idProperties))`: name to id for the found ids, later entries winning. */
  function NameIds(p: seq<(int, string)>, idProps: map<int, int>): (r: map<string, int>)
    ensures forall n :: n in r ==> r[n] in idProps
    decreases |p|
  {
    if |p| == 0 then map[]
    else
      var r := NameIds(p[..|p| - 1], idProps);
      if p[|p| - 1].0 in idProps then r[Drop(p[|p| - 1].1, 1) := p[|p| - 1].0] else r
  }

  /** `_lookupNameValue`: each found property under its name, with its value raw or typed. */
  function LookupNameValue(t: Tree, idProps: map<int, int>, typed: bool): (r: Props)
    ensures r.Keys == NameIds(t.doc.p, idProps).Keys
  {
    var ids := NameIds(t.doc.p, idProps);
    map n | n in ids :: GetValue(t, ids[n], idProps[ids[n]], typed)
  }

  /**
   * With distinct names, a name is in the result exactly when its property
   * was found, and it carries that property's value.
   */
  lemma {:induction false} NameIdsUnique(p: seq<(int, string)>, idProps: map<int, int>, i: int)
    requires UniqueNames(p)
    requires 0 <= i < |p|
    ensures Drop(p[i].1, 1) in NameIds(p, idProps) <==> p[i].0 in idProps
    ensures p[i].0 in idProps ==> NameIds(p, idProps)[Drop(p[i].1, 1)] == p[i].0
    decreases |p|
  {
    var init := p[..|p| - 1];
    var last := |p| - 1;
    if i < last {
      assert init[i] == p[i];
      assert UniqueNames(init) by {
        forall a, b | 0 <= a < b < |init| ensures Drop(init[a].1, 1) != Drop(init[b].1, 1) {
          assert init[a] == p[a] && init[b] == p[b];
        }
      }
      NameIdsUnique(init, idProps, i);
      assert Drop(p[last].1, 1) != Drop(p[i].1, 1);
    } else if p[last].0 !in idProps && Drop(p[last].1, 1) in NameIds(init, idProps) {
      NameIdsFrom(init, idProps, Drop(p[last].1, 1));
      assert false;
    }
  }

  /** Every name in the id map comes from some entry of `p` whose id was found. */
  lemma {:induction false} NameIdsFrom(p: seq<(int, string)>, idProps: map<int, int>, n: string)
    requires n in NameIds(p, idProps)
    ensures exists i :: 0 <= i < |p| && Drop(p[i].1, 1) == n && p[i].0 in idProps
    decreases |p|
  {
    var init := p[..|p| - 1];
    if !(p[|p| - 1].0 in idProps && Drop(p[|p| - 1].1, 1) == n) {
      NameIdsFrom(init, idProps, n);
      var i :| 0 <= i < |init| && Drop(init[i].1, 1) == n && init[i].0 in idProps;
      assert init[i] == p[i];
    }
  }

  /**
   * With distinct names, `_lookupNameValue` reports the property of entry `i`
   * exactly when the walk found it, with the value the walk found.
   */
  lemma LookupNameValueSpec(t: Tree, idProps: map<int, int>, typed: bool, i: int)
    requires UniqueNames(t.doc.p) && 0 <= i < |t.doc.p|
    ensures var (id, tn) := t.doc.p[i];
      (Drop(tn, 1) in LookupNameValue(t, idProps, typed) <==> id in idProps) &&
      (id in idProps ==> LookupNameValue(t, idProps, typed)[Drop(tn, 1)] == GetValue(t, id, idProps[id], typed))
  {
    NameIdsUnique(t.doc.p, idProps, i);
  }

  // ----------------------------------------------------------------------------
  // One lookup over the tree

  /** The `uar` handler's index, when the tree has the branch. */
  function UaHandler(t: Tree): Option<RuleIndex> {
    if t.doc.uar.Some? then Some(UaIndex(t.doc.uar.value)) else None
  }

  /**
   * Whether the User-Agent rules have to run, and the sought set the walk
   * gets. Without a sought set they always run. With one, they run only if
   * the `uar` handler exists and can output some sought id. In that case the
   * matcher ids it requires join the sought set.
   */
  function PlanWalk(t: Tree, sought: Option<set<int>>): (r: (bool, Option<set<int>>))
    ensures sought.None? ==> r == (true, None)
    ensures sought.Some? ==> r.1.Some? && sought.value <= r.1.value
    ensures sought.Some? ==> (r.0 <==> t.doc.uar.Some? && exists id :: id in sought.value && PropIsOutput(UaIndex(t.doc.uar.value), id))
    ensures sought.Some? && r.0 ==> r.1.value == sought.value + RequiredProperties(UaIndex(t.doc.uar.value))
    ensures sought.Some? && !r.0 ==> r.1 == sought
  {
    if sought.None? then (true, None)
    else if t.doc.uar.None? then (false, sought)
    else
      var index := UaIndex(t.doc.uar.value);
      if exists id | id in sought.value :: PropIsOutput(index, id) then (true, Some(sought.value + RequiredProperties(index)))
      else (false, sought)
  }

  /** The walk `_getPropertiesFromTree` performs on the trimmed User-Agent. */
  function TreeWalk(e: Engine, t: Tree, ua: string, sought: Option<set<int>>): Walk {
    Seek(e, WalkRules(t), t.doc.t, Trim(ua), Walk(map[], PlanWalk(t, sought).1, [], false))
  }

  /** The walk's properties by name, plus `_matched` and `_unmatched` when nothing was sought. */
  function WalkProperties(e: Engine, t: Tree, ua: string, sought: Option<set<int>>, typed: bool): Props {
    var w := TreeWalk(e, t, ua, sought);
    var found := LookupNameValue(t, w.found, typed);
    var matched := Concat(w.edges);
    if sought.None? then found["_matched" := Str(matched)]["_unmatched" := Str(Drop(Trim(ua), |matched|))]
    else found
  }

  /**
   * `_getPropertiesFromTree`: the walk's properties, overlaid with the
   * User-Agent rule results when those have to run.
   */
  function GetPropertiesFromTree(e: Engine, t: Tree, ua: string, sought: Option<set<int>>, typed: bool): (r: Props)
    ensures WalkProperties(e, t, ua, sought, typed).Keys <= r.Keys
    ensures !PlanWalk(t, sought).0 || t.doc.uar.None? ==> r == WalkProperties(e, t, ua, sought, typed)
  {
    var (needed, sought2) := PlanWalk(t, sought);
    var found := WalkProperties(e, t, ua, sought, typed);
    if needed && t.doc.uar.Some? then
      var w := TreeWalk(e, t, ua, sought);
      var uaProps := UaProps.GetProperties(UaProps.Run(e, t, t.doc.uar.value, Trim(ua), sought2, typed), w.found);
      Merge(Some(found), uaProps).value
    else found
  }

  /**
   * When the User-Agent rules run, the lookup is the walk's properties with
   * the rules' results laid over them: a name the rules report carries the
   * rules' value, every other name keeps the walk's value, and nothing else
   * appears. When the rules report nothing, the walk's properties stand.
   */
  lemma UaRulesOverlay(e: Engine, t: Tree, ua: string, sought: Option<set<int>>, typed: bool)
    requires PlanWalk(t, sought).0 && t.doc.uar.Some?
    ensures var run := UaProps.Run(e, t, t.doc.uar.value, Trim(ua), PlanWalk(t, sought).1, typed);
      var over := UaProps.GetProperties(run, TreeWalk(e, t, ua, sought).found);
      var found := WalkProperties(e, t, ua, sought, typed);
      var r := GetPropertiesFromTree(e, t, ua, sought, typed);
      (over.None? ==> r == found) &&
      (over.Some? ==> (r.Keys == found.Keys + over.value.Keys &&
        (forall n :: n in over.value ==> r[n] == over.value[n]) &&
        (forall n :: n in found && n !in over.value ==> r[n] == found[n])))
  {
  }

  /** Every name the User-Agent rules report is a property name of the tree (or the empty key of an unknown id). */
  lemma UaNames(run: UaProps.Run, idProps: map<int, int>, n: string)
    requires UaProps.GetProperties(run, idProps).Some? && n in UaProps.GetProperties(run, idProps).value
    ensures n == "" || n in run.t.pnr.Values
  {
    var rules := UaProps.GetUaPropertyRules(run, idProps);
    UaProps.ExtractNames(run, rules, n);
  }

  /** The full lookup keeps the `_matched` and `_unmatched` entries of the walk when no property carries those names. */
  lemma KeepsWalkExtras(e: Engine, t: Tree, ua: string, typed: bool, n: string)
    requires n == "_matched" || n == "_unmatched"
    requires n !in t.pnr.Values
    ensures var w := WalkProperties(e, t, ua, None, typed);
      n in w && n in GetPropertiesFromTree(e, t, ua, None, typed) && GetPropertiesFromTree(e, t, ua, None, typed)[n] == w[n]
  {
    var found := WalkProperties(e, t, ua, None, typed);
    if t.doc.uar.Some? {
      var w := TreeWalk(e, t, ua, None);
      var run := UaProps.Run(e, t, t.doc.uar.value, Trim(ua), None, typed);
      var uaProps := UaProps.GetProperties(run, w.found);
      if uaProps.Some? && n in uaProps.value {
        UaNames(run, w.found, n);
      }
    }
  }

  /**
   * With no normalisation rules in the trie and no property named `_matched`
   * or `_unmatched`, the full lookup reports a `_matched` prefix of the
   * trimmed User-Agent and an `_unmatched` rest that together spell it.
   */
  lemma MatchedUnmatched(e: Engine, t: Tree, ua: string, typed: bool)
    requires NoRules(t.doc.t)
    requires "_matched" !in t.pnr.Values && "_unmatched" !in t.pnr.Values
    ensures var r := GetPropertiesFromTree(e, t, ua, None, typed);
      "_matched" in r && "_unmatched" in r && r["_matched"].Str? && r["_unmatched"].Str? &&
      r["_matched"].s + r["_unmatched"].s == Trim(ua)
  {
    var s := Trim(ua);
    var w := TreeWalk(e, t, ua, None);
    MatchedIsPrefix(e, WalkRules(t), t.doc.t, s, Walk(map[], None, [], false));
    var matched := Concat(w.edges);
    assert matched <= s;
    assert matched + Drop(s, |matched|) == s;
    KeepsWalkExtras(e, t, ua, typed, "_matched");
    KeepsWalkExtras(e, t, ua, typed, "_unmatched");
  }
}
