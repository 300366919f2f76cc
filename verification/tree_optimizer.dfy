/**
 * The shard optimiser of `TreeOptimizer.php`. A shard is the tree cut down
 * to the top-level branches whose edge starts with one byte, with the value
 * table garbage-collected and renumbered densely, and with the fake
 * User-Agents of the client rules grafted in as top-level children holding
 * the properties a walk of the full tree gives them. The User-Agents of
 * byte 77 are split further into sub-shards by a fixed table of prefixes.
 * File modification times, the clock and the lock file are inputs here.
 */
module TreeOptimizer {
  import opened Wrappers
  import opened Php
  import opened Pcre
  import opened Schema
  import TrieWalk

  /** Seconds a lock file keeps other generators away. */
  const LOCK_EXPIRY := 10

  const IPHONE_PATH := "Mozilla/5.0 (i"
  const LINUX_PATH := "Mozilla/5.0 (Linux"

  // ----------------------------------------------------------------------------
  // Shard ids

  /** `_firstLetterValue`: `ord` of the first byte, 0 for an empty string. Characters stand for bytes. */
  function FirstLetterValue(s: string): nat {
    if |s| == 0 then 0 else s[0] as nat
  }

  /** `$subtree_optimization`: the sub-shards of a first byte, as (key, path) in table order. */
  function SubtreePaths(flv: int): seq<(string, string)> {
    if flv == 77 then [("iphone", IPHONE_PATH), ("linux", LINUX_PATH)] else []
  }

  /** The key of the first sub-shard whose path begins `ua`. */
  function SubtreeKey(paths: seq<(string, string)>, ua: string): (r: Option<string>)
    ensures r.None? <==> forall i :: 0 <= i < |paths| ==> !(paths[i].1 <= ua)
    ensures r.Some? ==> exists i :: (0 <= i < |paths| && paths[i].1 <= ua && r.value == paths[i].0 &&
      forall j :: 0 <= j < i ==> !(paths[j].1 <= ua))
    decreases |paths|
  {
    if |paths| == 0 then None
    else if paths[0].1 <= ua then Some(paths[0].0)
    else
      var rest := SubtreeKey(paths[1..], ua);
      assert forall i :: 1 <= i < |paths| ==> paths[1..][i - 1] == paths[i];
      assert rest.Some? ==> exists i :: (0 <= i < |paths| && paths[i].1 <= ua && rest.value == paths[i].0 &&
          forall j :: 0 <= j < i ==> !(paths[j].1 <= ua)) by {
        if rest.Some? {
          var i :| 0 <= i < |paths[1..]| && paths[1..][i].1 <= ua && rest.value == paths[1..][i].0 &&
            forall j :: 0 <= j < i ==> !(paths[1..][j].1 <= ua);
          assert forall j :: 1 <= j < i + 1 ==> paths[j] == paths[1..][j - 1];
        }
      }
      rest
  }

  /**
   * `getShardId`: the first byte's value, followed by `.` and the sub-shard
   * key when sub-shards are on and one of the byte's paths begins `ua`.
   */
  function ShardId(ua: string, subtree: bool): (r: string)
    ensures !subtree || FirstLetterValue(ua) != 77 ==> r == IntToString(FirstLetterValue(ua))
    ensures subtree && FirstLetterValue(ua) == 77 && IPHONE_PATH <= ua ==> r == IntToString(77) + ".iphone"
    ensures subtree && FirstLetterValue(ua) == 77 && !(IPHONE_PATH <= ua) && LINUX_PATH <= ua ==> r == IntToString(77) + ".linux"
    ensures subtree && FirstLetterValue(ua) == 77 && !(IPHONE_PATH <= ua) && !(LINUX_PATH <= ua) ==> r == IntToString(77)
  {
    var flv := FirstLetterValue(ua);
    var key := if subtree then SubtreeKey(SubtreePaths(flv), ua) else None;
    SubtreeKey77(ua);
    if key.Some? then IntToString(flv) + "." + key.value else IntToString(flv)
  }

  /** The table for byte 77 tried in order. */
  lemma SubtreeKey77(ua: string)
    ensures SubtreeKey(SubtreePaths(77), ua) ==
      if IPHONE_PATH <= ua then Some("iphone") else if LINUX_PATH <= ua then Some("linux") else None
  {
    var paths := SubtreePaths(77);
    assert paths[1..] == [("linux", LINUX_PATH)];
    assert paths[1..][1..] == [];
  }

  lemma {:induction false} DigitPrefixStops(ds: string, rest: string)
    requires AllDigits(ds) && |rest| > 0 && !IsDigit(rest[0])
    ensures DigitPrefix(ds + rest) == ds
  {
    if |ds| > 0 {
      assert (ds + rest)[1..] == ds[1..] + rest;
      DigitPrefixStops(ds[1..], rest);
      assert [ds[0]] + ds[1..] == ds;
    } else {
      assert ds + rest == rest;
    }
  }

  /** The shard id read as an integer, as PHP does when it meets one in arithmetic, is the first byte's value. */
  lemma ShardIdNumber(ua: string, subtree: bool)
    ensures StringToInt(ShardId(ua, subtree)) == FirstLetterValue(ua)
  {
    var flv := FirstLetterValue(ua);
    var ds := NatToString(flv);
    assert IntToString(flv) == ds;
    DigitsValueOfNatToString(flv);
    var key := if subtree then SubtreeKey(SubtreePaths(flv), ua) else None;
    var r := ShardId(ua, subtree);
    if key.None? {
      assert r == ds;
      StringToIntOfDigits(ds);
    } else {
      var tail := "." + key.value;
      assert r == ds + tail;
      assert IsDigit(ds[0]);
      assert !IsSpace(r[0]) && r[0] != '-' && r[0] != '+';
      assert SkipSpaces(r) == r;
      DigitPrefixStops(ds, tail);
    }
  }

  /** `_isShardUpToDate`: the shard file exists and is strictly newer than the data file. */
  predicate ShardUpToDate(shardMtime: Option<int>, jsonMtime: int) {
    shardMtime.Some? && shardMtime.value > jsonMtime
  }

  /** A lock file younger than the expiry belongs to a generator still at work. */
  predicate LockHeld(lockMtime: Option<int>, now: int) {
    lockMtime.Some? && lockMtime.value + LOCK_EXPIRY > now
  }

  // ----------------------------------------------------------------------------
  // Pruning and fake User-Agents

  /** The "analyze structure" loop: only the top-level branches whose edge starts with the shard's byte stay. */
  function Prune(root: Node, flv: int): (r: Node)
    ensures r.d == root.d && r.m == root.m && r.r == root.r
    ensures forall k :: k in r.c <==> k in root.c && FirstLetterValue(k) == flv
    ensures forall k :: k in r.c ==> r.c[k] == root.c[k]
  {
    root.(c := map k | k in root.c && FirstLetterValue(k) == flv :: root.c[k])
  }

  /** `_findPostWalkUAs`: the User-Agents the client rule groups name for a second walk. */
  function FakeUas(cpr: ClientRules): (r: set<string>)
    ensures forall u :: u in r <==> exists i :: 0 <= i < |cpr.groups| && cpr.groups[i].ua == Some(u)
  {
    set i | 0 <= i < |cpr.groups| && cpr.groups[i].ua.Some? :: cpr.groups[i].ua.value
  }

  /** Each fake User-Agent with the ids a want-all walk of the full trie collects for it. */
  function FakeWalks(e: Engine, root: Node, uas: set<string>): (r: map<string, map<int, int>>)
    ensures r.Keys == uas
    ensures forall u :: u in r ==> r[u] == TrieWalk.Overlay(map[], TrieWalk.Path(e, map[], root, u).0)
  {
    map u | u in uas :: TrieWalk.SeekPostWalk(e, root, u, map[])
  }

  /** `$tree['t']['c'][$fake_ua]['d'] = $d_node`: each fake User-Agent becomes a child keyed by the whole string, its `d` replaced. */
  function Graft(root: Node, fakes: map<string, map<int, int>>): (r: Node)
    ensures r.d == root.d && r.m == root.m && r.r == root.r
    ensures r.c.Keys == root.c.Keys + fakes.Keys
    ensures forall k :: k in root.c && k !in fakes ==> r.c[k] == root.c[k]
    ensures forall u :: u in fakes ==> r.c[u].d == fakes[u]
    ensures forall u :: u in fakes && u in root.c ==> r.c[u] == root.c[u].(d := fakes[u])
    ensures forall u :: u in fakes && u !in root.c ==> r.c[u] == EmptyNode.(d := fakes[u])
  {
    root.(c := map k | k in root.c.Keys + fakes.Keys ::
      if k in fakes then (if k in root.c then root.c[k] else EmptyNode).(d := fakes[k]) else root.c[k])
  }

  lemma OverlayKeepsBase(acc: map<int, int>, nodes: seq<Node>)
    ensures acc.Keys <= TrieWalk.Overlay(acc, nodes).Keys
  {
    forall k | k in acc ensures k in TrieWalk.Overlay(acc, nodes) {
      TrieWalk.OverlayDeepestWins(acc, nodes, k);
    }
  }

  /** The shard root has exactly one edge on the way of `u`: the fake User-Agent's own. */
  lemma GraftedEdge(root: Node, flv: int, fakes: map<string, map<int, int>>, u: string)
    requires u in fakes && |u| > 0 && FirstLetterValue(u) != flv
    requires forall w :: w in fakes && w != u && |w| > 0 ==> !(w <= u)
    ensures TrieWalk.ShortestChildKey(Graft(Prune(root, flv), fakes).c, u) == Some(|u|)
  {
    var c := Graft(Prune(root, flv), fakes).c;
    forall k | 1 <= k < |u| ensures !TrieWalk.HasEdge(c, u, k) {
      var w := u[..k];
      assert FirstLetterValue(w) == FirstLetterValue(u);
      assert w != u && w <= u;
    }
    assert u[..|u|] == u;
    assert TrieWalk.HasEdge(c, u, |u|);
  }

  /** A want-all walk keeps everything the root holds, deeper nodes overriding it. */
  lemma WalkCoversRoot(e: Engine, root: Node, u: string)
    ensures root.d + TrieWalk.SeekPostWalk(e, root, u, map[]) == TrieWalk.SeekPostWalk(e, root, u, map[])
  {
    var full := TrieWalk.Path(e, map[], root, u).0;
    assert full[0] == root;
    assert TrieWalk.SeekPostWalk(e, root, u, map[]) == TrieWalk.Overlay(map[] + root.d, full[1..]);
    OverlayKeepsBase(map[] + root.d, full[1..]);
  }

  /** The empty string takes no edge. */
  lemma EmptyWalk(e: Engine, node: Node)
    requires node.r == []
    ensures TrieWalk.SeekPostWalk(e, node, "", map[]) == node.d
  {
    assert TrieWalk.ShortestChildKey(node.c, "").None?;
    assert TrieWalk.Path(e, map[], node, "").0 == [node];
    assert [node][1..] == [];
    assert TrieWalk.Overlay(map[], [node]) == TrieWalk.Overlay(map[] + node.d, []);
  }

  /** In the shard, the walk of a non-empty fake User-Agent visits the root and then its grafted leaf. */
  lemma ShardPath(e: Engine, root: Node, flv: int, fakes: map<string, map<int, int>>, u: string)
    requires root.r == [] && |u| > 0
    requires u in fakes && FirstLetterValue(u) != flv
    requires forall w :: w in fakes && w != u && |w| > 0 ==> !(w <= u)
    ensures TrieWalk.Path(e, map[], Graft(Prune(root, flv), fakes), u).0 == [Graft(Prune(root, flv), fakes), EmptyNode.(d := fakes[u])]
  {
    var shard := Graft(Prune(root, flv), fakes);
    GraftedEdge(root, flv, fakes, u);
    assert u !in Prune(root, flv).c;
    var leaf := shard.c[u];
    assert leaf == EmptyNode.(d := fakes[u]);
    assert u[..|u|] == u && u[|u|..] == "";
    assert TrieWalk.ShortestChildKey(leaf.c, "").None?;
    assert TrieWalk.Path(e, map[], leaf, "").0 == [leaf];
  }

  /** The non-empty case: the root's map, then the leaf's, which already holds the root's. */
  lemma ShardServesLongFakeUa(e: Engine, root: Node, flv: int, fakes: map<string, map<int, int>>, u: string)
    requires root.r == [] && |u| > 0
    requires u in fakes && fakes[u] == TrieWalk.SeekPostWalk(e, root, u, map[])
    requires FirstLetterValue(u) != flv
    requires forall w :: w in fakes && w != u && |w| > 0 ==> !(w <= u)
    ensures TrieWalk.SeekPostWalk(e, Graft(Prune(root, flv), fakes), u, map[]) == fakes[u]
  {
    var shard := Graft(Prune(root, flv), fakes);
    WalkCoversRoot(e, root, u);
    ShardPath(e, root, flv, fakes, u);
    TwoStepWalk(e, shard, EmptyNode.(d := fakes[u]), u);
  }

  lemma TwoStepWalk(e: Engine, node: Node, leaf: Node, u: string)
    requires TrieWalk.Path(e, map[], node, u).0 == [node, leaf]
    ensures TrieWalk.SeekPostWalk(e, node, u, map[]) == node.d + leaf.d
  {
    assert [node, leaf][1..] == [leaf] && [leaf][1..] == [];
    assert TrieWalk.Overlay(map[], [node, leaf]) == TrieWalk.Overlay(map[] + node.d + leaf.d, []);
  }

  /**
   * A fake User-Agent whose first byte belongs to another shard reads, in
   * this shard, the properties a walk of the full trie gives it, provided the
   * root has no normalisation rules and no other fake User-Agent is a prefix
   * of it.
   */
  lemma ShardServesFakeUa(e: Engine, root: Node, flv: int, fakes: map<string, map<int, int>>, u: string)
    requires root.r == []
    requires u in fakes && fakes[u] == TrieWalk.SeekPostWalk(e, root, u, map[])
    requires FirstLetterValue(u) != flv
    requires forall w :: w in fakes && w != u && |w| > 0 ==> !(w <= u)
    ensures TrieWalk.SeekPostWalk(e, Graft(Prune(root, flv), fakes), u, map[]) == fakes[u]
  {
    if |u| == 0 {
      EmptyWalk(e, root);
      EmptyWalk(e, Graft(Prune(root, flv), fakes));
    } else {
      ShardServesLongFakeUa(e, root, flv, fakes, u);
    }
  }

  // ----------------------------------------------------------------------------
  // The used value ids

  /** The ids the trie below a node refers to: its own `d` and those of every descendant. Masks repeat `d` ids and add none. */
  function Ids(n: Node): set<int>
    decreases n
  {
    n.d.Values + (set k, x | k in n.c && x in Ids(n.c[k]) :: x)
  }

  lemma IdsChildren(n: Node)
    ensures forall k :: k in n.c ==> Ids(n.c[k]) <= Ids(n)
  {
    var below := set k, x | k in n.c && x in Ids(n.c[k]) :: x;
    assert Ids(n) == n.d.Values + below;
    forall k, x | k in n.c && x in Ids(n.c[k]) ensures x in Ids(n) {
      assert x in below;
    }
  }

  /** `_findValues($tree['t']['c'])`: the ids of the root's children and everything below them, not of the root itself. */
  function TrieValues(c: map<string, Node>): set<int> {
    set k, x | k in c && x in Ids(c[k]) :: x
  }

  function PairValues(ps: seq<(int, int)>): set<int> {
    set i | 0 <= i < |ps| :: ps[i].1
  }

  function RuleValues(rules: seq<UaRule>): set<int> {
    set i | 0 <= i < |rules| && rules[i].value.Some? :: rules[i].value.value
  }

  function SetValues(sets: seq<UaRuleSet>): set<int> {
    set i, x | 0 <= i < |sets| && x in RuleValues(sets[i].rules) :: x
  }

  function GroupValues(g: UaGroup): set<int> {
    (if g.matcher.Some? then PairValues(g.matcher.value) else {}) + SetValues(g.sets)
  }

  /** `_findPostWalkValues($tree['uar'])`: the value ids of the group matchers (`p` maps) and of the fixed-value rules (`v`). */
  function UarValues(uar: Option<UaRules>): set<int> {
    if uar.None? then {} else set i, x | 0 <= i < |uar.value.groups| && x in GroupValues(uar.value.groups[i]) :: x
  }

  function ClientGroupValues(g: ClientGroup): set<int> {
    (set i | 0 <= i < |g.matchers| :: g.matchers[i].value) + (set i | 0 <= i < |g.rules| :: g.rules[i].value)
  }

  /** `_findPostWalkValues($tree['cpr'], true)`: the `v` of every matcher and every override; a missing branch adds none. */
  function CprValues(cpr: Option<ClientRules>): set<int> {
    if cpr.None? then {} else set i, x | 0 <= i < |cpr.value.groups| && x in ClientGroupValues(cpr.value.groups[i]) :: x
  }

  /** The ids the shard keeps: those of the trie below the root, the `uar` rules and the `cpr` rules. */
  function UsedValues(root: Node, uar: Option<UaRules>, cpr: Option<ClientRules>): set<int> {
    TrieValues(root.c) + UarValues(uar) + CprValues(cpr)
  }

  // ----------------------------------------------------------------------------
  // Renumbering

  lemma NonEmpty(s: set<int>)
    requires s != {}
    ensures exists y :: y in s
  {
    if forall y :: y !in s {
      assert false;
    }
  }

  lemma MinExists(s: set<int>)
    requires s != {}
    ensures exists m :: m in s && forall x :: x in s ==> m <= x
    decreases |s|
  {
    NonEmpty(s);
    var y :| y in s;
    if s == {y} {
      forall x | x in s ensures y <= x {
        assert x == y;
      }
    } else {
      var t := s - {y};
      MinExists(t);
      var m :| m in t && forall x :: x in t ==> m <= x;
      var best := if y < m then y else m;
      forall x | x in s ensures best <= x {
        if x != y {
          assert x in t;
        }
      }
      assert best in s;
    }
  }

  function Min(s: set<int>): (m: int)
    requires s != {}
    ensures m in s && forall x :: x in s ==> m <= x
  {
    MinExists(s);
    var m :| m in s && forall x :: x in s ==> m <= x;
    m
  }

  lemma ConsSorted(s: set<int>, m: int, rest: seq<int>)
    requires m in s && forall x :: x in s ==> m <= x
    requires |rest| == |s - {m}|
    requires forall x :: x in rest <==> x in s - {m}
    requires forall i :: 0 <= i < |rest| ==> rest[i] in s - {m}
    requires forall i, j :: 0 <= i < j < |rest| ==> rest[i] < rest[j]
    ensures |[m] + rest| == |s|
    ensures forall x :: x in [m] + rest <==> x in s
    ensures forall i :: 0 <= i < |[m] + rest| ==> ([m] + rest)[i] in s
    ensures forall i, j :: 0 <= i < j < |[m] + rest| ==> ([m] + rest)[i] < ([m] + rest)[j]
  {
    var r := [m] + rest;
    forall i, j | 0 <= i < j < |r| ensures r[i] < r[j] {
      assert r[j] == rest[j - 1];
      if i > 0 {
        assert r[i] == rest[i - 1];
      }
    }
  }

  /** `sort($used_values)` of the distinct ids: ascending, each once. */
  function Sorted(s: set<int>): (r: seq<int>)
    ensures |r| == |s|
    ensures forall x :: x in r <==> x in s
    ensures forall i :: 0 <= i < |r| ==> r[i] in s
    ensures forall i, j :: 0 <= i < j < |r| ==> r[i] < r[j]
    decreases |s|
  {
    if s == {} then []
    else
      var m := Min(s);
      var rest := Sorted(s - {m});
      ConsSorted(s, m, rest);
      [m] + rest
  }

  /** `array_flip` of the sorted ids: each id to its position. */
  function Flip(xs: seq<int>): (r: map<int, int>)
    requires forall i, j :: 0 <= i < j < |xs| ==> xs[i] < xs[j]
    ensures forall x :: x in r <==> x in xs
    ensures forall i :: 0 <= i < |xs| ==> xs[i] in r && r[xs[i]] == i
  {
    map i | 0 <= i < |xs| :: xs[i] := i
  }

  /** The new id of each used id: its rank among the used ids. */
  function Renumbering(used: set<int>): (r: map<int, int>)
    ensures r.Keys == used
  {
    Flip(Sorted(used))
  }

  /** The value table with the unused entries removed and the rest re-indexed from 0 in key order (`array_values`). */
  function Compact(v: map<int, Value>, used: set<int>): (r: map<int, Value>)
    ensures forall i :: i in r <==> 0 <= i < |v.Keys * used|
  {
    var kept := Sorted(v.Keys * used);
    map i | 0 <= i < |kept| :: v[kept[i]]
  }

  /**
   * When every used id has a value, each used id's new number reads the
   * value its old number read, and the new numbers run densely from 0.
   */
  lemma RenumberKeepsValues(v: map<int, Value>, used: set<int>)
    requires used <= v.Keys
    ensures forall x :: x in used ==> Renumbering(used)[x] in Compact(v, used) && Compact(v, used)[Renumbering(used)[x]] == v[x]
    ensures forall i :: i in Compact(v, used) <==> 0 <= i < |used|
  {
    assert v.Keys * used == used;
    var order := Sorted(used);
    forall x | x in used
      ensures Renumbering(used)[x] in Compact(v, used) && Compact(v, used)[Renumbering(used)[x]] == v[x]
    {
      var i :| 0 <= i < |order| && order[i] == x;
      assert Renumbering(used)[x] == i;
    }
  }

  /** Renumbering keeps the order of the ids. */
  lemma RenumberKeepsOrder(used: set<int>, x: int, y: int)
    requires x in used && y in used && x < y
    ensures Renumbering(used)[x] < Renumbering(used)[y]
  {
    var order := Sorted(used);
    var i :| 0 <= i < |order| && order[i] == x;
    var j :| 0 <= j < |order| && order[j] == y;
    assert Renumbering(used)[x] == i && Renumbering(used)[y] == j;
  }

  // ----------------------------------------------------------------------------
  // Rewriting the ids

  /** Every id of `a` has a new number, and the new number reads in `v2` what the old one read in `v`. */
  ghost predicate Preserves(flip: map<int, int>, v: map<int, Value>, v2: map<int, Value>) {
    forall x :: x in flip ==> x in v && flip[x] in v2 && v2[flip[x]] == v[x]
  }

  /**
   * `_fixUsedValues` below one child: every `d` entry rewritten through the
   * new numbering. Masks are kept as the set of their property ids, which
   * the rewrite does not touch.
   */
  function FixNode(n: Node, flip: map<int, int>): (r: Node)
    requires Ids(n) <= flip.Keys
    ensures r.m == n.m && r.r == n.r && r.d.Keys == n.d.Keys && r.c.Keys == n.c.Keys
    ensures forall p :: p in n.d ==> r.d[p] == flip[n.d[p]]
    decreases n
  {
    IdsChildren(n);
    Node(map p | p in n.d :: flip[n.d[p]], n.m, map k | k in n.c :: FixNode(n.c[k], flip), n.r)
  }

  /** `b` has the shape of `a`, and every `d` entry of `b` reads in `v2` what the same entry of `a` reads in `v`. */
  ghost predicate ReadsSame(a: Node, b: Node, v: map<int, Value>, v2: map<int, Value>)
    decreases a
  {
    a.m == b.m && a.r == b.r && a.d.Keys == b.d.Keys && a.c.Keys == b.c.Keys &&
    (forall p :: p in a.d ==> a.d[p] in v && b.d[p] in v2 && v2[b.d[p]] == v[a.d[p]]) &&
    (forall k :: k in a.c ==> ReadsSame(a.c[k], b.c[k], v, v2))
  }

  /** Rewriting a sub-trie through a value-preserving renumbering changes no value it reads. */
  lemma {:induction false} FixReadsSame(n: Node, flip: map<int, int>, v: map<int, Value>, v2: map<int, Value>)
    requires Ids(n) <= flip.Keys && Preserves(flip, v, v2)
    ensures ReadsSame(n, FixNode(n, flip), v, v2)
    decreases n
  {
    IdsChildren(n);
    var r := FixNode(n, flip);
    forall p | p in n.d ensures n.d[p] in v && r.d[p] in v2 && v2[r.d[p]] == v[n.d[p]] {
      var x := n.d[p];
      assert x in n.d.Values;
      assert x in Ids(n);
      assert x in v && flip[x] in v2 && v2[flip[x]] == v[x];
    }
    forall k | k in n.c ensures ReadsSame(n.c[k], r.c[k], v, v2) {
      assert r.c[k] == FixNode(n.c[k], flip);
      FixReadsSame(n.c[k], flip, v, v2);
    }
  }

  function FixUaRule(rule: UaRule, flip: map<int, int>): UaRule
    requires rule.value.Some? ==> rule.value.value in flip
  {
    if rule.value.Some? then rule.(value := Some(flip[rule.value.value])) else rule
  }

  lemma SetValuesHas(sets: seq<UaRuleSet>, i: int)
    requires 0 <= i < |sets|
    ensures RuleValues(sets[i].rules) <= SetValues(sets)
  {
    var all := set i, x | 0 <= i < |sets| && x in RuleValues(sets[i].rules) :: x;
    assert SetValues(sets) == all;
    forall x | x in RuleValues(sets[i].rules) ensures x in all {
    }
  }

  function FixUaGroup(g: UaGroup, flip: map<int, int>): UaGroup
    requires GroupValues(g) <= flip.Keys
  {
    var matcher := if g.matcher.Some? then Some(seq(|g.matcher.value|, j requires 0 <= j < |g.matcher.value| => (g.matcher.value[j].0, flip[g.matcher.value[j].1]))) else None;
    var sets := seq(|g.sets|, i requires 0 <= i < |g.sets| =>
      SetValuesHas(g.sets, i);
      g.sets[i].(rules := seq(|g.sets[i].rules|, j requires 0 <= j < |g.sets[i].rules| => FixUaRule(g.sets[i].rules[j], flip))));
    g.(matcher := matcher, sets := sets)
  }

  /** `b` is `a` with the value id of every matcher pair and every fixed-value rule rewritten through `flip`. */
  ghost predicate UaRenamed(a: UaGroup, b: UaGroup, flip: map<int, int>) {
    && a.matcher.Some? == b.matcher.Some?
    && (a.matcher.Some? ==>
          && |b.matcher.value| == |a.matcher.value|
          && forall j :: 0 <= j < |a.matcher.value| ==>
               && a.matcher.value[j].1 in flip
               && b.matcher.value[j] == (a.matcher.value[j].0, flip[a.matcher.value[j].1]))
    && |b.sets| == |a.sets|
    && forall i :: 0 <= i < |a.sets| ==>
         && b.sets[i].refine == a.sets[i].refine
         && b.sets[i].search == a.sets[i].search
         && |b.sets[i].rules| == |a.sets[i].rules|
         && forall j :: 0 <= j < |a.sets[i].rules| ==>
              && (a.sets[i].rules[j].value.Some? ==> a.sets[i].rules[j].value.value in flip)
              && b.sets[i].rules[j] == FixUaRule(a.sets[i].rules[j], flip)
  }

  lemma UarValuesHas(uar: UaRules, i: int)
    requires 0 <= i < |uar.groups|
    ensures GroupValues(uar.groups[i]) <= UarValues(Some(uar))
  {
    var all := set i, x | 0 <= i < |uar.groups| && x in GroupValues(uar.groups[i]) :: x;
    assert UarValues(Some(uar)) == all;
    forall x | x in GroupValues(uar.groups[i]) ensures x in all {
    }
  }

  /** `_fixUsedValuesInPostWalk($tree['uar'])`: every value id of the `uar` branch rewritten through the new numbering. */
  function FixUar(uar: Option<UaRules>, flip: map<int, int>): (r: Option<UaRules>)
    requires UarValues(uar) <= flip.Keys
    ensures r.Some? == uar.Some?
    ensures uar.Some? ==> r.value.skipIds == uar.value.skipIds && r.value.regexes == uar.value.regexes && |r.value.groups| == |uar.value.groups|
    ensures uar.Some? ==> forall i :: 0 <= i < |uar.value.groups| ==> UaRenamed(uar.value.groups[i], r.value.groups[i], flip)
  {
    if uar.None? then None
    else
      var gs := uar.value.groups;
      var fixed := seq(|gs|, i requires 0 <= i < |gs| => UarValuesHas(uar.value, i); FixUaGroup(gs[i], flip));
      forall i | 0 <= i < |gs| ensures UaRenamed(gs[i], fixed[i], flip) {
        UarValuesHas(uar.value, i);
        UaGroupRenamed(gs[i], flip);
      }
      Some(uar.value.(groups := fixed))
  }

  lemma UaGroupRenamed(g: UaGroup, flip: map<int, int>)
    requires GroupValues(g) <= flip.Keys
    ensures UaRenamed(g, FixUaGroup(g, flip), flip)
  {
    forall i | 0 <= i < |g.sets| ensures RuleValues(g.sets[i].rules) <= flip.Keys {
      SetValuesHas(g.sets, i);
    }
  }

  function FixClientGroup(g: ClientGroup, flip: map<int, int>): ClientGroup
    requires ClientGroupValues(g) <= flip.Keys
  {
    g.(matchers := seq(|g.matchers|, j requires 0 <= j < |g.matchers| => g.matchers[j].(value := flip[g.matchers[j].value])),
       rules := seq(|g.rules|, j requires 0 <= j < |g.rules| => g.rules[j].(value := flip[g.rules[j].value])))
  }

  /** `b` is `a` with the value id of every matcher and every override rewritten through `flip`. */
  ghost predicate ClientRenamed(a: ClientGroup, b: ClientGroup, flip: map<int, int>) {
    && b.ua == a.ua
    && |b.matchers| == |a.matchers|
    && |b.rules| == |a.rules|
    && (forall j :: 0 <= j < |a.matchers| ==>
          a.matchers[j].value in flip && b.matchers[j] == a.matchers[j].(value := flip[a.matchers[j].value]))
    && (forall j :: 0 <= j < |a.rules| ==>
          a.rules[j].value in flip && b.rules[j] == a.rules[j].(value := flip[a.rules[j].value]))
  }

  lemma CprValuesHas(cpr: ClientRules, i: int)
    requires 0 <= i < |cpr.groups|
    ensures ClientGroupValues(cpr.groups[i]) <= CprValues(Some(cpr))
  {
    var all := set i, x | 0 <= i < |cpr.groups| && x in ClientGroupValues(cpr.groups[i]) :: x;
    assert CprValues(Some(cpr)) == all;
    forall x | x in ClientGroupValues(cpr.groups[i]) ensures x in all {
    }
  }

  /** `_fixUsedValuesInPostWalk($tree['cpr'], ..., true)`: every matcher and override value rewritten through the new numbering. */
  function FixCpr(cpr: Option<ClientRules>, flip: map<int, int>): (r: Option<ClientRules>)
    requires CprValues(cpr) <= flip.Keys
    ensures r.Some? == cpr.Some?
    ensures cpr.Some? ==> |r.value.groups| == |cpr.value.groups|
    ensures cpr.Some? ==> forall i :: 0 <= i < |cpr.value.groups| ==> ClientRenamed(cpr.value.groups[i], r.value.groups[i], flip)
  {
    if cpr.None? then None
    else
      var gs := cpr.value.groups;
      var fixed := seq(|gs|, i requires 0 <= i < |gs| => CprValuesHas(cpr.value, i); FixClientGroup(gs[i], flip));
      forall i | 0 <= i < |gs| ensures ClientRenamed(gs[i], fixed[i], flip) {
        CprValuesHas(cpr.value, i);
      }
      Some(ClientRules(fixed))
  }

  // ----------------------------------------------------------------------------
  // Optimising one shard

  /** The trie `_optimizeTree` starts from: the fake User-Agents are grafted only when there is a `cpr` branch. */
  function Grafted(t: Tree, fakes: map<string, map<int, int>>): (r: Node)
    ensures r.d == t.doc.t.d && r.m == t.doc.t.m && r.r == t.doc.t.r
    ensures r.c.Keys == if t.doc.cpr.Some? then t.doc.t.c.Keys + fakes.Keys else t.doc.t.c.Keys
  {
    if t.doc.cpr.Some? then Graft(t.doc.t, fakes) else t.doc.t
  }

  /** The ids `_optimizeTree` keeps, with a missing `cpr` branch adding none. */
  function Used(t: Tree, fakes: map<string, map<int, int>>): set<int> {
    UsedValues(Grafted(t, fakes), t.doc.uar, t.doc.cpr)
  }

  lemma TrieValuesHas(c: map<string, Node>, k: string)
    requires k in c
    ensures Ids(c[k]) <= TrieValues(c)
  {
    var all := set k, x | k in c && x in Ids(c[k]) :: x;
    assert TrieValues(c) == all;
    forall x | x in Ids(c[k]) ensures x in all {
    }
  }

  /**
   * `_optimizeTree`: graft the fake User-Agents, keep only the used value
   * ids, renumber them densely in their old order and rewrite every id below
   * the root, in `uar` and in `cpr`. The root's own `d` is neither counted
   * nor rewritten. The rest of the tree is untouched.
   */
  function Optimise(t: Tree, fakes: map<string, map<int, int>>): (r: Tree)
    ensures r.pr == t.pr && r.pn == t.pn && r.pnr == t.pnr && r.regex == t.regex
    ensures r.doc.info == t.doc.info && r.doc.p == t.doc.p && r.doc.r == t.doc.r
    ensures r.doc.t.d == t.doc.t.d && r.doc.t.m == t.doc.t.m && r.doc.t.r == t.doc.t.r
    ensures r.doc.t.c.Keys == Grafted(t, fakes).c.Keys
    ensures r.doc.uar.Some? == t.doc.uar.Some? && r.doc.cpr.Some? == t.doc.cpr.Some?
    ensures forall i :: i in r.doc.v <==> 0 <= i < |t.doc.v.Keys * Used(t, fakes)|
  {
    var root := Grafted(t, fakes);
    var used := Used(t, fakes);
    var flip := Renumbering(used);
    assert used == TrieValues(root.c) + UarValues(t.doc.uar) + CprValues(t.doc.cpr);
    assert TrieValues(root.c) <= flip.Keys && UarValues(t.doc.uar) <= flip.Keys && CprValues(t.doc.cpr) <= flip.Keys;
    var doc := t.doc.(
      v := Compact(t.doc.v, used),
      t := root.(c := FixChildren(root.c, flip)),
      uar := FixUar(t.doc.uar, flip),
      cpr := FixCpr(t.doc.cpr, flip));
    t.(doc := doc)
  }

  /** `_fixUsedValues($tree['t']['c'], ...)`: every branch below the root rewritten. */
  function FixChildren(c: map<string, Node>, flip: map<int, int>): (r: map<string, Node>)
    requires TrieValues(c) <= flip.Keys
    ensures r.Keys == c.Keys
  {
    map k | k in c :: (TrieValuesHas(c, k); FixNode(c[k], flip))
  }

  /**
   * When every used id has a value, each branch of the optimised trie reads
   * exactly the values the grafted trie read before: the renumbering is
   * invisible to a walk.
   */
  lemma OptimiseReadsSame(t: Tree, fakes: map<string, map<int, int>>)
    requires Used(t, fakes) <= t.doc.v.Keys
    ensures var root := Grafted(t, fakes); var r := Optimise(t, fakes);
      forall k :: k in root.c ==> ReadsSame(root.c[k], r.doc.t.c[k], t.doc.v, r.doc.v)
  {
    var root := Grafted(t, fakes);
    var used := Used(t, fakes);
    var flip := Renumbering(used);
    var r := Optimise(t, fakes);
    RenumberKeepsValues(t.doc.v, used);
    assert Preserves(flip, t.doc.v, r.doc.v);
    forall k | k in root.c ensures ReadsSame(root.c[k], r.doc.t.c[k], t.doc.v, r.doc.v) {
      TrieValuesHas(root.c, k);
      assert r.doc.t.c == FixChildren(root.c, flip);
      assert r.doc.t.c[k] == FixNode(root.c[k], flip);
      FixReadsSame(root.c[k], flip, t.doc.v, r.doc.v);
    }
  }

  /** Every matcher and override of the optimised `cpr` branch reads the value it read before. */
  lemma OptimiseKeepsClientValues(t: Tree, fakes: map<string, map<int, int>>, i: int, j: int)
    requires Used(t, fakes) <= t.doc.v.Keys
    requires t.doc.cpr.Some? && 0 <= i < |t.doc.cpr.value.groups|
    ensures var a := t.doc.cpr.value.groups[i]; var r := Optimise(t, fakes); var b := r.doc.cpr.value.groups[i];
      && |b.matchers| == |a.matchers| && |b.rules| == |a.rules| && b.ua == a.ua
      && (0 <= j < |a.matchers| ==>
            && b.matchers[j].prop == a.matchers[j].prop && b.matchers[j].op == a.matchers[j].op
            && b.matchers[j].value in r.doc.v && r.doc.v[b.matchers[j].value] == t.doc.v[a.matchers[j].value])
      && (0 <= j < |a.rules| ==>
            && b.rules[j].prop == a.rules[j].prop
            && b.rules[j].value in r.doc.v && r.doc.v[b.rules[j].value] == t.doc.v[a.rules[j].value])
  {
    var used := Used(t, fakes);
    RenumberKeepsValues(t.doc.v, used);
  }

  /** Every matcher pair and fixed-value rule of the optimised `uar` branch reads the value it read before. */
  lemma OptimiseKeepsUaValues(t: Tree, fakes: map<string, map<int, int>>, i: int, k: int, j: int)
    requires Used(t, fakes) <= t.doc.v.Keys
    requires t.doc.uar.Some? && 0 <= i < |t.doc.uar.value.groups|
    ensures var a := t.doc.uar.value.groups[i]; var r := Optimise(t, fakes); var b := r.doc.uar.value.groups[i];
      && (a.matcher.Some? && 0 <= j < |a.matcher.value| ==>
            b.matcher.Some? && |b.matcher.value| == |a.matcher.value| && b.matcher.value[j].0 == a.matcher.value[j].0 &&
            b.matcher.value[j].1 in r.doc.v && r.doc.v[b.matcher.value[j].1] == t.doc.v[a.matcher.value[j].1])
      && (0 <= k < |a.sets| && 0 <= j < |a.sets[k].rules| && a.sets[k].rules[j].value.Some? ==>
            |b.sets| == |a.sets| && |b.sets[k].rules| == |a.sets[k].rules| &&
            var x := a.sets[k].rules[j]; var y := b.sets[k].rules[j];
            y.prop == x.prop && y.regex == x.regex && y.pos == x.pos && y.value.Some? &&
            y.value.value in r.doc.v && r.doc.v[y.value.value] == t.doc.v[x.value.value])
  {
    var used := Used(t, fakes);
    RenumberKeepsValues(t.doc.v, used);
  }

  // ----------------------------------------------------------------------------
  // The value table without a `cpr` branch

  /**
   * The value table `_optimizeTree` writes, as the library has it: the merged
   * id list takes the `cpr` ids from a variable that stays null when there is
   * no `cpr` branch, and merging a null gives null, so no entry is kept.
   */
  function CompactAsWritten(t: Tree, fakes: map<string, map<int, int>>): (r: map<int, Value>)
    ensures t.doc.cpr.Some? ==> r == Optimise(t, fakes).doc.v
  {
    if t.doc.cpr.None? then map[] else Compact(t.doc.v, Used(t, fakes))
  }

  /**
   * A data file without client rules whose trie has a value below the root:
   * as written the shard's value table is empty, so the value is lost, while
   * the corrected table still holds it under its new id.
   */
  lemma NoCprLosesValues(t: Tree, fakes: map<string, map<int, int>>, k: string, p: int)
    requires t.doc.cpr.None? && Used(t, fakes) <= t.doc.v.Keys
    requires k in t.doc.t.c && p in t.doc.t.c[k].d
    ensures CompactAsWritten(t, fakes) == map[]
    ensures var r := Optimise(t, fakes); var x := t.doc.t.c[k].d[p];
      && x in t.doc.v
      && k in r.doc.t.c && p in r.doc.t.c[k].d
      && r.doc.t.c[k].d[p] in r.doc.v && r.doc.v[r.doc.t.c[k].d[p]] == t.doc.v[x]
  {
    OptimiseReadsSame(t, fakes);
    var r := Optimise(t, fakes);
    assert Grafted(t, fakes) == t.doc.t;
    assert ReadsSame(t.doc.t.c[k], r.doc.t.c[k], t.doc.v, r.doc.v);
  }

  // ----------------------------------------------------------------------------
  // Sub-shards

  /** The edges of `node` that are non-empty prefixes of `s` of length at least `n`. */
  function PrefixEdges(node: Node, s: string, n: nat): set<string> {
    set j | n <= j <= |s| && s[..j] in node.c :: s[..j]
  }

  /**
   * `_extractSubTree`: the copy takes `d` and `m` of `node`, then every
   * prefix of `s` that is an edge of `node`, shortest first; the whole of
   * `s` moves its branch into the copy and out of `node`, a shorter prefix
   * descends with the rest of `s`. Returns `node` as the extraction leaves
   * it and the copy, whose nodes carry no `r`.
   */
  function Extract(node: Node, s: string): (Node, Node)
    decreases |s|, 1
  {
    var (rest, below) := Scan(node, s, 1, map[]);
    (rest, Node(node.d, node.m, below, []))
  }

  /** The loop of `_extractSubTree` from prefix length `n` on, with `acc` the copy's edges so far. */
  function Scan(node: Node, s: string, n: nat, acc: map<string, Node>): (Node, map<string, Node>)
    requires 1 <= n <= |s| + 1
    decreases |s|, 0, |s| + 1 - n
  {
    if n > |s| then (node, acc)
    else
      var seek := s[..n];
      if seek !in node.c then Scan(node, s, n + 1, acc)
      else if n == |s| then (node.(c := node.c - {seek}), acc[seek := node.c[seek]])
      else
        var (child, sub) := Extract(node.c[seek], s[n..]);
        Scan(node.(c := node.c[seek := child]), s, n + 1, acc[seek := sub])
  }

  /**
   * What the extraction leaves of `node`: its own fields, every edge but
   * the whole of `s`, and every edge that does not begin `s` as it was.
   */
  lemma ExtractSource(node: Node, s: string)
    ensures var r := Extract(node, s).0;
      && r.d == node.d && r.m == node.m && r.r == node.r
      && r.c.Keys == node.c.Keys - (if |s| > 0 then {s} else {})
      && (forall k :: k in node.c && !(k <= s) ==> r.c[k] == node.c[k])
  {
    ScanSource(node, s, 1, map[]);
  }

  /**
   * What the extraction copies: `d` and `m` of `node` without `r`, the
   * edges that are prefixes of `s`, and the whole of `s` as it was.
   */
  lemma ExtractCopy(node: Node, s: string)
    ensures var r := Extract(node, s).1;
      && r.d == node.d && r.m == node.m && r.r == []
      && r.c.Keys == PrefixEdges(node, s, 1)
      && (|s| > 0 && s in node.c ==> s in r.c && r.c[s] == node.c[s])
  {
    ScanCopy(node, s, 1, map[]);
    assert |s| > 0 ==> s[..|s|] == s;
  }

  /** The source side of the loop: `node` keeps its own fields and loses at most the edge `s`; an edge that does not begin `s` stays. */
  lemma {:induction false} ScanSource(node: Node, s: string, n: nat, acc: map<string, Node>)
    requires 1 <= n <= |s| + 1
    ensures var r := Scan(node, s, n, acc);
      && r.0.d == node.d && r.0.m == node.m && r.0.r == node.r
      && r.0.c.Keys == node.c.Keys - (if n <= |s| then {s} else {})
      && (forall k :: k in node.c && !(k <= s) ==> r.0.c[k] == node.c[k])
    decreases |s| + 1 - n
  {
    if n <= |s| {
      var seek := s[..n];
      assert n == |s| ==> seek == s;
      if seek !in node.c {
        ScanSource(node, s, n + 1, acc);
      } else if n < |s| {
        var ex := Extract(node.c[seek], s[n..]);
        ScanSource(node.(c := node.c[seek := ex.0]), s, n + 1, acc[seek := ex.1]);
      }
    }
  }

  /** The copy side of the loop: it gains exactly the edges that are prefixes of `s`, and the whole of `s` moves over unchanged. */
  lemma {:induction false} ScanCopy(node: Node, s: string, n: nat, acc: map<string, Node>)
    requires 1 <= n <= |s| + 1
    ensures var r := Scan(node, s, n, acc);
      && r.1.Keys == acc.Keys + PrefixEdges(node, s, n)
      && (n <= |s| && s in node.c ==> s in r.1 && r.1[s] == node.c[s])
    decreases |s| + 1 - n
  {
    if n > |s| {
      assert PrefixEdges(node, s, n) == {};
    } else {
      var seek := s[..n];
      var later := PrefixEdges(node, s, n + 1);
      assert n == |s| ==> seek == s;
      if seek !in node.c {
        assert PrefixEdges(node, s, n) == later;
        ScanCopy(node, s, n + 1, acc);
      } else if n == |s| {
        assert PrefixEdges(node, s, n) == {s};
      } else {
        assert PrefixEdges(node, s, n) == later + {seek};
        var ex := Extract(node.c[seek], s[n..]);
        var node' := node.(c := node.c[seek := ex.0]);
        assert PrefixEdges(node', s, n + 1) == later;
        ScanCopy(node', s, n + 1, acc[seek := ex.1]);
      }
    }
  }

  /** `$subtree_fake_uas`: a sub-shard drops the fake User-Agents that begin its path or that its path begins. */
  function SubFakes(fakes: map<string, map<int, int>>, path: string): (r: map<string, map<int, int>>)
    ensures forall u :: u in r <==> u in fakes && !(u <= path) && !(path <= u)
    ensures forall u :: u in r ==> r[u] == fakes[u]
  {
    map u | u in fakes && !(u <= path) && !(path <= u) :: fakes[u]
  }

  /** The "remove unused PostWalk User-Agents" loop: the main shard drops the fake User-Agents of its own first byte. */
  function MainFakes(fakes: map<string, map<int, int>>, flv: int): (r: map<string, map<int, int>>)
    ensures forall u :: u in r <==> u in fakes && FirstLetterValue(u) != flv
    ensures forall u :: u in r ==> r[u] == fakes[u]
  {
    map u | u in fakes && FirstLetterValue(u) != flv :: fakes[u]
  }

  /** A sub-shard: the tree with the extracted copy as its trie, optimised with the fake User-Agents kept for `path`. */
  function SubShard(tree: Tree, copy: Node, fakes: map<string, map<int, int>>, path: string): Tree {
    Optimise(tree.(doc := tree.doc.(t := tree.doc.t.(c := copy.c))), SubFakes(fakes, path))
  }

  /**
   * The sub-shard loop of `_createShard` over `paths`, in table order: what
   * an extraction removes stays removed from `tree` for the later paths and
   * for the main shard. Returns that tree and the sub-shards by key.
   */
  function Subshards(tree: Tree, fakes: map<string, map<int, int>>, paths: seq<(string, string)>): (r: (Tree, seq<(string, Tree)>))
    ensures |r.1| == |paths|
    ensures forall i :: 0 <= i < |paths| ==> r.1[i].0 == paths[i].0
    decreases |paths|
  {
    if |paths| == 0 then (tree, [])
    else
      var ex := Extract(tree.doc.t, paths[0].1);
      var r := Subshards(tree.(doc := tree.doc.(t := ex.0)), fakes, paths[1..]);
      assert forall i :: 1 <= i < |paths| ==> paths[1..][i - 1] == paths[i];
      (r.0, [(paths[0].0, SubShard(tree, ex.1, fakes, paths[0].1))] + r.1)
  }

  /** The non-empty paths of a sub-shard table. */
  function PathSet(paths: seq<(string, string)>): set<string> {
    set i | 0 <= i < |paths| && |paths[i].1| > 0 :: paths[i].1
  }

  /** The main trie after the sub-shard loop: each path in turn extracted from what the earlier ones left. */
  function Remains(t: Node, paths: seq<(string, string)>): Node
    decreases |paths|
  {
    if |paths| == 0 then t else Remains(Extract(t, paths[0].1).0, paths[1..])
  }

  /** The loop changes nothing of the main tree but its trie, and leaves that trie as `Remains` says. */
  lemma {:induction false} SubshardsRemain(tree: Tree, fakes: map<string, map<int, int>>, paths: seq<(string, string)>)
    ensures Subshards(tree, fakes, paths).0 == tree.(doc := tree.doc.(t := Remains(tree.doc.t, paths)))
    decreases |paths|
  {
    if |paths| > 0 {
      var next := tree.(doc := tree.doc.(t := Extract(tree.doc.t, paths[0].1).0));
      assert Subshards(tree, fakes, paths).0 == Subshards(next, fakes, paths[1..]).0;
      SubshardsRemain(next, fakes, paths[1..]);
    }
  }

  /** The loop keeps the root's own `d`, `m` and `r`. */
  lemma {:induction false} RemainsKeepRoot(t: Node, paths: seq<(string, string)>)
    ensures var r := Remains(t, paths);
      r.d == t.d && r.m == t.m && r.r == t.r
    decreases |paths|
  {
    if |paths| > 0 {
      ExtractSource(t, paths[0].1);
      RemainsKeepRoot(Extract(t, paths[0].1).0, paths[1..]);
    }
  }

  /** After the loop the main trie has lost exactly the top-level edges that are whole paths. */
  lemma {:induction false} RemainsRemovePaths(t: Node, paths: seq<(string, string)>)
    ensures Remains(t, paths).c.Keys == t.c.Keys - PathSet(paths)
    decreases |paths|
  {
    if |paths| > 0 {
      var p := paths[0].1;
      var next := Extract(t, p).0;
      ExtractSource(t, p);
      RemainsRemovePaths(next, paths[1..]);
      PathSetCons(paths);
    }
  }

  /** The loop changes nothing of the main tree but the top-level edges. */
  lemma SubshardsKeepTree(tree: Tree, fakes: map<string, map<int, int>>, paths: seq<(string, string)>)
    ensures var rest := Subshards(tree, fakes, paths).0;
      && rest == tree.(doc := tree.doc.(t := rest.doc.t))
      && rest.doc.t.d == tree.doc.t.d && rest.doc.t.m == tree.doc.t.m && rest.doc.t.r == tree.doc.t.r
  {
    SubshardsRemain(tree, fakes, paths);
    RemainsKeepRoot(tree.doc.t, paths);
  }

  /** After the loop the main tree has lost exactly the top-level edges that are whole paths. */
  lemma SubshardsRemovePaths(tree: Tree, fakes: map<string, map<int, int>>, paths: seq<(string, string)>)
    ensures Subshards(tree, fakes, paths).0.doc.t.c.Keys == tree.doc.t.c.Keys - PathSet(paths)
  {
    SubshardsRemain(tree, fakes, paths);
    RemainsRemovePaths(tree.doc.t, paths);
  }

  lemma PathSetCons(paths: seq<(string, string)>)
    requires |paths| > 0
    ensures PathSet(paths) == (if |paths[0].1| > 0 then {paths[0].1} else {}) + PathSet(paths[1..])
  {
    var p := paths[0].1;
    forall x | x in PathSet(paths) ensures x in (if |p| > 0 then {p} else {}) + PathSet(paths[1..]) {
      var i :| 0 <= i < |paths| && |paths[i].1| > 0 && x == paths[i].1;
      if i > 0 { assert paths[1..][i - 1] == paths[i]; }
    }
    forall x | x in PathSet(paths[1..]) ensures x in PathSet(paths) {
      var i :| 0 <= i < |paths[1..]| && |paths[1..][i].1| > 0 && x == paths[1..][i].1;
      assert paths[1..][i] == paths[i + 1];
    }
  }

  /** `$tree_deputy_filename`: the key of a path that begins `ua`, the last such path in the table winning. */
  function Deputy(paths: seq<(string, string)>, ua: string): (r: Option<string>)
    ensures r.None? <==> forall i :: 0 <= i < |paths| ==> !(paths[i].1 <= ua)
    ensures r.Some? ==> exists i :: (0 <= i < |paths| && paths[i].1 <= ua && r.value == paths[i].0 &&
      forall j :: i < j < |paths| ==> !(paths[j].1 <= ua))
    decreases |paths|
  {
    if |paths| == 0 then None
    else
      var later := Deputy(paths[1..], ua);
      assert forall i :: 1 <= i < |paths| ==> paths[1..][i - 1] == paths[i];
      assert later.Some? ==> exists i :: (0 <= i < |paths| && paths[i].1 <= ua && later.value == paths[i].0 &&
          forall j :: i < j < |paths| ==> !(paths[j].1 <= ua)) by {
        if later.Some? {
          var i :| 0 <= i < |paths[1..]| && paths[1..][i].1 <= ua && later.value == paths[1..][i].0 &&
            forall j :: i < j < |paths[1..]| ==> !(paths[1..][j].1 <= ua);
          assert paths[i + 1] == paths[1..][i];
        }
      }
      if later.Some? then later
      else if paths[0].1 <= ua then Some(paths[0].0)
      else None
  }

  /** No User-Agent begins with both paths of byte 77, so the deputy is the key `getShardId` picks. */
  lemma DeputyIsShardKey(flv: int, ua: string)
    ensures Deputy(SubtreePaths(flv), ua) == SubtreeKey(SubtreePaths(flv), ua)
  {
    if flv == 77 {
      var paths := SubtreePaths(77);
      SubtreeKey77(ua);
      if IPHONE_PATH <= ua {
        assert ua[13] == 'i' && LINUX_PATH[13] == 'L';
      }
      assert paths[1..] == [("linux", LINUX_PATH)];
      assert paths[1..][1..] == [];
    }
  }

  /** What `_createShard` does: nothing under a live lock, else the main shard, the sub-shards and the deputy. */
  datatype Outcome = Locked | Written(main: Tree, subs: seq<(string, Tree)>, deputy: Option<string>)

  /**
   * `_createShard` for the shard of byte `flv`: the fake User-Agents are
   * walked on the full trie, the trie is pruned to the byte, the sub-shards
   * (when on) are cut out of it, and what remains is optimised with the fake
   * User-Agents of other bytes.
   */
  function CreateShard(e: Engine, tree: Tree, flv: int, ua: Option<string>, lockMtime: Option<int>, now: int, subtree: bool): (r: Outcome)
    ensures r.Locked? <==> LockHeld(lockMtime, now)
    ensures r.Written? ==> r.deputy == (if subtree && ua.Some? then Deputy(SubtreePaths(flv), ua.value) else None)
    ensures r.Written? ==> |r.subs| == (if subtree then |SubtreePaths(flv)| else 0)
    ensures r.Written? && subtree ==> forall i :: 0 <= i < |r.subs| ==> r.subs[i].0 == SubtreePaths(flv)[i].0
  {
    if LockHeld(lockMtime, now) then Locked
    else
      var fakes := if tree.doc.cpr.Some? then FakeWalks(e, tree.doc.t, FakeUas(tree.doc.cpr.value)) else map[];
      var pruned := tree.(doc := tree.doc.(t := Prune(tree.doc.t, flv)));
      var split := if subtree then Subshards(pruned, fakes, SubtreePaths(flv)) else (pruned, []);
      var deputy := if subtree && ua.Some? then Deputy(SubtreePaths(flv), ua.value) else None;
      Written(Optimise(split.0, MainFakes(fakes, flv)), split.1, deputy)
  }

  /** The name of a shard file: the byte's value, with `.key` for a sub-shard. */
  function ShardName(flv: int, key: Option<string>): string {
    if key.Some? then IntToString(flv) + "." + key.value else IntToString(flv)
  }

  /** The sub-shard files written in order, a later write of a name replacing the earlier. */
  function SubFiles(flv: int, subs: seq<(string, Tree)>): map<string, Tree>
    decreases |subs|
  {
    if |subs| == 0 then map[]
    else
      var last := subs[|subs| - 1];
      SubFiles(flv, subs[..|subs| - 1])[ShardName(flv, Some(last.0)) := last.1]
  }

  lemma ShardNameInjective(flv: int, a: string, b: string)
    requires ShardName(flv, Some(a)) == ShardName(flv, Some(b))
    ensures a == b
  {
    var pre := IntToString(flv) + ".";
    assert ShardName(flv, Some(a)) == pre + a && ShardName(flv, Some(b)) == pre + b;
    assert (pre + a)[|pre|..] == a && (pre + b)[|pre|..] == b;
  }

  /** With distinct keys, each sub-shard's file holds that sub-shard. */
  lemma {:induction false} SubFilesHold(flv: int, subs: seq<(string, Tree)>, i: int)
    requires 0 <= i < |subs|
    requires forall j :: 0 <= j < |subs| && j != i ==> subs[j].0 != subs[i].0
    ensures var files := SubFiles(flv, subs); ShardName(flv, Some(subs[i].0)) in files && files[ShardName(flv, Some(subs[i].0))] == subs[i].1
    decreases |subs|
  {
    var last := subs[|subs| - 1];
    if i < |subs| - 1 {
      SubFilesHold(flv, subs[..|subs| - 1], i);
      if ShardName(flv, Some(last.0)) == ShardName(flv, Some(subs[i].0)) {
        ShardNameInjective(flv, last.0, subs[i].0);
      }
    }
  }

  /** The files one shard creation leaves: the sub-shards, then the main shard. */
  function ShardFiles(flv: int, o: Outcome): (r: map<string, Tree>)
    requires o.Written?
    ensures ShardName(flv, None) in r && r[ShardName(flv, None)] == o.main
  {
    SubFiles(flv, o.subs)[ShardName(flv, None) := o.main]
  }

  /** The tree `getTreeFromFile` takes from a written outcome: the deputy's sub-shard file, else the main shard. */
  function Served(flv: int, o: Outcome): Tree
    requires o.Written?
  {
    if o.deputy.None? then o.main
    else
      var files := ShardFiles(flv, o);
      var name := ShardName(flv, o.deputy);
      if name in files then files[name] else o.main
  }

  /**
   * `getTreeFromFile`: an up-to-date shard file named by the User-Agent is
   * read as it is; otherwise the shard is created from the full tree
   * (loaded with the changeable properties) and the caller gets the full
   * tree under a live lock, else the deputy's sub-shard file or the main
   * shard. `shard` is the modification time and contents of the file the
   * User-Agent's shard id names, when it exists.
   */
  function GetTreeFromFile(e: Engine, full: Tree, ua: string, shard: Option<(int, Tree)>, jsonMtime: int,
                           lockMtime: Option<int>, now: int, subtree: bool): (r: Tree)
    ensures shard.Some? && ShardUpToDate(Some(shard.value.0), jsonMtime) ==> r == shard.value.1
    ensures !(shard.Some? && ShardUpToDate(Some(shard.value.0), jsonMtime)) && LockHeld(lockMtime, now) ==> r == full
  {
    if shard.Some? && ShardUpToDate(Some(shard.value.0), jsonMtime) then shard.value.1
    else
      var flv := FirstLetterValue(ua);
      var o := CreateShard(e, full, flv, Some(ua), lockMtime, now, subtree);
      if o.Locked? then full else Served(flv, o)
  }

  /** `getShardId` names the main shard or the sub-shard file of the key it picks. */
  lemma ShardIdIsName(ua: string, subtree: bool)
    ensures var flv := FirstLetterValue(ua);
      ShardId(ua, subtree) == ShardName(flv, if subtree then SubtreeKey(SubtreePaths(flv), ua) else None)
  {
  }

  /** A written outcome for `ua` serves the file that `getShardId` names. */
  lemma OutcomeServesShardId(ua: string, subtree: bool, o: Outcome)
    requires o.Written?
    requires var flv := FirstLetterValue(ua);
      && o.deputy == (if subtree then Deputy(SubtreePaths(flv), ua) else None)
      && |o.subs| == (if subtree then |SubtreePaths(flv)| else 0)
      && (subtree ==> forall i :: 0 <= i < |o.subs| ==> o.subs[i].0 == SubtreePaths(flv)[i].0)
    ensures var files := ShardFiles(FirstLetterValue(ua), o);
      ShardId(ua, subtree) in files && Served(FirstLetterValue(ua), o) == files[ShardId(ua, subtree)]
  {
    var flv := FirstLetterValue(ua);
    var files := ShardFiles(flv, o);
    DeputyIsShardKey(flv, ua);
    ShardIdIsName(ua, subtree);
    if o.deputy.Some? {
      var paths := SubtreePaths(flv);
      var i :| 0 <= i < |paths| && paths[i].1 <= ua && o.deputy.value == paths[i].0;
      assert flv == 77;
      SubFilesHold(flv, o.subs, i);
    }
  }

  /**
   * What `getTreeFromFile` hands back after creating the shard is what a
   * later call reads from the file `getShardId` names for the same
   * User-Agent.
   */
  lemma ServesNamedShard(e: Engine, full: Tree, ua: string, shard: Option<(int, Tree)>, jsonMtime: int,
                         lockMtime: Option<int>, now: int, subtree: bool)
    requires !(shard.Some? && ShardUpToDate(Some(shard.value.0), jsonMtime)) && !LockHeld(lockMtime, now)
    ensures var flv := FirstLetterValue(ua);
      var files := ShardFiles(flv, CreateShard(e, full, flv, Some(ua), lockMtime, now, subtree));
      && ShardId(ua, subtree) in files
      && GetTreeFromFile(e, full, ua, shard, jsonMtime, lockMtime, now, subtree) == files[ShardId(ua, subtree)]
  {
    var flv := FirstLetterValue(ua);
    OutcomeServesShardId(ua, subtree, CreateShard(e, full, flv, Some(ua), lockMtime, now, subtree));
  }

  /**
   * The shard loop of `populateCache` over the sorted top-level edges: at an
   * edge whose first byte is not that of the last shard made, the byte's
   * shard is made unless the file this edge's shard id names is in
   * `current`, the up-to-date shard files, and regeneration is not forced. A skipped byte is not remembered, so its
   * next edge checks again. Returns the bytes whose shards are made, in order.
   */
  function PopulateOrder(branches: seq<string>, current: set<string>, force: bool, subtree: bool, last: Option<int>): seq<int>
    decreases |branches|
  {
    if |branches| == 0 then []
    else
      var flv := FirstLetterValue(branches[0]);
      if last == Some(flv) || (!force && ShardId(branches[0], subtree) in current) then
        PopulateOrder(branches[1..], current, force, subtree, last)
      else
        [flv] + PopulateOrder(branches[1..], current, force, subtree, Some(flv))
  }

  /** An edge whose shard must be made: forced, or its shard file is not up to date. */
  predicate Stale(b: string, current: set<string>, force: bool, subtree: bool) {
    force || ShardId(b, subtree) !in current
  }

  /** The edges whose shard must be made that begin with byte `x`. */
  predicate StaleByte(branches: seq<string>, x: int, current: set<string>, force: bool, subtree: bool) {
    exists i :: 0 <= i < |branches| && FirstLetterValue(branches[i]) == x && Stale(branches[i], current, force, subtree)
  }

  /**
   * Over edges grouped by first byte, a byte's shard is made when one of its
   * edges is stale, and never otherwise.
   */
  lemma {:induction false} PopulateCovers(branches: seq<string>, current: set<string>, force: bool, subtree: bool, last: Option<int>)
    requires forall i, j :: 0 <= i < j < |branches| ==> FirstLetterValue(branches[i]) <= FirstLetterValue(branches[j])
    requires last.Some? ==> forall i :: 0 <= i < |branches| ==> last.value <= FirstLetterValue(branches[i])
    ensures forall x :: x in PopulateOrder(branches, current, force, subtree, last) <==>
      (Some(x) != last && StaleByte(branches, x, current, force, subtree))
    decreases |branches|
  {
    if |branches| > 0 {
      var b := branches[0];
      var flv := FirstLetterValue(b);
      var tail := branches[1..];
      assert forall i :: 0 <= i < |tail| ==> tail[i] == branches[i + 1];
      var skip := last == Some(flv) || !Stale(b, current, force, subtree);
      var next := if skip then last else Some(flv);
      PopulateCovers(tail, current, force, subtree, next);
      var r := PopulateOrder(branches, current, force, subtree, last);
      var rest := PopulateOrder(tail, current, force, subtree, next);
      assert r == if skip then rest else [flv] + rest;
      forall x ensures x in r <==> (Some(x) != last && StaleByte(branches, x, current, force, subtree)) {
        if x != flv || !Stale(b, current, force, subtree) {
          StaleByteTail(branches, x, current, force, subtree);
          if last == Some(x) && StaleByte(tail, x, current, force, subtree) {
            var i :| 0 <= i < |tail| && FirstLetterValue(tail[i]) == x && Stale(tail[i], current, force, subtree);
            assert FirstLetterValue(branches[i + 1]) == x;
          }
        }
      }
    }
  }

  lemma StaleByteTail(branches: seq<string>, x: int, current: set<string>, force: bool, subtree: bool)
    requires |branches| > 0
    requires x != FirstLetterValue(branches[0]) || !Stale(branches[0], current, force, subtree)
    ensures StaleByte(branches, x, current, force, subtree) <==> StaleByte(branches[1..], x, current, force, subtree)
  {
    var tail := branches[1..];
    if StaleByte(branches, x, current, force, subtree) {
      var i :| 0 <= i < |branches| && FirstLetterValue(branches[i]) == x && Stale(branches[i], current, force, subtree);
      assert tail[i - 1] == branches[i];
    }
    if StaleByte(tail, x, current, force, subtree) {
      var i :| 0 <= i < |tail| && FirstLetterValue(tail[i]) == x && Stale(tail[i], current, force, subtree);
      assert tail[i] == branches[i + 1];
    }
  }

  /** Over edges grouped by first byte, the bytes come out strictly increasing, so each shard is made once. */
  lemma {:induction false} PopulateIncreasing(branches: seq<string>, current: set<string>, force: bool, subtree: bool, last: Option<int>)
    requires forall i, j :: 0 <= i < j < |branches| ==> FirstLetterValue(branches[i]) <= FirstLetterValue(branches[j])
    requires last.Some? ==> forall i :: 0 <= i < |branches| ==> last.value <= FirstLetterValue(branches[i])
    ensures forall i, j :: 0 <= i < j < |PopulateOrder(branches, current, force, subtree, last)| ==>
      PopulateOrder(branches, current, force, subtree, last)[i] < PopulateOrder(branches, current, force, subtree, last)[j]
    ensures last.Some? ==> forall i :: 0 <= i < |PopulateOrder(branches, current, force, subtree, last)| ==>
      last.value < PopulateOrder(branches, current, force, subtree, last)[i]
    decreases |branches|
  {
    if |branches| > 0 {
      var b := branches[0];
      var flv := FirstLetterValue(b);
      var tail := branches[1..];
      assert forall i :: 0 <= i < |tail| ==> tail[i] == branches[i + 1];
      var skip := last == Some(flv) || !Stale(b, current, force, subtree);
      var next := if skip then last else Some(flv);
      assert forall i :: 0 <= i < |tail| ==> flv <= FirstLetterValue(tail[i]);
      PopulateIncreasing(tail, current, force, subtree, next);
      var r := PopulateOrder(branches, current, force, subtree, last);
      var rest := PopulateOrder(tail, current, force, subtree, next);
      if !skip {
        assert r == [flv] + rest;
        assert forall j :: 0 <= j < |rest| ==> flv < rest[j];
        assert last.Some? ==> last.value < flv;
      } else {
        assert r == rest;
      }
    }
  }

  /** `populateCache` makes its shards without a User-Agent, so no creation names a deputy. */
  function PopulateShards(e: Engine, tree: Tree, flvs: seq<int>, lockMtime: int -> Option<int>, now: int, subtree: bool): (r: seq<Outcome>)
    ensures |r| == |flvs|
    ensures forall i :: 0 <= i < |r| ==> (r[i].Locked? <==> LockHeld(lockMtime(flvs[i]), now))
    ensures forall i :: 0 <= i < |r| && r[i].Written? ==> r[i].deputy.None?
  {
    seq(|flvs|, i requires 0 <= i < |flvs| => CreateShard(e, tree, flvs[i], None, lockMtime(flvs[i]), now, subtree))
  }
}
