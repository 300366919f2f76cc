/**
 * The client-property overlay of `ClientProps.php`: parsing the cookie the
 * client-side script sets, choosing the first `cpr` rule group whose
 * matchers hold, and laying the client properties, an optional second tree
 * walk and the group's overrides over the detected properties.
 *
 * A cookie is a `|`-separated list of `<type><name>:<value>` pairs, for
 * example `bjs.webGl:1|sdeviceAspectRatio:16/10|iusableDisplayHeight:1050`.
 */
module ClientProps {
  import opened Wrappers
  import opened Php
  import opened Pcre
  import opened Schema
  import opened PropsHandler
  import opened ClientPropsRuleSet
  import TrieWalk

  // ----------------------------------------------------------------------------
  // Parsing the cookie

  predicate NameChar(c: char) {
    ('a' <= c <= 'z') || ('A' <= c <= 'Z') || ('0' <= c <= '9') || c == '.'
  }

  /**
   * `preg_match('/^[a-z0-9.]+$/i', $s)`: one or more letters, digits or dots;
   * PCRE's `$` also accepts a single newline at the very end.
   */
  predicate AllowedName(s: string) {
    var core := if |s| > 0 && s[|s| - 1] == '\n' then s[..|s| - 1] else s;
    |core| > 0 && forall k :: 0 <= k < |core| ==> NameChar(core[k])
  }

  /** The key a pair is stored under: `substr($typeAndName, 1)`, whose `false` for a one-character string becomes key `0`. */
  function PropKey(typeAndName: string): (k: string)
    requires |typeAndName| >= 1
    ensures |typeAndName| > 1 ==> typeAndName == typeAndName[..1] + k
  {
    if |typeAndName| == 1 then "0" else typeAndName[1..]
  }

  /** The pair is kept: its type-and-name is not `empty()` and passes the name pattern. */
  predicate Kept(typeAndName: string) {
    !EmptyString(Some(typeAndName)) && AllowedName(typeAndName)
  }

  /** The type characters a cookie may use. */
  predicate CookieType(c: char) {
    c == 'b' || c == 'i' || c == 's' || c == 'd'
  }

  /**
   * The value a kept pair stores: `b` and `i` values cast to an integer, `s`
   * and `d` values quote-trimmed and sanitised; with `typed`, then converted
   * by the type character.
   */
  function PairValue(e: Engine, c: char, raw: Option<string>, typed: bool): (v: Value)
    ensures (c == 'b' || c == 'i') && !typed ==> v == Int(StringToInt(raw.GetOr("")))
    ensures c == 'i' ==> v == Int(StringToInt(raw.GetOr("")))
    ensures c == 'b' && typed ==> v == Bool(StringToInt(raw.GetOr("")) != 0)
    ensures (c == 's' || c == 'd') ==> v == Str(e.sanitize(TrimChar(raw.GetOr(""), '"')))
  {
    var v := if c == 'b' || c == 'i' then Int(StringToInt(raw.GetOr(""))) else Str(e.sanitize(TrimChar(raw.GetOr(""), '"')));
    if typed then ConvertByType(v, [c]) else v
  }

  /**
   * `_appendPropVal`: a pair whose type-and-name is `empty()` or fails the
   * name pattern is dropped; a kept pair with a type character other than
   * `b`, `i`, `s` or `d` is an error; any other pair stores its value under
   * the name without the type character. A missing value (no `:` in the pair)
   * reads as null.
   */
  function AppendPropVal(e: Engine, props: Option<Props>, typeAndName: string, raw: Option<string>, typed: bool): (r: Result<Option<Props>, Error>)
    ensures !Kept(typeAndName) ==> r == Ok(props)
    ensures r.Err? <==> Kept(typeAndName) && !CookieType(typeAndName[0])
    ensures Kept(typeAndName) && r.Ok? ==> r.value.Some?
    ensures Kept(typeAndName) && r.Ok? ==>
      r.value.value == (if props.Some? then props.value else map[])[PropKey(typeAndName) := PairValue(e, typeAndName[0], raw, typed)]
  {
    if !Kept(typeAndName) then Ok(props)
    else if CookieType(typeAndName[0]) then
      var base := if props.Some? then props.value else map[];
      Ok(Some(base[PropKey(typeAndName) := PairValue(e, typeAndName[0], raw, typed)]))
    else Err(ClientPropertiesError)
  }

  /** The pairs of the cookie folded in order; the first error ends the fold. */
  function ParsePairs(e: Engine, pairs: seq<string>, typed: bool): (r: Result<Option<Props>, Error>)
    decreases |pairs|
  {
    if |pairs| == 0 then Ok(None)
    else
      var acc :- ParsePairs(e, pairs[..|pairs| - 1], typed);
      var (typeAndName, raw) := SplitFirst(pairs[|pairs| - 1], ':');
      AppendPropVal(e, acc, typeAndName, raw, typed)
  }

  /** The pairs of a cookie: `explode('|', trim($propStr, '"'))`. */
  function CookiePairs(s: string): seq<string> {
    Explode(TrimChar(s, '"'), '|')
  }

  /**
   * `parseClientSideProperties`: no properties for an `empty()` cookie; an
   * error when a pair has an unknown type character or when no pair survives.
   */
  function Parse(e: Engine, s: string, typed: bool): (r: Result<Option<Props>, Error>)
    ensures EmptyString(Some(s)) <==> r == Ok(None)
    ensures r.Ok? && r.value.Some? ==> |r.value.value| > 0
    ensures !EmptyString(Some(s)) && ParsePairs(e, CookiePairs(s), typed) == Ok(None) ==> r == Err(ClientPropertiesError)
    ensures !EmptyString(Some(s)) && ParsePairs(e, CookiePairs(s), typed).Err? ==> r.Err?
  {
    if EmptyString(Some(s)) then Ok(None)
    else
      var props :- ParsePairs(e, CookiePairs(s), typed);
      if props.None? || |props.value| == 0 then Err(ClientPropertiesError) else Ok(props)
  }

  /** The cookie text of one integer property. */
  function IntPair(name: string, v: int): string {
    "i" + name + ":" + IntToString(v)
  }

  /** The map a cookie of integer pairs denotes, later pairs winning. */
  function IntProps(names: seq<string>, vals: seq<int>): Props
    requires |names| == |vals|
    decreases |names|
  {
    if |names| == 0 then map[]
    else IntProps(names[..|names| - 1], vals[..|vals| - 1])[names[|names| - 1] := Int(vals[|vals| - 1])]
  }

  /** The pairs of a cookie built from names and integer values. */
  function IntPairs(names: seq<string>, vals: seq<int>): (r: seq<string>)
    requires |names| == |vals|
    ensures |r| == |names|
    ensures forall k :: 0 <= k < |r| ==> r[k] == IntPair(names[k], vals[k])
  {
    seq(|names|, k requires 0 <= k < |names| => IntPair(names[k], vals[k]))
  }

  /** A name the cookie can carry: letters, digits and dots only. */
  predicate PlainName(n: string) {
    |n| > 0 && forall k :: 0 <= k < |n| ==> NameChar(n[k])
  }

  lemma IntPairParts(name: string, v: int)
    requires PlainName(name)
    ensures '|' !in IntPair(name, v)
    ensures SplitFirst(IntPair(name, v), ':') == ("i" + name, Some(IntToString(v)))
  {
    var d := IntToString(v);
    var p := IntPair(name, v);
    assert ':' !in "i" + name by {
      forall k | 0 <= k < |"i" + name| ensures ("i" + name)[k] != ':' {
        if k > 0 {
          assert ("i" + name)[k] == name[k - 1];
        }
      }
    }
    assert forall k :: 0 <= k < |d| ==> d[k] == '-' || IsDigit(d[k]) by {
      IntToStringChars(v);
    }
    forall k | 0 <= k < |p| ensures p[k] != '|' {
      if k < |"i" + name| {
        assert p[k] == ("i" + name)[k];
      } else if k > |"i" + name| {
        assert p[k] == d[k - |"i" + name| - 1];
      }
    }
    var sf := SplitFirst(p, ':');
    assert p == "i" + name + [':'] + d;
    SplitFirstUnique("i" + name, d, ':');
  }

  lemma IntToStringChars(v: int)
    ensures forall k :: 0 <= k < |IntToString(v)| ==> IntToString(v)[k] == '-' || IsDigit(IntToString(v)[k])
  {
    StringToIntOfIntToString(v);
  }

  lemma {:induction false} SplitFirstUnique(a: string, b: string, sep: char)
    requires sep !in a
    ensures SplitFirst(a + [sep] + b, sep) == (a, Some(b))
    decreases |a|
  {
    if |a| == 0 {
      assert a + [sep] + b == [sep] + b;
      assert ([sep] + b)[1..] == b;
    } else {
      var s := a + [sep] + b;
      assert s[1..] == a[1..] + [sep] + b;
      SplitFirstUnique(a[1..], b, sep);
      assert [a[0]] + a[1..] == a;
    }
  }

  /** The type-and-name of an integer pair passes the name pattern and is stored under the plain name. */
  lemma IntNameKept(name: string)
    requires PlainName(name)
    ensures Kept("i" + name) && PropKey("i" + name) == name
  {
    var tn := "i" + name;
    assert tn[1..] == name;
    assert tn[|tn| - 1] == name[|name| - 1];
    forall k | 0 <= k < |tn| ensures NameChar(tn[k]) {
      if k > 0 {
        assert tn[k] == name[k - 1];
      }
    }
  }

  /** One integer pair adds its name with its value. */
  lemma AppendIntPair(e: Engine, acc: Option<Props>, name: string, v: int, typed: bool)
    requires PlainName(name)
    ensures AppendPropVal(e, acc, "i" + name, Some(IntToString(v)), typed) ==
      Ok(Some((if acc.Some? then acc.value else map[])[name := Int(v)]))
  {
    IntNameKept(name);
    StringToIntOfIntToString(v);
    assert PairValue(e, 'i', Some(IntToString(v)), typed) == Int(v);
  }

  /** The fold's last step: the last pair appended to what the others gave. */
  lemma ParsePairsStep(e: Engine, pairs: seq<string>, typed: bool)
    requires |pairs| > 0 && ParsePairs(e, pairs[..|pairs| - 1], typed).Ok?
    ensures var last := SplitFirst(pairs[|pairs| - 1], ':');
      ParsePairs(e, pairs, typed) == AppendPropVal(e, ParsePairs(e, pairs[..|pairs| - 1], typed).value, last.0, last.1, typed)
  {
  }

  lemma IntPairsPrefix(names: seq<string>, vals: seq<int>)
    requires |names| == |vals| && |names| > 0
    ensures IntPairs(names, vals)[..|names| - 1] == IntPairs(names[..|names| - 1], vals[..|vals| - 1])
  {
  }

  lemma {:induction false} ParseIntPairs(e: Engine, names: seq<string>, vals: seq<int>, typed: bool)
    requires |names| == |vals|
    requires forall k :: 0 <= k < |names| ==> PlainName(names[k])
    ensures |names| == 0 ==> ParsePairs(e, IntPairs(names, vals), typed) == Ok(None)
    ensures |names| > 0 ==> ParsePairs(e, IntPairs(names, vals), typed) == Ok(Some(IntProps(names, vals)))
    decreases |names|
  {
    if |names| > 0 {
      var n := |names|;
      var pairs := IntPairs(names, vals);
      IntPairsPrefix(names, vals);
      ParseIntPairs(e, names[..n - 1], vals[..n - 1], typed);
      ParsePairsStep(e, pairs, typed);
      IntPairParts(names[n - 1], vals[n - 1]);
      AppendIntPair(e, ParsePairs(e, pairs[..n - 1], typed).value, names[n - 1], vals[n - 1], typed);
    }
  }

  /** A cookie of integer pairs starts with the type character `i` and ends with a digit. */
  lemma IntCookieEnds(names: seq<string>, vals: seq<int>)
    requires |names| == |vals| && |names| > 0
    ensures var s := Implode(IntPairs(names, vals), '|');
      |s| > 0 && s[0] == 'i' && s[|s| - 1] != '"'
  {
    var pairs := IntPairs(names, vals);
    ImplodeEnds(pairs, '|');
    var last := pairs[|pairs| - 1];
    var d := IntToString(vals[|vals| - 1]);
    assert last == "i" + names[|names| - 1] + ":" + d;
    assert last[|last| - 1] == d[|d| - 1];
    IntToStringChars(vals[|vals| - 1]);
  }

  /** No pair of an integer cookie contains the pair separator. */
  lemma IntPairsUnbarred(names: seq<string>, vals: seq<int>)
    requires |names| == |vals|
    requires forall k :: 0 <= k < |names| ==> PlainName(names[k])
    ensures forall k :: 0 <= k < |names| ==> '|' !in IntPairs(names, vals)[k]
  {
    forall k | 0 <= k < |names| ensures '|' !in IntPairs(names, vals)[k] {
      IntPairParts(names[k], vals[k]);
    }
  }

  /** A cookie that is not `empty()` and whose pairs give a non-empty map parses to that map. */
  lemma ParseOfPairs(e: Engine, s: string, typed: bool, m: Props)
    requires !EmptyString(Some(s)) && ParsePairs(e, CookiePairs(s), typed) == Ok(Some(m)) && |m| > 0
    ensures Parse(e, s, typed) == Ok(Some(m))
  {
  }

  /** An integer cookie is not `empty()` and splits back into its pairs. */
  lemma IntCookiePairs(names: seq<string>, vals: seq<int>)
    requires |names| == |vals| && |names| > 0
    requires forall k :: 0 <= k < |names| ==> PlainName(names[k])
    ensures var s := Implode(IntPairs(names, vals), '|');
      !EmptyString(Some(s)) && CookiePairs(s) == IntPairs(names, vals)
  {
    var pairs := IntPairs(names, vals);
    IntPairsUnbarred(names, vals);
    ExplodeImplode(pairs, '|');
    var s := Implode(pairs, '|');
    IntCookieEnds(names, vals);
    assert s != "" && s != "0";
    TrimCharKeeps(s, '"');
    assert CookiePairs(s) == pairs;
  }

  /**
   * Round trip: a cookie built from integer properties with plain names parses
   * back to those properties, typed or not, each name carrying its value (the
   * last one, for a repeated name).
   */
  lemma ParseRoundTrip(e: Engine, names: seq<string>, vals: seq<int>, typed: bool)
    requires |names| == |vals| && |names| > 0
    requires forall k :: 0 <= k < |names| ==> PlainName(names[k])
    ensures Parse(e, Implode(IntPairs(names, vals), '|'), typed) == Ok(Some(IntProps(names, vals)))
  {
    IntCookiePairs(names, vals);
    ParseIntPairs(e, names, vals, typed);
    IntPropsNonEmpty(names, vals);
    ParseOfPairs(e, Implode(IntPairs(names, vals), '|'), typed, IntProps(names, vals));
  }

  lemma {:induction false} ImplodeEnds(parts: seq<string>, sep: char)
    requires |parts| >= 1 && forall k :: 0 <= k < |parts| ==> |parts[k]| > 0
    ensures var s := Implode(parts, sep);
      |s| > 0 && s[0] == parts[0][0] && s[|s| - 1] == parts[|parts| - 1][|parts[|parts| - 1]| - 1]
    decreases |parts|
  {
    if |parts| > 1 {
      ImplodeEnds(parts[1..], sep);
    }
  }

  lemma IntPropsNonEmpty(names: seq<string>, vals: seq<int>)
    requires |names| == |vals| && |names| > 0
    ensures |IntProps(names, vals)| > 0
  {
    assert names[|names| - 1] in IntProps(names, vals);
  }

  /** With distinct names, the parsed cookie holds exactly the names, each with its value. */
  lemma {:induction false} IntPropsContent(names: seq<string>, vals: seq<int>, i: int)
    requires |names| == |vals| && 0 <= i < |names|
    requires forall a, b :: 0 <= a < b < |names| ==> names[a] != names[b]
    ensures names[i] in IntProps(names, vals) && IntProps(names, vals)[names[i]] == Int(vals[i])
    decreases |names|
  {
    var n := |names|;
    if i < n - 1 {
      assert names[..n - 1][i] == names[i];
      assert vals[..n - 1][i] == vals[i];
      IntPropsContent(names[..n - 1], vals[..n - 1], i);
    }
  }

  // ----------------------------------------------------------------------------
  // Matching a rule group

  /**
   * `_compareValues`: by the first character of the property's typed name,
   * `s` and `b` values support only `=` and `!=` (loose equality); `i`
   * values support all six operators on their integer casts; any other type
   * never matches.
   */
  function CompareValues(detected: Value, expected: Value, op: string, typeName: string): (r: bool)
    ensures Take(typeName, 1) in {"s", "b"} ==>
      (r <==> (op == "=" && LooseEquals(detected, expected)) || (op == "!=" && !LooseEquals(detected, expected)))
    ensures Take(typeName, 1) == "i" ==>
      var d := ToInt(detected);
      var x := ToInt(expected);
      (r <==> (op == "=" && d == x) || (op == "!=" && d != x) || (op == "<" && d < x) ||
               (op == "<=" && d <= x) || (op == ">" && d > x) || (op == ">=" && d >= x))
    ensures Take(typeName, 1) !in {"s", "b", "i"} ==> !r
  {
    var c := Take(typeName, 1);
    if c == "s" || c == "b" then
      if op == "=" then LooseEquals(detected, expected)
      else if op == "!=" then !LooseEquals(detected, expected)
      else false
    else if c == "i" then
      var d := ToInt(detected);
      var x := ToInt(expected);
      if d == x && (op == "=" || op == "<=" || op == ">=") then true
      else if d > x && (op == ">" || op == ">=") then true
      else if d < x && (op == "<" || op == "<=") then true
      else d != x && op == "!="
    else false
  }

  /** The integer comparison is a total order: exactly one of `<`, `=` and `>` holds. */
  lemma IntTrichotomy(d: Value, x: Value, typeName: string)
    requires Take(typeName, 1) == "i"
    ensures var lt := CompareValues(d, x, "<", typeName);
      var eq := CompareValues(d, x, "=", typeName);
      var gt := CompareValues(d, x, ">", typeName);
      (lt || eq || gt) && !(lt && eq) && !(lt && gt) && !(eq && gt)
    ensures CompareValues(d, x, "!=", typeName) == !CompareValues(d, x, "=", typeName)
    ensures CompareValues(d, x, "<=", typeName) == !CompareValues(d, x, ">", typeName)
  {
  }

  /** One matcher holds: the property is set in the detected map and its typed value compares as the matcher asks. */
  predicate MatcherHolds(t: Tree, m: ClientMatcher, detected: Props, typed: bool) {
    var name := PropertyFromId(t, m.prop);
    Isset(detected, name) &&
    var dv := if typed then detected[name] else ConvertToTyped(t, detected[name], m.prop);
    CompareValues(dv, ValueAsTypedFromId(t, m.value, m.prop), m.op, TypedName(t.doc.p, m.prop).GetOr(""))
  }

  /** The matcher loop with its flag: set by each holding matcher, the loop left at the first failing one. */
  function MatchFrom(t: Tree, ms: seq<ClientMatcher>, detected: Props, typed: bool, matched: bool): (r: bool)
    ensures |ms| == 0 ==> r == matched
    ensures |ms| > 0 ==> (r <==> forall k :: 0 <= k < |ms| ==> MatcherHolds(t, ms[k], detected, typed))
  {
    if |ms| == 0 then matched
    else if MatcherHolds(t, ms[0], detected, typed) then
      var r := MatchFrom(t, ms[1..], detected, typed, true);
      assert (forall k :: 0 <= k < |ms| ==> MatcherHolds(t, ms[k], detected, typed)) <==>
        forall k :: 0 <= k < |ms[1..]| ==> MatcherHolds(t, ms[1..][k], detected, typed) by {
        if forall k :: 0 <= k < |ms[1..]| ==> MatcherHolds(t, ms[1..][k], detected, typed) {
          forall k | 0 <= k < |ms| ensures MatcherHolds(t, ms[k], detected, typed) {
            if k > 0 {
              assert ms[k] == ms[1..][k - 1];
            }
          }
        }
      }
      r
    else false
  }

  /** `_checkPropertiesMatch`: all matchers hold; an empty matcher list never matches. */
  function CheckPropertiesMatch(t: Tree, ms: seq<ClientMatcher>, detected: Props, typed: bool): (r: bool)
    ensures r <==> |ms| > 0 && forall k :: 0 <= k < |ms| ==> MatcherHolds(t, ms[k], detected, typed)
  {
    MatchFrom(t, ms, detected, typed, false)
  }

  /** `_getRulesToRun`: the user agent and overrides of the first group whose matchers all hold. */
  function GetRulesToRun(t: Tree, groups: seq<ClientGroup>, detected: Props, typed: bool): (r: Option<RuleSet>)
    ensures r.None? <==> forall i :: 0 <= i < |groups| ==> !CheckPropertiesMatch(t, groups[i].matchers, detected, typed)
    ensures r.Some? ==> exists i :: (0 <= i < |groups| && CheckPropertiesMatch(t, groups[i].matchers, detected, typed) &&
      r.value == FromGroup(groups[i]) &&
      forall j :: 0 <= j < i ==> !CheckPropertiesMatch(t, groups[j].matchers, detected, typed))
    decreases |groups|
  {
    if |groups| == 0 then None
    else if CheckPropertiesMatch(t, groups[0].matchers, detected, typed) then Some(FromGroup(groups[0]))
    else
      var r := GetRulesToRun(t, groups[1..], detected, typed);
      assert forall i :: 1 <= i < |groups| ==> groups[i] == groups[1..][i - 1];
      if r.Some? then
        var i :| 0 <= i < |groups[1..]| && CheckPropertiesMatch(t, groups[1..][i].matchers, detected, typed) &&
          r.value == FromGroup(groups[1..][i]) &&
          forall j :: 0 <= j < i ==> !CheckPropertiesMatch(t, groups[1..][j].matchers, detected, typed);
        assert forall j :: 0 <= j < i + 1 ==> !CheckPropertiesMatch(t, groups[j].matchers, detected, typed) by {
          forall j | 0 <= j < i + 1 ensures !CheckPropertiesMatch(t, groups[j].matchers, detected, typed) {
            if j > 0 {
              assert groups[j] == groups[1..][j - 1];
            }
          }
        }
        r
      else r
  }

  // ----------------------------------------------------------------------------
  // The overlay

  /** The overrides written over `props` in order: each rule's property name gets its value, later rules winning. */
  function Overrides(t: Tree, rules: seq<ClientRule>, typed: bool, props: Props): (r: Props)
    ensures r.Keys == props.Keys + set k | 0 <= k < |rules| :: PropertyFromId(t, rules[k].prop)
    decreases |rules|
  {
    if |rules| == 0 then props
    else
      var init := rules[..|rules| - 1];
      var last := rules[|rules| - 1];
      var r := Overrides(t, init, typed, props)[PropertyFromId(t, last.prop) := GetValue(t, last.prop, last.value, typed)];
      assert forall k :: 0 <= k < |init| ==> init[k] == rules[k];
      r
  }

  /** Some rule writes `name`. */
  ghost predicate Writes(t: Tree, rules: seq<ClientRule>, name: string) {
    exists k :: 0 <= k < |rules| && PropertyFromId(t, rules[k].prop) == name
  }

  /** A name no rule writes keeps its value; a written name gets the value of the last rule writing it. */
  lemma {:induction false} OverridesWin(t: Tree, rules: seq<ClientRule>, typed: bool, props: Props, name: string)
    ensures !Writes(t, rules, name) && name in props ==> Overrides(t, rules, typed, props)[name] == props[name]
    ensures forall k :: (0 <= k < |rules| && PropertyFromId(t, rules[k].prop) == name &&
      (forall j :: k < j < |rules| ==> PropertyFromId(t, rules[j].prop) != name)) ==>
      Overrides(t, rules, typed, props)[name] == GetValue(t, rules[k].prop, rules[k].value, typed)
    decreases |rules|
  {
    if |rules| > 0 {
      var init := rules[..|rules| - 1];
      assert forall k :: 0 <= k < |init| ==> init[k] == rules[k];
      OverridesWin(t, init, typed, props, name);
      forall k | 0 <= k < |rules| && PropertyFromId(t, rules[k].prop) == name &&
        (forall j :: k < j < |rules| ==> PropertyFromId(t, rules[j].prop) != name)
        ensures Overrides(t, rules, typed, props)[name] == GetValue(t, rules[k].prop, rules[k].value, typed)
      {
        if k < |rules| - 1 {
          assert init[k] == rules[k];
          assert forall j :: k < j < |init| ==> init[j] == rules[j];
        }
      }
    }
  }

  /**
   * What the overrides are written over once a group is selected: with a
   * User-Agent, the second lookup (untyped, because the library calls the
   * three-argument public `getProperties`) merged over the current map and the
   * client properties merged on top again; without one, the current map.
   */
  function BeforeOverrides(e: Engine, t: Tree, merged: Props, ua: Option<string>, client: Props): (r: Props)
    ensures merged.Keys <= r.Keys
    ensures ua.None? ==> r == merged
    ensures ua.Some? ==> forall k :: k in client ==> k in r && r[k] == client[k]
  {
    if ua.Some? then
      var second := TrieWalk.GetPropertiesFromTree(e, t, ua.value, None, false);
      Merge(Merge(Some(merged), Some(second)), Some(client)).value
    else merged
  }

  /** With a second lookup, client properties beat it, and it beats what was there before. */
  lemma SecondWalkPriority(e: Engine, t: Tree, merged: Props, ua: string, client: Props, name: string)
    ensures var second := TrieWalk.GetPropertiesFromTree(e, t, ua, None, false);
      var r := BeforeOverrides(e, t, merged, Some(ua), client);
      (name in client ==> r[name] == client[name]) &&
      (name !in client && name in second ==> r[name] == second[name]) &&
      (name !in client && name !in second && name in merged ==> r[name] == merged[name])
  {
  }

  /**
   * `getProperties` of the client handler. Without client properties the
   * detected ones come back as they are. Otherwise the client properties are
   * merged over them, the first matching group is selected, and its
   * overrides are written over what `BeforeOverrides` gives.
   */
  function GetProperties(e: Engine, t: Tree, cpr: ClientRules, detected: Props, client: Option<Props>, typed: bool): (r: Props)
    ensures client.None? ==> r == detected
    ensures detected.Keys <= r.Keys
    ensures client.Some? ==> client.value.Keys <= r.Keys
    ensures client.Some? ==> var merged := Merge(Some(detected), client).value;
      match GetRulesToRun(t, cpr.groups, merged, typed)
      case None => r == merged
      case Some(rs) => r == Overrides(t, rs.ruleSet, typed, BeforeOverrides(e, t, merged, rs.userAgent, client.value))
  {
    if client.None? then detected
    else
      var merged := Merge(Some(detected), client).value;
      match GetRulesToRun(t, cpr.groups, merged, typed)
      case None => merged
      case Some(rs) => Overrides(t, rs.ruleSet, typed, BeforeOverrides(e, t, merged, rs.userAgent, client.value))
  }

  /** Once a group is selected, the result is its overrides written over `BeforeOverrides`. */
  lemma Selected(e: Engine, t: Tree, cpr: ClientRules, detected: Props, client: Props, typed: bool, rs: RuleSet)
    requires GetRulesToRun(t, cpr.groups, Merge(Some(detected), Some(client)).value, typed) == Some(rs)
    ensures GetProperties(e, t, cpr, detected, Some(client), typed) ==
      Overrides(t, rs.ruleSet, typed, BeforeOverrides(e, t, Merge(Some(detected), Some(client)).value, rs.userAgent, client))
  {
  }

  /** The selected group's overrides beat everything: a name gets the value of the last rule writing it. */
  lemma OverridesBeatAll(e: Engine, t: Tree, cpr: ClientRules, detected: Props, client: Props, typed: bool, rs: RuleSet, k: int)
    requires GetRulesToRun(t, cpr.groups, Merge(Some(detected), Some(client)).value, typed) == Some(rs)
    requires 0 <= k < |rs.ruleSet|
    requires forall j :: k < j < |rs.ruleSet| ==> PropertyFromId(t, rs.ruleSet[j].prop) != PropertyFromId(t, rs.ruleSet[k].prop)
    ensures GetProperties(e, t, cpr, detected, Some(client), typed)[PropertyFromId(t, rs.ruleSet[k].prop)] ==
      GetValue(t, rs.ruleSet[k].prop, rs.ruleSet[k].value, typed)
  {
    Selected(e, t, cpr, detected, client, typed, rs);
    var base := BeforeOverrides(e, t, Merge(Some(detected), Some(client)).value, rs.userAgent, client);
    OverridesWin(t, rs.ruleSet, typed, base, PropertyFromId(t, rs.ruleSet[k].prop));
  }

  /**
   * Below the overrides: the client properties beat the second walk, which
   * beats the detected properties.
   */
  lemma OverlayPriority(e: Engine, t: Tree, cpr: ClientRules, detected: Props, client: Props, typed: bool, rs: RuleSet, name: string)
    requires GetRulesToRun(t, cpr.groups, Merge(Some(detected), Some(client)).value, typed) == Some(rs)
    requires !Writes(t, rs.ruleSet, name)
    ensures name in client ==> GetProperties(e, t, cpr, detected, Some(client), typed)[name] == client[name]
    ensures (name !in client && rs.userAgent.Some? &&
             name in TrieWalk.GetPropertiesFromTree(e, t, rs.userAgent.value, None, false)) ==>
      GetProperties(e, t, cpr, detected, Some(client), typed)[name] == TrieWalk.GetPropertiesFromTree(e, t, rs.userAgent.value, None, false)[name]
    ensures name !in client && rs.userAgent.None? && name in detected ==>
      GetProperties(e, t, cpr, detected, Some(client), typed)[name] == detected[name]
  {
    Selected(e, t, cpr, detected, client, typed, rs);
    var merged := Merge(Some(detected), Some(client)).value;
    var base := BeforeOverrides(e, t, merged, rs.userAgent, client);
    OverridesWin(t, rs.ruleSet, typed, base, name);
    if rs.userAgent.Some? {
      SecondWalkPriority(e, t, merged, rs.userAgent.value, client, name);
    }
  }

  /**
   * `propertyTypeCheck` as the library writes it: false only when a cookie is
   * given and does not contain the typed name; with no cookie at all it
   * answers true.
   */
  function PropertyTypeCheck(cookie: Option<string>, property: string, typePrefix: string): (r: bool)
    ensures r <==> cookie.None? || (|typePrefix + property| > 0 && OccursIn(typePrefix + property, cookie.value))
  {
    !(cookie.Some? && !StrContains(cookie.value, typePrefix + property))
  }
}
