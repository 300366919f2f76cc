/**
 * The decoded DeviceAtlas data file and the loaded tree built from it.
 *
 * The data file is a JSON object. `Document` is that object after decoding,
 * with the sections the classifier reads: the `$` info block, the id-to-typed-
 * name table `p`, the value table `v`, the trie `t`, the normalisation regex
 * table `r`, and the two optional post-walk rule branches `uar` (rules that read
 * properties out of the User-Agent itself) and `cpr` (client-side property
 * rules). `Tree` is a `Document` plus the lookup tables the loader derives.
 */
module Schema {
  import opened Wrappers
  import opened Php

  /**
   * A trie node: `d` maps property ids to value ids, `m` is the mask (the ids
   * whose value a deeper node may still change), `c` maps edge labels to
   * children and `r` lists the normalisation rules run on the remaining
   * User-Agent before the children are searched. An absent key in the file is
   * an empty map, set or list here: the walk treats both alike.
   */
  datatype Node = Node(d: map<int, int>, m: set<int>, c: map<string, Node>, r: seq<int>)

  /** A node with nothing in it. */
  const EmptyNode := Node(map[], {}, map[], [])

  // ----------------------------------------------------------------------------
  // The `uar` branch

  /**
   * One extraction rule: the property it sets and either a fixed value id
   * (`v`) or a regex id (`r`) with the capture group (`m`) holding the value.
   */
  datatype UaRule = UaRule(prop: int, value: Option<int>, regex: int, pos: int)

  /** A rule set: an optional refine regex (`f`), an optional search regex (`s`) and its rules. */
  datatype UaRuleSet = UaRuleSet(refine: Option<int>, search: Option<int>, rules: seq<UaRule>)

  /** A rule group: an optional property matcher (property id, value id pairs) and its rule sets (`t`). */
  datatype UaGroup = UaGroup(matcher: Option<seq<(int, int)>>, sets: seq<UaRuleSet>)

  /** The `uar` branch: skip ids (`sk`), regex tables keyed by API id (`reg`) and the rule groups (`rg`). */
  datatype UaRules = UaRules(skipIds: seq<int>, regexes: map<string, map<int, string>>, groups: seq<UaGroup>)

  // ----------------------------------------------------------------------------
  // The `cpr` branch

  /** A client-property matcher: property id, expected value id and comparison operator. */
  datatype ClientMatcher = ClientMatcher(prop: int, value: int, op: string)

  /** A client-property override: property id and the value id written over the result. */
  datatype ClientRule = ClientRule(prop: int, value: int)

  /** A client rule group: its matchers (`p`), an optional User-Agent for a second walk (`ua`) and its overrides (`r`). */
  datatype ClientGroup = ClientGroup(matchers: seq<ClientMatcher>, ua: Option<string>, rules: seq<ClientRule>)

  datatype ClientRules = ClientRules(groups: seq<ClientGroup>)

  // ----------------------------------------------------------------------------
  // Documents and trees

  /** The `$` block: the data version `Ver` (absent when the file has none) and the revision keyword `Rev`. */
  datatype Info = Info(ver: Option<real>, rev: string)

  /**
   * A decoded data file. `p` lists (property id, typed name) in file order; a
   * typed name is a type character (`s`, `b`, `i`, `d`, `u`) followed by the
   * property name. The value table is taken in ascending key order.
   */
  datatype Document = Document(
    info: Option<Info>,
    p: seq<(int, string)>,
    v: map<int, Value>,
    t: Node,
    r: Option<map<string, map<int, string>>>,
    uar: Option<UaRules>,
    cpr: Option<ClientRules>)

  /**
   * A loaded tree: the document and the lookup tables `pr` (typed name to id),
   * `pn` (name to id) and `pnr` (id to name). The post-walk handlers are
   * present exactly when their branch is: `uar` is dropped at load time when
   * changeable User-Agent properties are not wanted.
   */
  datatype Tree = Tree(
    doc: Document,
    pr: map<string, int>,
    pn: map<string, int>,
    pnr: map<int, string>,
    regex: map<string, map<int, string>>)

  /** The ids of a `p` table are distinct, as the keys of a JSON object are. */
  ghost predicate DistinctIds(p: seq<(int, string)>) {
    forall i, j :: 0 <= i < j < |p| ==> p[i].0 != p[j].0
  }

  /** No two entries of a `p` table share a property name (with the type character removed). */
  ghost predicate UniqueNames(p: seq<(int, string)>) {
    forall i, j :: 0 <= i < j < |p| ==> Drop(p[i].1, 1) != Drop(p[j].1, 1)
  }

  /** The errors the library raises; `JsonError` carries the JSON exception code. */
  datatype Error =
    | JsonError(code: int)
    | UnknownProperty(name: string)
    | InvalidProperty(name: string)
    | IncorrectPropertyType(name: string, typeName: string)
    | ClientPropertiesError

  const JSON_DECODE := 2
  const BAD_DATA := 3
  const JSON_VERSION := 4
  const NO_CLIENT_PROPERTIES_SECTION := 6

  /** The property map handed back to callers: name to value. */
  type Props = map<string, Value>

  /** `isset($props[$name])`: present and not null. */
  predicate Isset(props: Props, name: string) {
    name in props && props[name] != Null
  }
}
