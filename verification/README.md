# DeviceAtlas PHP classifier — a Dafny model

This project models the device-detection core of the DeviceAtlas PHP API. Given
a User-Agent string and, optionally, a client-side property cookie, the API
returns the properties of the device. The answer comes from a JSON data file
("the tree") holding:

- a trie keyed by User-Agent prefixes;
- a value table;
- property name tables;
- two post-walk rule branches: `uar`, which reads properties out of the
  User-Agent with regexes, and `cpr`, which overrides properties from the
  cookie and can request a second walk with a fake User-Agent.

The model covers:

- **Loading** (`Api.Load`). Decoding errors, the version floor, and the lookup
  tables `pr`, `pn` and `pnr` built from `p`. The `uar` branch is dropped when
  changeable properties are not wanted.
- **The trie walk** (`TrieWalk`). The node visit with sought sets and masks,
  normalisation-rule stripping, the shortest-prefix child scan, and
  `_matched`/`_unmatched`. It also covers the lookup of names and values, and
  the decision whether the User-Agent rules must run.
- **The `uar` engine** (`UaProps`). Skip ids, the matcher groups with refining
  regexes, the search-regex fallback, and rule extraction where the last rule
  wins.
- **The `cpr` engine** (`ClientProps`, `ClientPropsRuleSet`). Cookie parsing,
  typed comparison of values, choice of the rule group, the second walk, and
  the override priority.
- **The shared rule index** (`PostWalkRules`) and the typing and merging
  primitives (`PropsHandler`).
- **The public lookups** (`Api`). Whole-map and single-property lookups with
  and without a cookie, and the typed accessors with their type checks.
- **The shard optimiser** (`TreeOptimizer`):
  - shard ids and the sub-shard table for byte 77;
  - pruning to one first byte and grafting the fake User-Agents of the client
    rules;
  - compaction and renumbering of the value table, with every branch rewritten;
  - sub-shard extraction;
  - lock handling, the choice of deputy file, serving a shard, and the
    `populateCache` loop.
- **The caching facade** (`ApiCached`). The tree kept in memory for one shard
  id, falling back to the full tree for good, and the result cache keyed by
  User-Agent and cookie digest.

Modelling choices:

- Files, clocks, lock files and cache back ends become inputs:
  - modification times and shard contents (`TreeOptimizer.GetTreeFromFile`, `ApiCached.Env`);
  - the time now;
  - the cache provider's map.
- The regex engine, `filter_var` sanitising and MD5 are one record of total
  functions, `Pcre.Engine`, passed as a parameter.
- Values are PHP scalars (`Php.Value`). PHP's `(int)`, `(bool)`, `(string)`,
  `empty`, `trim`, `explode`, `substr` and `strpos` are written out in `Php`
  as the source relies on them.
- Masks are modelled as sets of property ids. The walk only asks whether an id
  is in the mask.

## Model

| member | source | states |
|---|---|---|
| Api.Load | lib/DA/Api.php:137-183 | Decoding failure is JSON_DECODE. A missing `$` block is BAD_DATA. A version below 0.7 (or none) is JSON_VERSION. Success holds exactly when all checks pass; the regex table defaults to empty and `uar` follows `_initPostWalkHandlers`. |
| Api.TableLastWins | lib/DA/Api.php:167-172 | A key written by the fold over `p` keeps the value of its last entry. |
| Api.LoadTables | lib/DA/Api.php:167-172 | With distinct ids and names, each entry of `p` is reachable both ways: `pr[typed] = id`, `pn[name] = id` and `pnr[id] = name`, where name is the typed name without its first character. |
| Api.LoadTablesOnly | lib/DA/Api.php:167-172 | The three lookup tables hold no key that `p` does not list. |
| Api.TypeWord | lib/DA/Api.php:259-265 | A type character has a readable name exactly when it is one of s, b, i, d, u. |
| Api.ListProperties | lib/DA/Api.php:258-271 | The listing's keys are exactly the names (typed name minus its type character) of the entries of `p`. |
| Api.ListPropertiesSpec | lib/DA/Api.php:266-269 | With distinct names, each name is listed with the readable name of its own type character. |
| Api.RevisionFromKeyword | lib/DA/Api.php:431-433 | The revision read from a keyword is no longer than the keyword and contains no `$`. |
| Api.RevisionRoundTrip | lib/DA/Api.php:431-433 | A digit string written into `$Rev: <digits> $` is read back exactly. |
| Api.ApiRevision | lib/DA/Api.php:247-249 | The API's revision is "2830". |
| Api.TreeRevision | lib/DA/Api.php:238-240 | A tree has a revision exactly when it has an info block. The revision holds no `$` and is no longer than the keyword. |
| Api.TreeRevisionOfKeyword | lib/DA/Api.php:238-240 | A data file whose `Rev` keyword is `$Rev: <digits> $` reports exactly those digits as its revision. |
| Api.IdFromProperty | lib/DA/Api.php:725-731 | A name has an id exactly when it is in `pn`, and it is that id. Otherwise the error is UnknownProperty of the name. |
| Api.GetProperties | lib/DA/Api.php:447-485 | Without a cookie, one walk with the asked typing. With a cookie: NO_CLIENT_PROPERTIES_SECTION when the tree has no `cpr`. Otherwise the result fails exactly when parsing the cookie fails, and an `empty()` cookie gives the plain untyped walk. |
| Api.GetPropertyFromTree | lib/DA/Api.php:702-712 | An unknown name is UnknownProperty. A known name is sought alone. The result succeeds exactly when the walk sets the name, and then carries that value; otherwise it is InvalidProperty. |
| Api.CookieSought | lib/DA/Api.php:669-673 | The sought set of the cookie path holds the property's id and every matcher id the client rules require. |
| Api.GetPropertyWithCookies | lib/DA/Api.php:627-687 | No `cpr` gives NO_CLIENT_PROPERTIES_SECTION, and a bad cookie fails. A property set in the cookie that no client rule outputs is answered from the cookie. An unknown name succeeds exactly when the cookie sets it. A success is never null. |
| Api.GetProperty | lib/DA/Api.php:603-609 | A null or `empty()` cookie takes the tree-only path; any other cookie takes the cookie path. A success is never null. |
| Api.TypeCheckWithCookieAsWritten | lib/DA/Api.php:764-776 | As written, the check passes whenever no cookie is given. |
| Api.AsWrittenPassesUndeclared | lib/DA/Api.php:764-776 | Without a cookie, the written check passes a name that is not declared with the type, and the documented check rejects it. |
| Api.AsWrittenExample | lib/DA/ClientProps.php:96-101 | On a one-property tree with the string property `model`, the written check lets the boolean accessor through and the documented one does not. |
| Api.TypeCheckWithCookie | lib/DA/Api.php:745-776 | The documented check passes exactly when the typed name is declared, or a cookie is given and contains the typed name. |
| Api.GetPropertyAs | lib/DA/Api.php:350-419 | Built on the corrected type check (Findings row 1). A typed accessor returns IncorrectPropertyType exactly when the type check fails (or the typed lookup itself returned that error). Otherwise it returns the typed single-property lookup. |
| Api.GetPropertyNeverTypeError | lib/DA/Api.php:603-731 | The single-property lookups never raise IncorrectPropertyType themselves. |
| Api.ParseErrorKind | lib/DA/ClientProps.php:172-224 | Cookie parsing fails only with ClientPropertiesError. |
| Api.GetPropertyAsAsWritten | lib/DA/Api.php:350-419 | The accessors as written: without a cookie, the plain typed lookup whatever the name's declared type. Whenever the documented check passes, they agree with the corrected accessor. |
| Api.AsWrittenAccessorSkipsCheck | lib/DA/Api.php:350-419 | For a name not declared with the accessor's type and no cookie, the written accessor never reports IncorrectPropertyType and the corrected one always does. |
| Api.TypedAccessorCheck | lib/DA/Api.php:350-419 | Corrected accessor (Findings row 1): with the documented check, an accessor reports IncorrectPropertyType exactly when the check fails. |
| PropsHandler.TypedName | lib/DA/PropsHandler.php:89 | A property id has a typed name exactly when some entry of `p` has that id. The name is that of the last such entry. |
| Api.PropertyFromIdOfLoad | lib/DA/PropsHandler.php:73-75 | On a loaded tree, an id is named by the last `p` entry carrying it, without its type character. An id no entry carries gives the empty key. |
| PropsHandler.ConvertByType | lib/DA/PropsHandler.php:93-114 | `b` gives a boolean: a string is true exactly when it is "1" or "true" in any case, and another value follows `(bool)`. `s` and `d` give `(string)`. `i` gives `(int)`. Any other type leaves the value unchanged. |
| PropsHandler.ConvertFixesTyped | lib/DA/PropsHandler.php:93-114 | A value already of the requested type is unchanged by the conversion. |
| PropsHandler.ConvertIdempotent | lib/DA/PropsHandler.php:87-114 | Converting twice with the same type is converting once. |
| PropsHandler.ConvertToTyped | lib/DA/PropsHandler.php:87-91 | The value takes the property's declared type: a boolean for `b`, a string for `s` and `d`, an integer for `i`. A property with no typed name leaves the value as it is. |
| PropsHandler.GetValue | lib/DA/PropsHandler.php:54-62 | The untyped value is the value-table entry, null when the table lacks it. The typed value has the property's declared type (boolean, string or integer), and a property with no typed name gives the raw entry. |
| PropsHandler.ValueAsTypedFromId | lib/DA/PropsHandler.php:127-129 | The typed lookup's value has the property's declared type. A missing entry of an untyped property is null. |
| PropsHandler.TypedValueStable | lib/DA/PropsHandler.php:54-62 | A typed value already has its property's type: converting it again changes nothing. |
| PropsHandler.Merge | lib/DA/PropsHandler.php:140-146 | A map base stays a map. Its keys become the union of both sides, the overlay's values win, and keys not in the overlay keep their values. A non-map base, or a null overlay, changes nothing. |
| PropsHandler.MergeIdempotent | lib/DA/PropsHandler.php:140-146 | Merging the same overlay twice is merging it once. |
| PropsHandler.InitHandlers | lib/DA/PropsHandler.php:22-40 | `uar` stays exactly when it is present and changeable properties are wanted, and stays unchanged; nothing else in the document changes. |
| PostWalkRules.AddIds | lib/DA/ClientProps.php:134-143 | Adding a group's matcher ids gives exactly the accumulator plus those ids. |
| PostWalkRules.AddRuleIds | lib/DA/PostWalkRules.php:80-95 | Adding rule ids gives exactly the accumulator plus every property id of every rule of every set. |
| PostWalkRules.InitMonotone | lib/DA/PostWalkRules.php:55-70 | The set-up loop never removes an id from either index. |
| PostWalkRules.InitFromMembers | lib/DA/PostWalkRules.php:55-70 | An id ends up in an index exactly when it was in the accumulator or some group's matchers/rules mention it. |
| PostWalkRules.InitMembers | lib/DA/PostWalkRules.php:124-142 | `propIsOutput` holds exactly for ids some rule writes. `getRequiredProperties` holds exactly the ids some matcher names. |
| PostWalkRules.UaView | lib/DA/UaProps.php:87-115 | A `uar` group is seen through its matcher's property ids (none without a matcher) and, per rule set, its rules' property ids. |
| PostWalkRules.ClientView | lib/DA/ClientProps.php:134-155 | A `cpr` group is seen through its matchers' property ids and its override list wrapped as a single rule set. |
| PostWalkRules.UaOutputs | lib/DA/PostWalkRules.php:124-126 | The `uar` handler outputs an id exactly when some rule of some set of some group writes it. |
| PostWalkRules.UaRequired | lib/DA/PostWalkRules.php:140-142 | The `uar` handler requires an id exactly when some group's matcher names it. |
| PostWalkRules.ClientOutputs | lib/DA/PostWalkRules.php:124-126 | The `cpr` handler outputs an id exactly when some group's overrides write it. |
| PostWalkRules.ClientRequired | lib/DA/PostWalkRules.php:140-142 | The `cpr` handler requires an id exactly when some group's matchers name it. |
| TrieWalk.Normalise | lib/DA/Api.php:828-833 | No rules leave the string unchanged. When stripping never lengthens a string, normalising does not either. |
| TrieWalk.ShortestFrom | lib/DA/Api.php:835-842 | The scan from length n finds the least length at or above n whose prefix labels a child, or reports that none does. |
| TrieWalk.ShortestChildKey | lib/DA/Api.php:835-842 | The child scan picks the shortest non-empty prefix of the rest that labels a child, and finds none exactly when no prefix does. |
| TrieWalk.Visit | lib/DA/Api.php:794-809 | Without a sought set nothing stops. With one, the sought set only shrinks, and the walk stops exactly when a non-empty set becomes empty. Found ids are kept. |
| TrieWalk.VisitSpec | lib/DA/Api.php:794-809 | A node records the ids of its `d` that are sought (all of them with no sought set) over earlier findings. A sought id leaves the set exactly when the node records it and its mask lacks it. |
| TrieWalk.Seek | lib/DA/Api.php:791-844 | A want-all walk never stops early, and the edges taken only grow. |
| TrieWalk.SeekDescends | lib/DA/Api.php:835-841 | When the visit does not stop and the scan picks length n, the walk appends that edge and continues in that child with the rest of the string. |
| TrieWalk.SeekEnds | lib/DA/Api.php:803-842 | When the sought set runs empty, or no prefix labels a child, no further edge is taken. |
| TrieWalk.Path | lib/DA/Api.php:826-843 | The path has one more node than edges and starts at the root. |
| TrieWalk.SeekAll | lib/DA/Api.php:791-844 | The want-all walk lays the `d` maps of its path over the found ids (deeper wins) and follows exactly the path's edges. |
| TrieWalk.OverlayDeepestWins | lib/DA/Api.php:796 | An id is in the overlay exactly when the start map or some node holds it. Its value is that of the deepest holder, else the start map's. |
| TrieWalk.SeekPostWalk | lib/DA/Api.php:870-875 | The fake-User-Agent walk is the overlay of its path's property maps, with no normalisation rules. |
| TrieWalk.SoughtFollowsPath | lib/DA/Api.php:791-844 | A sought walk takes a prefix of the want-all route, and the whole route when it does not stop. |
| TrieWalk.MatchedWithinInput | lib/DA/Api.php:835-839 | When stripping never lengthens, the matched text is no longer than the User-Agent. |
| TrieWalk.MatchedIsPrefix | lib/DA/Api.php:835-839 | Without normalisation rules the matched edges spell a prefix of the User-Agent. |
| TrieWalk.NameIds | lib/DA/Api.php:580 | Every name maps to an id that the walk found. |
| TrieWalk.NameIdsUnique | lib/DA/Api.php:580 | With distinct names, a property's name is present exactly when its id was found, and it maps to that id. |
| TrieWalk.NameIdsFrom | lib/DA/Api.php:580 | Every name present comes from an entry of `p` whose id was found. |
| TrieWalk.LookupNameValue | lib/DA/Api.php:578-585 | The names reported are exactly the names of the found ids. |
| TrieWalk.LookupNameValueSpec | lib/DA/Api.php:578-585 | With distinct names, a property is reported exactly when it was found, with the found value raw or typed. |
| TrieWalk.PlanWalk | lib/DA/Api.php:510-529 | With no sought set, the rules run and nothing is sought. With one, the rules run exactly when `uar` exists and outputs a sought id; then its required ids join the sought set, which is otherwise unchanged. |
| TrieWalk.GetPropertiesFromTree | lib/DA/Api.php:504-566 | The walk's properties are kept, and the result is just them when the User-Agent rules do not run. |
| TrieWalk.UaRulesOverlay | lib/DA/Api.php:551-562 | When the User-Agent rules run, the result is the walk's properties with the rules' results laid over them. A name the rules report carries their value, every other name keeps the walk's value, and no other name appears. When the rules report nothing, the walk's properties stand. |
| TrieWalk.UaNames | lib/DA/UaProps.php:157-173 | Every name the User-Agent rules report is a property name or the empty key. |
| TrieWalk.KeepsWalkExtras | lib/DA/Api.php:546-563 | `_matched` and `_unmatched` survive the rule merge when no property has those names. |
| TrieWalk.MatchedUnmatched | lib/DA/Api.php:532-549 | Without normalisation rules, a want-all lookup reports `_matched` and `_unmatched` as strings that together spell the trimmed User-Agent. |
| UaProps.SkipUaRules | lib/DA/UaProps.php:191-206 | The rules are skipped exactly when some skip id was found with a truthy raw value. |
| UaProps.MatchFrom | lib/DA/UaProps.php:304-332 | Over a non-empty matcher list the loop's flag ends true exactly when every pair was found with its expected value id. |
| UaProps.CheckPropertiesMatch | lib/DA/UaProps.php:304-332 | A matcher holds exactly when it is non-empty and every pair holds. |
| UaProps.FindRulesToRunByRegex | lib/DA/UaProps.php:368-388 | The rules of the first set whose regex of the given kind matches, and none exactly when no set's does. |
| UaProps.GroupRules | lib/DA/UaProps.php:259-282 | A group without a holding matcher contributes nothing. With one set it contributes that set's rules; with two or more, the refine-regex choice. |
| UaProps.FindRulesByProperties | lib/DA/UaProps.php:253-290 | Nothing when no group contributes. Every rule in the result comes from a contributing group. |
| UaProps.FindRulesByPropertiesAppend | lib/DA/UaProps.php:256-287 | Step 1 over two runs of groups concatenates the two results, keeping group order. |
| UaProps.FindRulesByRegex | lib/DA/UaProps.php:343-354 | The search-regex rules of the first group that has any, and none exactly when no group has any. |
| UaProps.GetUaPropertyRules | lib/DA/UaProps.php:228-242 | The step-1 rules come first, then the search rules, so a search rule's value beats a step-1 rule's. Every rule to run belongs to a group whose matcher chose it or whose search regex matched, and there are none when no group contributes either way. |
| UaProps.RuleOutcome | lib/DA/UaProps.php:144-177 | A rule produces only when it is sought (or nothing is sought), under its property's name. A fixed-value rule produces its value; a regex rule produces the non-empty capture at its position. |
| UaProps.ExtractProperties | lib/DA/UaProps.php:139-182 | The result is null exactly when no rule produces. |
| UaProps.ExtractNames | lib/DA/UaProps.php:144-178 | A name is in the result exactly when some rule produced it. |
| UaProps.ExtractLastWins | lib/DA/UaProps.php:144-178 | A name's value is that of the last rule producing it. |
| UaProps.GetProperties | lib/DA/UaProps.php:54-76 | Null exactly when a skip property fires or no chosen rule produces a value. Every reported name is produced by some chosen rule. |
| UaProps.SoughtOnly | lib/DA/UaProps.php:149-151 | With a sought set, every reported name comes from a rule for a sought property. |
| ClientProps.PropKey | lib/DA/ClientProps.php:222 | A pair is stored under its type-and-name without the first character. |
| ClientProps.PairValue | lib/DA/ClientProps.php:204-220 | `b` and `i` cast the raw text with `(int)`, and typed `b` then becomes a boolean. `s` and `d` trim quotes and sanitise. |
| ClientProps.AppendPropVal | lib/DA/ClientProps.php:199-224 | A pair whose name fails `empty()` or the pattern is ignored. A kept pair with an unknown type character is ClientPropertiesError. Otherwise the pair is stored under its key. |
| ClientProps.Parse | lib/DA/ClientProps.php:172-186 | An `empty()` cookie parses to null. A success is never an empty map. A cookie whose pairs give nothing is ClientPropertiesError, and a pair error propagates. |
| ClientProps.IntPairs | lib/DA/ClientProps.php:175 | A cookie built from integer properties has one pair per name, each written as `i<name>:<value>`. |
| ClientProps.ParseIntPairs | lib/DA/ClientProps.php:176-179 | Parsing the pairs of integer properties gives the map of those properties, later names winning. |
| ClientProps.ParseRoundTrip | lib/DA/ClientProps.php:172-224 | Writing integer properties with plain names as a cookie and parsing it gives the properties back. |
| ClientProps.IntPropsContent | lib/DA/ClientProps.php:222 | With distinct names, each name maps to its own integer. |
| ClientProps.CompareValues | lib/DA/ClientProps.php:311-345 | String and boolean types support only `=` and `!=`, by loose equality. The integer type compares `(int)` values with all six operators. Any other type is false. |
| ClientProps.IntTrichotomy | lib/DA/ClientProps.php:324-341 | On integers exactly one of `<`, `=`, `>` holds. `!=` negates `=` and `<=` negates `>`. |
| ClientProps.MatchFrom | lib/DA/ClientProps.php:265-299 | Over a non-empty list the loop's flag ends true exactly when every matcher holds. |
| ClientProps.CheckPropertiesMatch | lib/DA/ClientProps.php:265-299 | A matcher list holds exactly when it is non-empty and every matcher finds its property and compares as asked. |
| ClientProps.GetRulesToRun | lib/DA/ClientProps.php:232-249 | The rule set of the first group whose matchers hold, and none exactly when no group's do. |
| ClientProps.Overrides | lib/DA/ClientProps.php:70-81 | The overlay adds exactly the names of the rules' properties. |
| ClientProps.OverridesWin | lib/DA/ClientProps.php:70-81 | A name no rule writes keeps its value; a written name gets the last writing rule's value. |
| ClientProps.BeforeOverrides | lib/DA/ClientProps.php:53-68 | Without a second User-Agent the merged map stays. With one, every client property keeps its cookie value over the second walk. |
| ClientProps.SecondWalkPriority | lib/DA/ClientProps.php:58-67 | Cookie properties beat the second walk, which beats what was there before. |
| ClientProps.GetProperties | lib/DA/ClientProps.php:38-85 | A null cookie gives the detected map unchanged. Otherwise the result keeps every detected and every cookie name. |
| ClientProps.Selected | lib/DA/ClientProps.php:48-81 | Once a group is selected, the result is its overrides over the second-walk merge. |
| ClientProps.OverridesBeatAll | lib/DA/ClientProps.php:70-81 | An override's value beats the cookie, both walks and the detected map. |
| ClientProps.OverlayPriority | lib/DA/ClientProps.php:44-67 | For a name no override writes, the cookie's value wins, then the second walk's, then the detected value. |
| ClientProps.PropertyTypeCheck | lib/DA/ClientProps.php:96-101 | The cookie check passes exactly when no cookie is given or it contains the typed name. |
| TreeOptimizer.SubtreeKey | lib/DA/TreeOptimizer.php:372-379 | The key of the first table path that begins the User-Agent (no earlier path does), and none exactly when none does. |
| TreeOptimizer.ShardId | lib/DA/TreeOptimizer.php:370-383 | The shard id is the first byte's value. For byte 77 with sub-shards on, `.iphone` or `.linux` follows when the User-Agent begins with that path, the iPhone path tried first. |
| TreeOptimizer.SubtreeKey77 | lib/DA/TreeOptimizer.php:36-41 | The byte-77 table is tried iPhone path first, then Linux path. |
| TreeOptimizer.ShardIdNumber | lib/DA/TreeOptimizer.php:370-383 | Any shard id read as an integer is the first byte's value. |
| TreeOptimizer.Prune | lib/DA/TreeOptimizer.php:131-136 | Only the root's edges that start with the shard's byte stay, unchanged, and the root's own fields are kept. |
| TreeOptimizer.FakeUas | lib/DA/TreeOptimizer.php:316-328 | The fake User-Agents are exactly those some client rule group names. |
| TreeOptimizer.FakeWalks | lib/DA/TreeOptimizer.php:123-129 | Each fake User-Agent gets the ids a want-all walk of the full trie collects for it. |
| TreeOptimizer.Graft | lib/DA/TreeOptimizer.php:253-258 | Each fake User-Agent becomes a root edge whose `d` is its walk result. Existing such edges keep their children and other edges are unchanged. |
| TreeOptimizer.GraftedEdge | lib/DA/TreeOptimizer.php:131-136 | In the pruned shard, the walk of a fake User-Agent of another byte picks its own grafted edge. |
| TreeOptimizer.ShardServesFakeUa | lib/DA/TreeOptimizer.php:123-136 | In the shard, the second walk of a fake User-Agent of another byte (no fake being a prefix of it) finds exactly what it found in the full trie. |
| TreeOptimizer.Sorted | lib/DA/TreeOptimizer.php:262-263 | `sort` of the distinct used ids: strictly ascending, holding exactly the ids. |
| TreeOptimizer.Flip | lib/DA/TreeOptimizer.php:264 | `array_flip` maps each id to its position. |
| TreeOptimizer.Compact | lib/DA/TreeOptimizer.php:265-272 | The compacted value table is indexed densely from 0, one entry per used id that has a value. |
| TreeOptimizer.RenumberKeepsValues | lib/DA/TreeOptimizer.php:262-272 | Each used id's new number reads in the compacted table what the old id read before. |
| TreeOptimizer.RenumberKeepsOrder | lib/DA/TreeOptimizer.php:263-264 | Renumbering keeps the order of ids. |
| TreeOptimizer.FixNode | lib/DA/TreeOptimizer.php:330-350 | Rewriting a branch keeps its shape and replaces each `d` value id by its new number. |
| TreeOptimizer.FixReadsSame | lib/DA/TreeOptimizer.php:330-350 | Rewritten through a value-preserving renumbering, a branch reads the same values. |
| TreeOptimizer.FixUar | lib/DA/TreeOptimizer.php:352-364 | The `uar` branch keeps its skip ids, regexes and groups. Every matcher value and fixed-value rule is renamed through the new numbering. |
| TreeOptimizer.FixCpr | lib/DA/TreeOptimizer.php:352-364 | Every `cpr` matcher and override value is renamed through the new numbering; the group count is kept. |
| TreeOptimizer.Optimise | lib/DA/TreeOptimizer.php:238-280 | Property tables, info, regexes and the root's own fields are kept. The root edges are those of the grafted trie, and both branches keep their presence. The value table is dense, one entry per used id that has a value. |
| TreeOptimizer.OptimiseReadsSame | lib/DA/TreeOptimizer.php:262-280 | With every used id valued, each branch of the optimised trie reads the values the grafted trie read. |
| TreeOptimizer.OptimiseKeepsClientValues | lib/DA/TreeOptimizer.php:276-279 | Every `cpr` matcher and override reads the same value after optimising. |
| TreeOptimizer.OptimiseKeepsUaValues | lib/DA/TreeOptimizer.php:276 | Every `uar` matcher pair and fixed-value rule reads the same value after optimising. |
| TreeOptimizer.CompactAsWritten | lib/DA/TreeOptimizer.php:246-272 | As written, with a `cpr` branch the value table is the corrected one. |
| TreeOptimizer.NoCprLosesValues | lib/DA/TreeOptimizer.php:247-272 | Without `cpr`, the value table as written is empty while the corrected one still reads each branch value. |
| TreeOptimizer.ExtractSource | lib/DA/TreeOptimizer.php:205-236 | Extraction keeps the source root's fields and removes exactly the edge equal to the path. Edges that do not begin the path are unchanged. |
| TreeOptimizer.ExtractCopy | lib/DA/TreeOptimizer.php:205-236 | The copy has the root's `d` and `m` without rules. Its edges are exactly the source edges that are non-empty prefixes of the path, and the whole path moves over unchanged. |
| TreeOptimizer.ScanSource | lib/DA/TreeOptimizer.php:220-234 | The scan from length n keeps the root's fields and removes only the whole path. |
| TreeOptimizer.ScanCopy | lib/DA/TreeOptimizer.php:220-234 | The scan from length n adds exactly the prefix edges from n on. |
| TreeOptimizer.SubFakes | lib/DA/TreeOptimizer.php:156-164 | A sub-shard drops exactly the fake User-Agents that are a prefix of its path or have it as a prefix. |
| TreeOptimizer.MainFakes | lib/DA/TreeOptimizer.php:180-187 | The main shard drops exactly the fake User-Agents of its own byte. |
| TreeOptimizer.Subshards | lib/DA/TreeOptimizer.php:145-178 | One sub-shard per table path, in order, under the path's key. |
| TreeOptimizer.SubshardsRemain | lib/DA/TreeOptimizer.php:147-153 | The loop changes only the main trie, which is the chain of extractions. |
| TreeOptimizer.RemainsRemovePaths | lib/DA/TreeOptimizer.php:225-229 | After the loop the main trie has lost exactly the top-level edges equal to a non-empty path. |
| TreeOptimizer.SubshardsKeepTree | lib/DA/TreeOptimizer.php:147-178 | The loop changes nothing of the tree but the trie's edges. |
| TreeOptimizer.SubshardsRemovePaths | lib/DA/TreeOptimizer.php:147-178 | The main tree ends without the top-level edges equal to a table path. |
| TreeOptimizer.Deputy | lib/DA/TreeOptimizer.php:172-175 | The key of the last table path that begins the User-Agent (no later path does), and none exactly when no path does. |
| TreeOptimizer.DeputyIsShardKey | lib/DA/TreeOptimizer.php:172-175 | No User-Agent begins with both byte-77 paths, so the deputy is the key `getShardId` picks. |
| TreeOptimizer.CreateShard | lib/DA/TreeOptimizer.php:102-203 | Built on the corrected `_optimizeTree` (Findings row 2). Nothing is written exactly when a lock younger than 10 seconds exists. Otherwise, with sub-shards on, there is one sub-shard per table path under its key. A deputy is named only when sub-shards are on and a User-Agent is given, and it is then the key of a path beginning the User-Agent. |
| TreeOptimizer.ShardNameInjective | lib/DA/TreeOptimizer.php:168 | Distinct keys give distinct sub-shard file names. |
| TreeOptimizer.SubFilesHold | lib/DA/TreeOptimizer.php:166-169 | With distinct keys, each sub-shard's file holds that sub-shard. |
| TreeOptimizer.ShardFiles | lib/DA/TreeOptimizer.php:189-191 | The main shard file holds the main shard. |
| TreeOptimizer.GetTreeFromFile | lib/DA/TreeOptimizer.php:52-100 | Built on the corrected `_optimizeTree` (Findings row 2). An up-to-date shard is read as is. Otherwise a live lock gives the full tree. |
| TreeOptimizer.ShardIdIsName | lib/DA/TreeOptimizer.php:370-383 | The shard id is the file name of the main shard or of the picked sub-shard. |
| TreeOptimizer.OutcomeServesShardId | lib/DA/TreeOptimizer.php:94-99 | A written outcome serves the file that `getShardId` names. |
| TreeOptimizer.ServesNamedShard | lib/DA/TreeOptimizer.php:52-100 | Over the corrected `_optimizeTree` (Findings row 2): after creating the shard, the tree handed back is what a later call reads from the file `getShardId` names. |
| TreeOptimizer.PopulateCovers | lib/DA/TreeOptimizer.php:389-409 | Over sorted edges, a byte's shard is made exactly when one of its edges is forced or its shard is not up to date. |
| TreeOptimizer.PopulateIncreasing | lib/DA/TreeOptimizer.php:389-409 | Over sorted edges the shards are made in strictly increasing byte order, each once. |
| TreeOptimizer.PopulateShards | lib/DA/TreeOptimizer.php:395-409 | Each byte's creation is locked out exactly under a live lock, and none names a deputy. |
| ApiCached.Initial | lib/DA/ApiCached.php:97-114 | A new object has no tree and no shard id, the configured optimiser flag, and an empty cache when a provider is given. |
| ApiCached.ShardSourceOf | lib/DA/TreeOptimizer.php:52-100 | An up-to-date shard file is read as it is. Otherwise loading fails exactly when the full tree fails to load, and the tree is what `getTreeFromFile` hands back. It comes from memory, as the full tree, under a live lock. |
| ApiCached.ShardTree | lib/DA/ApiCached.php:236-241 | Corrected handler set-up (Findings row 4): the shard keeps `uar`, and so its handler, exactly when changeable properties are configured and the shard has `uar`. Nothing else of the shard changes. |
| ApiCached.HandlerAsWritten | lib/DA/ApiCached.php:236-241 | As written: configured with changeable properties and a shard with `uar`, the handler is built over the shard. Configured without them, it never is. |
| ApiCached.HandlerAsWrittenLeaks | lib/DA/PropsHandler.php:25-33 | Configured without changeable properties, on a data file with `uar`: the corrected shard has no handler, while as written a stale handler over the full tree or a decoded empty array remains. |
| ApiCached.UpToDateShardBreaks | lib/DA/TreeOptimizer.php:55-57 | Configured without changeable properties, an up-to-date shard file with `uar` leaves, as written, the decoded empty array where the walk calls the handler. The corrected shard has no handler. |
| ApiCached.LoadTree | lib/DA/ApiCached.php:224-253 | The cache is untouched, and a success leaves a tree. The optimiser is never turned on. With it on, a tree in memory is that of the User-Agent's shard id. |
| ApiCached.LoadTreeCoherent | lib/DA/ApiCached.php:224-253 | Loading keeps the tree in memory consistent with the fields. |
| ApiCached.Compute | lib/DA/ApiCached.php:213-216 | A load that fails reports its error. One that succeeds leaves a tree in memory that serves this User-Agent (the full tree, or this User-Agent's shard), and the answer is the untyped lookup on it. |
| ApiCached.GetProperties | lib/DA/ApiCached.php:125-157 | An empty User-Agent gives an empty map with no change, and having a cache provider never changes. |
| ApiCached.GetPropertiesCoherent | lib/DA/ApiCached.php:125-157 | A lookup keeps the object coherent and never turns the optimiser back on. |
| ApiCached.GetPropertiesServes | lib/DA/ApiCached.php:125-157 | Unless answered from the cache, a success is the lookup on a tree that serves this User-Agent. |
| ApiCached.CacheHitStored | lib/DA/ApiCached.php:143-152 | A cache hit returns the stored map and changes nothing. |
| ApiCached.CacheMissStores | lib/DA/ApiCached.php:143-152 | A successful miss stores its answer under the key and keeps other entries; a failure stores nothing. |
| ApiCached.OtherShardFallsBack | lib/DA/ApiCached.php:243-251 | A User-Agent of another shard switches the object to the full tree and turns the optimiser off. |
| ApiCached.FirstLoadRecordsShard | lib/DA/ApiCached.php:235-241 | The first User-Agent loads its shard and records its id. |
| ApiCached.GetProperty | lib/DA/ApiCached.php:171-177 | The property succeeds exactly when it is set in a successful lookup. An unset property is InvalidProperty, and lookup errors pass through. |
| ApiCached.PopulateAsWritten | lib/DA/ApiCached.php:198-203 | As written, populating leaves the tree loaded with changeable properties and turns the optimiser off. |
| ApiCached.PopulateKeepsChangeable | lib/DA/TreeOptimizer.php:388 | For an object configured without changeable properties, the written populate keeps `uar` and the corrected one drops it. |
| ApiCached.PopulateAsWrittenIncoherent | lib/DA/ApiCached.php:198-203 | As written, populating breaks coherence for such an object. |
| ApiCached.Populate | lib/DA/ApiCached.php:198-203 | The corrected populate leaves the full tree as configured and turns the optimiser off. |
| ApiCached.PopulateCoherent | lib/DA/ApiCached.php:198-203 | The corrected populate keeps the object coherent. |
| Php.StringToIntOfIntToString | lib/DA/ClientProps.php:207 | Casting the decimal text of an integer back with `(int)` gives the integer. |
| Php.ExplodeImplode | lib/DA/ClientProps.php:175 | Splitting joined parts that hold no separator gives the parts back. |
| Php.ImplodeExplode | lib/DA/ClientProps.php:175 | Joining the pieces of a split gives the string back. |
| Php.SplitFirst | lib/DA/ClientProps.php:177 | `explode(':', s, 2)`: the text before the first separator and, if there is one, the rest; they join back to the input. |
| Php.StrContains | lib/DA/ClientProps.php:97 | `strpos` finds a needle exactly when it is non-empty and occurs. |
| Php.Trim | lib/DA/Api.php:532 | `trim` leaves no default whitespace at either end and never lengthens. |

## Left out

- **I/O.** Reading and writing JSON files, `json_decode`/`json_encode`, and
  the round trip of a shard through a file are not modelled. A shard file is
  assumed to read back as the tree written to it. The one exception is the
  handler entry, which decodes to an empty array (Findings row 4).
- **Environment.** Directory creation, lock-file creation and removal, and
  `file_exists`/`filemtime` are not modelled. The repository is a map of
  modification times and contents, fixed for one object's lifetime.
  Concurrent generators and races on lock files are not modelled.
- **Other entry points.** `clearCache` and `clearTreeOptimizerCache` (file
  deletion by name pattern), `setUseSysTempDir`, `_getTempRespositoryPath`,
  `getTreeGeneration` and `getTreeGenerationAsTimestamp` (plain field reads)
  are not modelled.
- **getClientProperty** (ClientProps.php:112-123): the library never calls it.
- **The PHP version check** (Api.php:138-142): runtime environment.
- **The regex engine.** PCRE, `filter_var` sanitising and MD5 are modelled
  as uninterpreted total functions of `Pcre.Engine`.
- **The data-file version.** It is compared as a real number; PHP's loose
  comparison of a string version is not modelled.
- **Api.Load**: a decode that yields a non-array is folded into the decode
  error. The `p` table's keys are taken as integers.
- **ClientProps.CompareValues**: loose `==` between two numeric strings (PHP
  compares them as numbers) is modelled by `Php.LooseEquals` only for the
  scalar cases the model distinguishes.
- **TreeOptimizer.SubFakes**: the source compares the common prefixes with
  loose `==`, which differs from string equality only for numeric strings.
  The model uses string equality.
- **The walk's `substr` returning `false`.** PHP 5's `false` from `substr`
  past the end is modelled as `""`, as PHP uses it.
- **Handler objects.** The corrected model represents a handler by the data
  it reads: the tree's `uar` and `cpr` branches. The handler left behind by
  the shard loader is stated separately by `ApiCached.HandlerAsWritten`
  (Findings row 4). The `cpr` handler object is rebuilt on every path, so it
  needs no such case.
- **Static memoisation.** `_optimizeTree`'s static `$uar_values` and
  `$cpr_values` are computed per call. One shard creation sees one tree, so
  the result is the same.
- **Masks.** `_fixUsedValues` also rewrites mask entries. Masks are modelled
  as sets of property ids, and the walk only tests membership. The rewrite is
  invisible when every mask value id is a used value id, which the source
  takes for granted (TreeOptimizer.php:291). A mask value id that no `d`
  map, `uar` or `cpr` entry uses becomes null. `isset` (Api.php:801) then
  fails on it, so the shard stops stripping that id from the sought set.
  That case is not modelled.
- **PropsHandler.ConvertByType**: `$value == '1'` is loose in PHP. Numeric
  strings equal to one (`"01"`, `"1.0"`, `" 1"`, `"1e0"`, `"+1"`) are
  therefore true. The model tests exact equality with `"1"`, so it reports
  those strings as false.
- **Integer width.** PHP's `(int)` saturates at the 64-bit bounds on long
  digit strings (ClientProps.php:207, `Php.StringToInt`). The model's
  integers are unbounded.
- **JSON floats.** `Php.Value` has no float case. A data file or cookie value
  that decodes to a float is not modelled.
- **TreeOptimizer.Optimise**: the root's own `d` map is neither counted among
  the used value ids nor renumbered, because TreeOptimizer.php:262 and 275
  start from the root's children. The model follows the source. It does not
  promise that a value id in the root's `d` still reads the same value after
  optimising. That matters only for a data file with properties at the root,
  a case this model leaves out.
- **TreeOptimizer.FirstLetterValue**: PHP's `ord` reads the first byte. The
  model's strings are sequences of characters, so it takes the first
  character's code. The two agree for ASCII User-Agents, which is what the
  sub-shard table's paths are.
- **TreeOptimizer.ExtractSource / ExtractCopy**: these characterise the top
  level of the extraction. Deeper levels are stated only through the
  recursive definition.
- **TreeOptimizer.PopulateCovers**: the edge names are an input assumed
  sorted by first byte. PHP's `sort` order of mixed strings is not modelled.
- **TreeOptimizer.GetTreeFromFile**: its contract covers the up-to-date and
  locked cases. The created case is stated by `TreeOptimizer.ServesNamedShard`.
- **ApiCached.GetProperties**: a collision between a User-Agent key and a
  key of the form `ua::digest` is possible in the source. It is modelled as
  written, not as a finding.
- **ApiCached.ShardTree**: this is the corrected handler set-up (Findings
  row 4). `ApiCached.LoadTree`, `ApiCached.Coherent` and the lemmas over
  them are built on it. They therefore do not cover the written library's
  failure on a decoded handler entry, nor the stale handler it keeps for a
  tree from memory. Those are stated only by `ApiCached.HandlerAsWritten`.
- **ApiCached.GetPropertiesServes**: answers from the cache provider are
  characterised only by `ApiCached.CacheHitStored`.
- **Exception messages.** They are reduced to the error kind and the
  property name.

## Findings

| source | as written | input that shows it | evidently intended | confidence | as-written member | corrected member |
|---|---|---|---|---|---|---|
| lib/DA/Api.php:764-776 with lib/DA/ClientProps.php:96-101 | The cookie check returns true for a null cookie, so a typed accessor called without a cookie never raises IncorrectPropertyType. | A tree whose `p` holds only `smodel`, and `getPropertyAsBoolean(tree, ua, "model")` with no cookie. | Without a cookie only the declared type counts, so the call raises IncorrectPropertyType. | medium, not executed | Api.TypeCheckWithCookieAsWritten, Api.AsWrittenExample | Api.TypeCheckWithCookie, Api.TypedAccessorCheck |
| lib/DA/TreeOptimizer.php:247-272 | `$cpr_values` stays null when the tree has no `cpr` branch. `array_merge(..., null)` returns null, so every value-table entry is unset. | A data file without `cpr` whose trie has a value under a root edge. | Without `cpr` the value table keeps the values the trie and `uar` use. | medium, not executed | TreeOptimizer.CompactAsWritten, TreeOptimizer.NoCprLosesValues | TreeOptimizer.Optimise, TreeOptimizer.OptimiseReadsSame |
| lib/DA/ApiCached.php:198-203 with lib/DA/TreeOptimizer.php:388 | `populateTreeOptimizerCache` keeps in memory the tree `populateCache` loaded with changeable properties. It then serves lookups from it whatever the object's setting. | An object configured without changeable properties, and a data file with a `uar` section. | The tree in memory follows the object's changeable-properties setting. | low, not executed | ApiCached.PopulateAsWritten, ApiCached.PopulateAsWrittenIncoherent | ApiCached.Populate, ApiCached.PopulateCoherent |
| lib/DA/ApiCached.php:236-241 with lib/DA/PropsHandler.php:25-33 | With the optimiser on, `_initPostWalkHandlers` runs on the array `getTreeFromFile` returns. Without changeable properties it removes `uar` but not the `_uaprops` entry the array already holds. That entry is the empty array a shard file decodes the handler object to, or, for a tree from memory, the handler built over the full tree. | An object configured without changeable properties, a data file with `uar`, and an up-to-date shard file for the User-Agent. `$uaPropsHandler->getProperties` (Api.php:560) is then called on an array. | The shard's User-Agent rules follow the object's setting, as they do without the optimiser: no handler without changeable properties. | medium, not executed | ApiCached.HandlerAsWritten, ApiCached.UpToDateShardBreaks | ApiCached.ShardTree, ApiCached.HandlerAsWrittenLeaks |
