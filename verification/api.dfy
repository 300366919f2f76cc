/**
 * The public lookup API of `Api.php`: loading a decoded data file into a
 * tree, the property listings, the whole-map and single-property lookups
 * with and without a client-property cookie, and the typed accessors'
 * type checks.
 */
module Api {
  import opened Wrappers
  import opened Php
  import opened Pcre
  import opened Schema
  import opened PropsHandler
  import opened PostWalkRules
  import TrieWalk
  import ClientProps

  /** The oldest data-file version the API accepts. */
  const MIN_VERSION: real := 0.7

  // ----------------------------------------------------------------------------
  // Loading

  /** A lookup table filled from `entries` in order, so that a later entry for a key overwrites an earlier one. */
  function Table<K, V>(entries: seq<(K, V)>): (r: map<K, V>)
    ensures r.Keys == set k | 0 <= k < |entries| :: entries[k].0
    decreases |entries|
  {
    if |entries| == 0 then map[]
    else
      var init := entries[..|entries| - 1];
      assert forall k :: 0 <= k < |init| ==> init[k] == entries[k];
      Table(init)[entries[|entries| - 1].0 := entries[|entries| - 1].1]
  }

  /** When no later entry has the same key, an entry's value is the one the table keeps. */
  lemma {:induction false} TableLastWins<K, V>(entries: seq<(K, V)>, i: int)
    requires 0 <= i < |entries|
    requires forall j :: i < j < |entries| ==> entries[j].0 != entries[i].0
    ensures entries[i].0 in Table(entries) && Table(entries)[entries[i].0] == entries[i].1
    decreases |entries|
  {
    if i < |entries| - 1 {
      var init := entries[..|entries| - 1];
      assert init[i] == entries[i];
      assert forall j :: i < j < |init| ==> init[j] == entries[j];
      TableLastWins(init, i);
    }
  }

  /** `pr`: typed name to id. */
  function TypedNameIds(p: seq<(int, string)>): map<string, int> {
    Table(seq(|p|, k requires 0 <= k < |p| => (p[k].1, p[k].0)))
  }

  /** `pn`: name (typed name without its type character) to id. */
  function NameIdTable(p: seq<(int, string)>): map<string, int> {
    Table(seq(|p|, k requires 0 <= k < |p| => (Drop(p[k].1, 1), p[k].0)))
  }

  /** `pnr`: id to name. */
  function IdNameTable(p: seq<(int, string)>): map<int, string> {
    Table(seq(|p|, k requires 0 <= k < |p| => (p[k].0, Drop(p[k].1, 1))))
  }

  /**
   * `getTreeFromString` after `json_decode`: a file that did not decode to an
   * object is a decode error, one without the `$` block is bad data, one
   * whose version is missing or below 0.7 is too old. Otherwise the tree gets
   * the three lookup tables, an empty regex table when the file has none, and
   * its post-walk handlers.
   */
  function Load(decoded: Option<Document>, includeChangeable: bool): (r: Result<Tree, Error>)
    ensures decoded.None? ==> r == Err(JsonError(JSON_DECODE))
    ensures decoded.Some? && decoded.value.info.None? ==> r == Err(JsonError(BAD_DATA))
    ensures decoded.Some? && decoded.value.info.Some? ==>
      (r == Err(JsonError(JSON_VERSION)) <==> decoded.value.info.value.ver.None? || decoded.value.info.value.ver.value < MIN_VERSION)
    ensures r.Ok? <==> decoded.Some? && decoded.value.info.Some? && decoded.value.info.value.ver.Some? && decoded.value.info.value.ver.value >= MIN_VERSION
    ensures r.Ok? ==> r.value.doc == InitHandlers(decoded.value, includeChangeable)
    ensures r.Ok? ==> r.value.regex == decoded.value.r.GetOr(map[])
  {
    if decoded.None? then Err(JsonError(JSON_DECODE))
    else
      var d := decoded.value;
      if d.info.None? then Err(JsonError(BAD_DATA))
      else if d.info.value.ver.None? || d.info.value.ver.value < MIN_VERSION then Err(JsonError(JSON_VERSION))
      else Ok(Tree(InitHandlers(d, includeChangeable), TypedNameIds(d.p), NameIdTable(d.p), IdNameTable(d.p), d.r.GetOr(map[])))
  }

  /**
   * With distinct ids and names in `p`, every entry is reachable through the
   * three tables: its typed name and its name lead to its id, and its id
   * leads to its name.
   */
  lemma LoadTables(decoded: Option<Document>, includeChangeable: bool, i: int)
    requires Load(decoded, includeChangeable).Ok?
    requires DistinctIds(decoded.value.p) && UniqueNames(decoded.value.p)
    requires 0 <= i < |decoded.value.p|
    ensures var t := Load(decoded, includeChangeable).value;
      var (id, tn) := decoded.value.p[i];
      tn in t.pr && t.pr[tn] == id &&
      Drop(tn, 1) in t.pn && t.pn[Drop(tn, 1)] == id &&
      id in t.pnr && t.pnr[id] == Drop(tn, 1)
  {
    var p := decoded.value.p;
    var (id, tn) := p[i];
    var pr := seq(|p|, k requires 0 <= k < |p| => (p[k].1, p[k].0));
    var pn := seq(|p|, k requires 0 <= k < |p| => (Drop(p[k].1, 1), p[k].0));
    var pnr := seq(|p|, k requires 0 <= k < |p| => (p[k].0, Drop(p[k].1, 1)));
    TableLastWins(pr, i);
    TableLastWins(pn, i);
    TableLastWins(pnr, i);
  }

  /**
   * `_propertyFromId` over a loaded tree: an id names the property of the last
   * `p` entry carrying it, with the type character dropped; an id no entry
   * carries gives `""`.
   */
  lemma PropertyFromIdOfLoad(decoded: Option<Document>, includeChangeable: bool, id: int)
    requires Load(decoded, includeChangeable).Ok?
    ensures var t := Load(decoded, includeChangeable).value;
      var tn := TypedName(decoded.value.p, id);
      PropertyFromId(t, id) == (if tn.Some? then Drop(tn.value, 1) else "")
  {
    var t := Load(decoded, includeChangeable).value;
    var p := decoded.value.p;
    var pnr := seq(|p|, k requires 0 <= k < |p| => (p[k].0, Drop(p[k].1, 1)));
    assert t.pnr == Table(pnr);
    var tn := TypedName(p, id);
    if tn.Some? {
      var i :| 0 <= i < |p| && p[i] == (id, tn.value) && forall j :: i < j < |p| ==> p[j].0 != id;
      TableLastWins(pnr, i);
    } else {
      assert id !in t.pnr;
    }
  }

  /** The lookup tables hold nothing but what `p` lists. */
  lemma LoadTablesOnly(decoded: Option<Document>, includeChangeable: bool)
    requires Load(decoded, includeChangeable).Ok?
    ensures var t := Load(decoded, includeChangeable).value;
      var p := decoded.value.p;
      (forall n :: n in t.pr ==> exists k :: 0 <= k < |p| && p[k].1 == n) &&
      (forall n :: n in t.pn ==> exists k :: 0 <= k < |p| && Drop(p[k].1, 1) == n) &&
      (forall id :: id in t.pnr ==> exists k :: 0 <= k < |p| && p[k].0 == id)
  {
    var t := Load(decoded, includeChangeable).value;
    var p := decoded.value.p;
    var pr := seq(|p|, k requires 0 <= k < |p| => (p[k].1, p[k].0));
    var pn := seq(|p|, k requires 0 <= k < |p| => (Drop(p[k].1, 1), p[k].0));
    var pnr := seq(|p|, k requires 0 <= k < |p| => (p[k].0, Drop(p[k].1, 1)));
    forall n | n in t.pr ensures exists k :: 0 <= k < |p| && p[k].1 == n {
      var k :| 0 <= k < |pr| && pr[k].0 == n;
      assert p[k].1 == n;
    }
    forall n | n in t.pn ensures exists k :: 0 <= k < |p| && Drop(p[k].1, 1) == n {
      var k :| 0 <= k < |pn| && pn[k].0 == n;
      assert Drop(p[k].1, 1) == n;
    }
    forall id | id in t.pnr ensures exists k :: 0 <= k < |p| && p[k].0 == id {
      var k :| 0 <= k < |pnr| && pnr[k].0 == id;
      assert p[k].0 == id;
    }
  }

  // ----------------------------------------------------------------------------
  // Listings and revisions

  /** The readable name of a type character; `null` (None) for a character the table lacks. */
  function TypeWord(c: string): (r: Option<string>)
    ensures r.Some? <==> c in {"s", "b", "i", "d", "u"}
  {
    if c == "s" then Some("string")
    else if c == "b" then Some("boolean")
    else if c == "i" then Some("integer")
    else if c == "d" then Some("date")
    else if c == "u" then Some("unknown")
    else None
  }

  /** `listProperties`: every property name with its type's readable name. */
  function ListProperties(t: Tree): (r: map<string, Option<string>>)
    ensures r.Keys == set k | 0 <= k < |t.doc.p| :: Drop(t.doc.p[k].1, 1)
  {
    var p := t.doc.p;
    var entries := seq(|p|, k requires 0 <= k < |p| => (Drop(p[k].1, 1), TypeWord(Take(p[k].1, 1))));
    assert forall k :: 0 <= k < |p| ==> entries[k].0 == Drop(p[k].1, 1);
    Table(entries)
  }

  /** With distinct names, each property is listed with the readable name of its own type character. */
  lemma ListPropertiesSpec(t: Tree, i: int)
    requires UniqueNames(t.doc.p) && 0 <= i < |t.doc.p|
    ensures var tn := t.doc.p[i].1;
      ListProperties(t)[Drop(tn, 1)] == TypeWord(Take(tn, 1))
  {
    var p := t.doc.p;
    var entries := seq(|p|, k requires 0 <= k < |p| => (Drop(p[k].1, 1), TypeWord(Take(p[k].1, 1))));
    TableLastWins(entries, i);
  }

  /** `_getRevisionFromKeyword`: what follows the six-character `$Rev: ` prefix, with `$` removed and spaces trimmed. */
  function RevisionFromKeyword(keyword: string): (r: string)
    ensures |r| <= |keyword| && '$' !in r
  {
    Trim(RemoveChar(Drop(keyword, 6), '$'))
  }

  /** The revision number comes back out of the keyword it was written into. */
  lemma RevisionRoundTrip(digits: string)
    requires |digits| > 0 && AllDigits(digits)
    ensures RevisionFromKeyword("$Rev: " + digits + " $") == digits
  {
    var k := "$Rev: " + digits + " $";
    assert Drop(k, 6) == digits + " $";
    RemoveCharNone(digits, '$');
    assert RemoveChar(digits + " $", '$') == digits + " " by {
      RemoveCharAppend(digits, " $", '$');
      assert RemoveChar(" $", '$') == " " by {
        assert (" $")[1..] == "$";
      }
    }
    TrimKeepsDigits(digits);
  }

  lemma {:induction false} RemoveCharNone(s: string, c: char)
    requires c !in s
    ensures RemoveChar(s, c) == s
  {
    if |s| > 0 {
      RemoveCharNone(s[1..], c);
      assert [s[0]] + s[1..] == s;
    }
  }

  lemma {:induction false} RemoveCharAppend(a: string, b: string, c: char)
    ensures RemoveChar(a + b, c) == RemoveChar(a, c) + RemoveChar(b, c)
  {
    if |a| > 0 {
      assert (a + b)[1..] == a[1..] + b;
      RemoveCharAppend(a[1..], b, c);
    } else {
      assert a + b == b;
    }
  }

  lemma TrimKeepsDigits(digits: string)
    requires |digits| > 0 && AllDigits(digits)
    ensures Trim(digits + " ") == digits
  {
    var s := digits + " ";
    assert LeadCount(s, IsTrimSpace) == 0 by {
      assert s[0] == digits[0];
    }
    assert TrailCount(s[..|s| - 1], IsTrimSpace) == 0 by {
      assert s[..|s| - 1] == digits;
      assert digits[|digits| - 1] == s[|s| - 2];
    }
    assert TrailCount(s, IsTrimSpace) == 1;
    assert s[0..|s| - 1] == digits;
  }

  /** `getApiRevision`: the revision of this API, read from its own keyword. */
  function ApiRevision(): (r: string)
    ensures r == "2830"
  {
    ApiRevisionKeyword();
    RevisionFromKeyword("$Rev: 2830 $")
  }

  lemma ApiRevisionKeyword()
    ensures RevisionFromKeyword("$Rev: 2830 $") == "2830"
  {
    var d := "2830";
    assert AllDigits(d) by {
      assert IsDigit(d[0]) && IsDigit(d[1]) && IsDigit(d[2]) && IsDigit(d[3]);
    }
    RevisionRoundTrip(d);
    assert "$Rev: " + d + " $" == "$Rev: 2830 $";
  }

  /** `getTreeRevision`: the revision read from the data file's `Rev` keyword. */
  function TreeRevision(t: Tree): (r: Option<string>)
    ensures t.doc.info.None? <==> r.None?
    ensures r.Some? ==> r.value == RevisionFromKeyword(t.doc.info.value.rev)
    ensures r.Some? ==> '$' !in r.value && |r.value| <= |t.doc.info.value.rev|
  {
    if t.doc.info.Some? then Some(RevisionFromKeyword(t.doc.info.value.rev)) else None
  }

  /** A data file whose `Rev` keyword was written around a revision number reports that number. */
  lemma TreeRevisionOfKeyword(t: Tree, digits: string)
    requires t.doc.info.Some? && t.doc.info.value.rev == "$Rev: " + digits + " $"
    requires |digits| > 0 && AllDigits(digits)
    ensures TreeRevision(t) == Some(digits)
  {
    RevisionRoundTrip(digits);
  }

  // ----------------------------------------------------------------------------
  // Lookups

  /** `_idFromProperty`: the id of a property name, or UnknownProperty. */
  function IdFromProperty(t: Tree, name: string): (r: Result<int, Error>)
    ensures r.Ok? <==> name in t.pn
    ensures r.Ok? ==> r.value == t.pn[name]
    ensures r.Err? ==> r.error == UnknownProperty(name)
  {
    if name in t.pn then Ok(t.pn[name]) else Err(UnknownProperty(name))
  }

  /**
   * `_getProperties`: without a cookie, one lookup over the tree. With one,
   * the tree must have a `cpr` branch; the lookup is then untyped whatever
   * was asked, and the parsed cookie is laid over it by the client handler.
   */
  function GetProperties(e: Engine, t: Tree, ua: string, cookie: Option<string>, typed: bool): (r: Result<Props, Error>)
    ensures cookie.None? ==> r == Ok(TrieWalk.GetPropertiesFromTree(e, t, ua, None, typed))
    ensures cookie.Some? && t.doc.cpr.None? ==> r == Err(JsonError(NO_CLIENT_PROPERTIES_SECTION))
    ensures cookie.Some? && t.doc.cpr.Some? ==>
      (r.Err? <==> ClientProps.Parse(e, cookie.value, typed).Err?)
    ensures cookie.Some? && t.doc.cpr.Some? && ClientProps.Parse(e, cookie.value, typed) == Ok(None) ==>
      r == Ok(TrieWalk.GetPropertiesFromTree(e, t, ua, None, false))
  {
    if cookie.None? then Ok(TrieWalk.GetPropertiesFromTree(e, t, ua, None, typed))
    else if t.doc.cpr.None? then Err(JsonError(NO_CLIENT_PROPERTIES_SECTION))
    else
      var walked := TrieWalk.GetPropertiesFromTree(e, t, ua, None, false);
      var parsed :- ClientProps.Parse(e, cookie.value, typed);
      Ok(ClientProps.GetProperties(e, t, t.doc.cpr.value, walked, parsed, typed))
  }

  /**
   * `_getPropertyFromTree`: an unknown name is UnknownProperty; a known one
   * is sought alone, and is InvalidProperty unless the lookup sets it.
   */
  function GetPropertyFromTree(e: Engine, t: Tree, ua: string, name: string, typed: bool): (r: Result<Value, Error>)
    ensures name !in t.pn <==> r == Err(UnknownProperty(name))
    ensures name in t.pn ==>
      var found := TrieWalk.GetPropertiesFromTree(e, t, ua, Some({t.pn[name]}), typed);
      (r.Ok? <==> Isset(found, name)) && (r.Ok? ==> r.value == found[name]) && (r.Err? ==> r.error == InvalidProperty(name))
  {
    var id :- IdFromProperty(t, name);
    var found := TrieWalk.GetPropertiesFromTree(e, t, ua, Some({id}), typed);
    if Isset(found, name) then Ok(found[name]) else Err(InvalidProperty(name))
  }

  /** The set the cookie path seeks: the property itself and every property a client rule group matches on. */
  function CookieSought(cpr: ClientRules, id: int): (r: set<int>)
    ensures id in r && RequiredProperties(ClientIndex(cpr)) <= r
  {
    {id} + RequiredProperties(ClientIndex(cpr))
  }

  /**
   * `_getPropertyWithCookies`. A property set in the cookie is answered from
   * the cookie alone unless a client rule can output it. Otherwise a known
   * property is looked up with the matcher properties the client rules need,
   * and the cookie laid over the result. A property found nowhere is
   * InvalidProperty.
   */
  function GetPropertyWithCookies(e: Engine, t: Tree, ua: string, name: string, cookie: string, typed: bool): (r: Result<Value, Error>)
    ensures t.doc.cpr.None? ==> r == Err(JsonError(NO_CLIENT_PROPERTIES_SECTION))
    ensures t.doc.cpr.Some? && ClientProps.Parse(e, cookie, typed).Err? ==> r.Err?
    ensures r.Ok? ==> r.value != Null
    ensures t.doc.cpr.Some? && ClientProps.Parse(e, cookie, typed).Ok? ==>
      var parsed := ClientProps.Parse(e, cookie, typed).value;
      parsed.Some? && Isset(parsed.value, name) && !(name in t.pn && PropIsOutput(ClientIndex(t.doc.cpr.value), t.pn[name])) ==>
      r == Ok(parsed.value[name])
    ensures t.doc.cpr.Some? && ClientProps.Parse(e, cookie, typed).Ok? && name !in t.pn ==>
      var parsed := ClientProps.Parse(e, cookie, typed).value;
      (r.Ok? <==> parsed.Some? && Isset(parsed.value, name))
  {
    if t.doc.cpr.None? then Err(JsonError(NO_CLIENT_PROPERTIES_SECTION))
    else
      var cpr := t.doc.cpr.value;
      var parsed :- ClientProps.Parse(e, cookie, typed);
      var id := IdFromProperty(t, name);
      var fromCookie: Option<Props> :=
        if parsed.Some? && Isset(parsed.value, name) && !(id.Ok? && PropIsOutput(ClientIndex(cpr), id.value))
        then Some(map[name := parsed.value[name]])
        else None;
      var found :=
        if fromCookie.None? && id.Ok? then
          var walked := TrieWalk.GetPropertiesFromTree(e, t, ua, Some(CookieSought(cpr, id.value)), typed);
          Some(ClientProps.GetProperties(e, t, cpr, walked, parsed, typed))
        else fromCookie;
      if found.Some? && Isset(found.value, name) then Ok(found.value[name]) else Err(InvalidProperty(name))
  }

  /** `_getProperty`: the tree-only path when the cookie is null or `empty()`, the cookie path otherwise. */
  function GetProperty(e: Engine, t: Tree, ua: string, name: string, cookie: Option<string>, typed: bool): (r: Result<Value, Error>)
    ensures EmptyString(cookie) ==> r == GetPropertyFromTree(e, t, ua, name, typed)
    ensures !EmptyString(cookie) ==> r == GetPropertyWithCookies(e, t, ua, name, cookie.value, typed)
    ensures r.Ok? ==> r.value != Null
  {
    if EmptyString(cookie) then GetPropertyFromTree(e, t, ua, name, typed)
    else GetPropertyWithCookies(e, t, ua, name, cookie.value, typed)
  }

  // ----------------------------------------------------------------------------
  // Typed accessors

  /** `_propertyTypeCheck`: the property is declared with this type character. */
  predicate TypeCheck(t: Tree, name: string, typePrefix: string) {
    typePrefix + name in t.pr
  }

  /**
   * `_propertyTypeCheckWithCookie` as the library writes it: the declared
   * type, or else the client handler's cookie check, which passes whenever no
   * cookie is given.
   */
  function TypeCheckWithCookieAsWritten(t: Tree, name: string, typePrefix: string, cookie: Option<string>): (r: bool)
    ensures cookie.None? ==> r
  {
    TypeCheck(t, name, typePrefix) || ClientProps.PropertyTypeCheck(cookie, name, typePrefix)
  }

  /** Without a cookie, the written check lets through every name, including ones declared with another type or not at all. */
  lemma AsWrittenPassesUndeclared(t: Tree, name: string, typePrefix: string)
    requires !TypeCheck(t, name, typePrefix)
    ensures TypeCheckWithCookieAsWritten(t, name, typePrefix, None)
    ensures !TypeCheckWithCookie(t, name, typePrefix, None)
  {
  }

  /** A concrete tree on which the written check passes a string property through the boolean accessor. */
  lemma AsWrittenExample()
    ensures var t := Tree(Document(None, [(1, "smodel")], map[], EmptyNode, None, None, None), map["smodel" := 1], map["model" := 1], map[1 := "model"], map[]);
      TypeCheckWithCookieAsWritten(t, "model", "b", None) && !TypeCheckWithCookie(t, "model", "b", None)
  {
    var t := Tree(Document(None, [(1, "smodel")], map[], EmptyNode, None, None, None), map["smodel" := 1], map["model" := 1], map[1 := "model"], map[]);
    assert "b" + "model" == "bmodel";
    assert "bmodel" !in t.pr;
  }

  /**
   * The type check the accessors are documented to make: the property is
   * declared with this type, or a cookie is given and carries the typed name.
   */
  function TypeCheckWithCookie(t: Tree, name: string, typePrefix: string, cookie: Option<string>): (r: bool)
    ensures r <==> TypeCheck(t, name, typePrefix) || (cookie.Some? && |typePrefix + name| > 0 && OccursIn(typePrefix + name, cookie.value))
  {
    TypeCheck(t, name, typePrefix) || (cookie.Some? && StrContains(cookie.value, typePrefix + name))
  }

  /** The four typed accessors. */
  datatype Accessor = AsBoolean | AsDate | AsInteger | AsString {
    /** The type character checked for. */
    function Prefix(): string {
      match this
      case AsBoolean => "b"
      case AsDate => "d"
      case AsInteger => "i"
      case AsString => "s"
    }

    /** The type name reported in the error. */
    function TypeName(): string {
      match this
      case AsBoolean => "boolean"
      case AsDate => "string"
      case AsInteger => "integer"
      case AsString => "string"
    }
  }

  /**
   * `getPropertyAsBoolean`, `getPropertyAsDate`, `getPropertyAsInteger` and
   * `getPropertyAsString`: IncorrectPropertyType unless the type check
   * passes, then the typed single-property lookup.
   */
  function GetPropertyAs(e: Engine, t: Tree, ua: string, name: string, cookie: Option<string>, kind: Accessor): (r: Result<Value, Error>)
    ensures r == Err(IncorrectPropertyType(name, kind.TypeName())) <==>
      !(kind.Prefix() + name in t.pr || (cookie.Some? && |kind.Prefix() + name| > 0 && OccursIn(kind.Prefix() + name, cookie.value))) ||
      GetProperty(e, t, ua, name, cookie, true) == Err(IncorrectPropertyType(name, kind.TypeName()))
    ensures TypeCheckWithCookie(t, name, kind.Prefix(), cookie) ==> r == GetProperty(e, t, ua, name, cookie, true)
  {
    if !TypeCheckWithCookie(t, name, kind.Prefix(), cookie) then Err(IncorrectPropertyType(name, kind.TypeName()))
    else GetProperty(e, t, ua, name, cookie, true)
  }

  /**
   * The typed accessors as written: the same lookup behind the written type
   * check, which without a cookie lets every name through.
   */
  function GetPropertyAsAsWritten(e: Engine, t: Tree, ua: string, name: string, cookie: Option<string>, kind: Accessor): (r: Result<Value, Error>)
    ensures cookie.None? ==> r == GetProperty(e, t, ua, name, None, true)
    ensures TypeCheckWithCookie(t, name, kind.Prefix(), cookie) ==> r == GetPropertyAs(e, t, ua, name, cookie, kind)
  {
    if !TypeCheckWithCookieAsWritten(t, name, kind.Prefix(), cookie) then Err(IncorrectPropertyType(name, kind.TypeName()))
    else GetProperty(e, t, ua, name, cookie, true)
  }

  /**
   * Without a cookie, the written accessor never reports IncorrectPropertyType,
   * while the documented one does for every name not declared with its type.
   */
  lemma AsWrittenAccessorSkipsCheck(e: Engine, t: Tree, ua: string, name: string, kind: Accessor)
    requires !TypeCheck(t, name, kind.Prefix())
    ensures GetPropertyAsAsWritten(e, t, ua, name, None, kind) != Err(IncorrectPropertyType(name, kind.TypeName()))
    ensures GetPropertyAs(e, t, ua, name, None, kind) == Err(IncorrectPropertyType(name, kind.TypeName()))
  {
    GetPropertyNeverTypeError(e, t, ua, name, None, true);
  }

  /** The typed lookups never raise IncorrectPropertyType themselves: that error comes from the type check alone. */
  lemma GetPropertyNeverTypeError(e: Engine, t: Tree, ua: string, name: string, cookie: Option<string>, typed: bool)
    ensures GetProperty(e, t, ua, name, cookie, typed).Err? ==> !GetProperty(e, t, ua, name, cookie, typed).error.IncorrectPropertyType?
  {
    if !EmptyString(cookie) && t.doc.cpr.Some? {
      var parsed := ClientProps.Parse(e, cookie.value, typed);
      if parsed.Err? {
        ParseErrorKind(e, cookie.value, typed);
      }
    }
  }

  /** The cookie parser fails only with ClientPropertiesError. */
  lemma ParseErrorKind(e: Engine, s: string, typed: bool)
    ensures ClientProps.Parse(e, s, typed).Err? ==> ClientProps.Parse(e, s, typed).error == ClientPropertiesError
  {
    if !EmptyString(Some(s)) {
      ParsePairsErrorKind(e, ClientProps.CookiePairs(s), typed);
    }
  }

  lemma {:induction false} ParsePairsErrorKind(e: Engine, pairs: seq<string>, typed: bool)
    ensures ClientProps.ParsePairs(e, pairs, typed).Err? ==> ClientProps.ParsePairs(e, pairs, typed).error == ClientPropertiesError
    decreases |pairs|
  {
    if |pairs| > 0 {
      ParsePairsErrorKind(e, pairs[..|pairs| - 1], typed);
    }
  }

  /** With the documented check, a typed accessor reports IncorrectPropertyType exactly when the check fails. */
  lemma TypedAccessorCheck(e: Engine, t: Tree, ua: string, name: string, cookie: Option<string>, kind: Accessor)
    ensures GetPropertyAs(e, t, ua, name, cookie, kind) == Err(IncorrectPropertyType(name, kind.TypeName())) <==>
      !TypeCheckWithCookie(t, name, kind.Prefix(), cookie)
  {
    GetPropertyNeverTypeError(e, t, ua, name, cookie, true);
  }
}
