/**
 * The caching facade of `ApiCached.php`: one object keeps a tree in memory
 * (the full tree, or the shard of one User-Agent's shard id when the
 * optimiser is on), an optional result cache keyed by User-Agent and cookie
 * digest, and falls back to the full tree, for good, the first time a
 * User-Agent of another shard comes along. The file system, the clock and
 * the cache backend are the inputs of `Env` and the `cache` map.
 */
module ApiCached {
  import opened Wrappers
  import opened Php
  import opened Pcre
  import opened Schema
  import Api
  import PropsHandler
  import TreeOptimizer

  /**
   * What one object sees of the outside during its lifetime: the engine, the
   * data file as decoded, the configured changeable-properties flag, the
   * sub-shard switch, and the shard repository (shard files by id with their
   * modification time, lock files by first byte).
   */
  datatype Env = Env(
    e: Engine,
    decoded: Option<Document>,
    includeChangeable: bool,
    subtree: bool,
    jsonMtime: int,
    shards: map<string, (int, Tree)>,
    locks: map<int, int>,
    now: int)

  /**
   * The object's mutable fields: the tree in memory, the shard id it was
   * loaded for (`treeFragmentInMemory`), whether the optimiser is on, and the
   * cache provider's contents when there is one.
   */
  datatype Cached = Cached(tree: Option<Tree>, fragment: Option<string>, useOptimizer: bool, cache: Option<map<string, Props>>)

  /** The constructor: nothing loaded. */
  function Initial(useOptimizer: bool, cacheProvider: bool): (r: Cached)
    ensures r.tree.None? && r.fragment.None? && r.useOptimizer == useOptimizer
    ensures r.cache.Some? <==> cacheProvider
    ensures r.cache.Some? ==> r.cache.value == map[]
  {
    Cached(None, None, useOptimizer, if cacheProvider then Some(map[]) else None)
  }

  /** `Api::getTreeFromFile($pathToJson, $includeChangeableUserAgentProperties)`. */
  function FullTree(env: Env): Result<Tree, Error> {
    Api.Load(env.decoded, env.includeChangeable)
  }

  /** The shard file the User-Agent's shard id names, with its modification time, when it exists. */
  function ShardOf(env: Env, ua: string): Option<(int, Tree)> {
    var id := TreeOptimizer.ShardId(ua, env.subtree);
    if id in env.shards then Some(env.shards[id]) else None
  }

  /** The modification time of the lock file of the User-Agent's first byte, when it exists. */
  function LockOf(env: Env, ua: string): Option<int> {
    var flv := TreeOptimizer.FirstLetterValue(ua);
    if flv in env.locks then Some(env.locks[flv]) else None
  }

  /** The shard file named by the User-Agent's shard id is newer than the data file. */
  predicate UpToDate(env: Env, ua: string) {
    ShardOf(env, ua).Some? && TreeOptimizer.ShardUpToDate(Some(ShardOf(env, ua).value.0), env.jsonMtime)
  }

  /**
   * Where the array `getTreeFromFile` hands back comes from: decoded from a
   * shard file (an up-to-date one, or the deputy's sub-shard just written),
   * or the array loaded in memory, which is the full tree under a live lock
   * and the optimised main shard otherwise. `loaded` is the full tree as
   * loaded, whose handler objects the in-memory array still carries.
   */
  datatype ShardSource = FromFile(tree: Tree) | FromMemory(tree: Tree, loaded: Tree)

  /**
   * `TreeOptimizer::getTreeFromFile`: an up-to-date shard file is read as it
   * is; otherwise the full tree is loaded with the changeable properties and
   * the shard created from it.
   */
  function ShardSourceOf(env: Env, ua: string): (r: Result<ShardSource, Error>)
    ensures UpToDate(env, ua) ==> r == Ok(FromFile(ShardOf(env, ua).value.1))
    ensures r.Err? <==> !UpToDate(env, ua) && Api.Load(env.decoded, true).Err?
    ensures r.Err? ==> r.error == Api.Load(env.decoded, true).error
    ensures r.Ok? && Api.Load(env.decoded, true).Ok? ==>
      r.value.tree == TreeOptimizer.GetTreeFromFile(env.e, Api.Load(env.decoded, true).value, ua, ShardOf(env, ua),
                                                    env.jsonMtime, LockOf(env, ua), env.now, env.subtree)
    ensures r.Ok? && r.value.FromMemory? ==> r.value.loaded == Api.Load(env.decoded, true).value
    ensures r.Ok? && !UpToDate(env, ua) && TreeOptimizer.LockHeld(LockOf(env, ua), env.now) ==>
      r.value == FromMemory(Api.Load(env.decoded, true).value, Api.Load(env.decoded, true).value)
  {
    if UpToDate(env, ua) then Ok(FromFile(ShardOf(env, ua).value.1))
    else
      var full :- Api.Load(env.decoded, true);
      var flv := TreeOptimizer.FirstLetterValue(ua);
      var o := TreeOptimizer.CreateShard(env.e, full, flv, Some(ua), LockOf(env, ua), env.now, env.subtree);
      if o.Locked? then Ok(FromMemory(full, full))
      else if o.deputy.Some? && TreeOptimizer.ShardName(flv, o.deputy) in TreeOptimizer.ShardFiles(flv, o) then
        Ok(FromFile(TreeOptimizer.Served(flv, o)))
      else Ok(FromMemory(o.main, full))
  }

  /**
   * The shard tree `_loadTree` keeps: `getTreeFromFile` followed by
   * `_initPostWalkHandlers`, so that the changeable-properties rules (and
   * their handler) stay exactly when the configuration asks for them and
   * the shard has them, and nothing else changes.
   */
  function ShardTree(env: Env, ua: string): (r: Result<Tree, Error>)
    ensures r.Ok? <==> ShardSourceOf(env, ua).Ok?
    ensures r.Ok? ==> (r.value.doc.uar.Some? <==> env.includeChangeable && ShardSourceOf(env, ua).value.tree.doc.uar.Some?)
    ensures r.Ok? ==> r.value.(doc := r.value.doc.(uar := ShardSourceOf(env, ua).value.tree.doc.uar)) == ShardSourceOf(env, ua).value.tree
  {
    var src :- ShardSourceOf(env, ua);
    Ok(src.tree.(doc := PropsHandler.InitHandlers(src.tree.doc, env.includeChangeable)))
  }

  /**
   * The `_uaprops` entry the tree ends up with after `_initPostWalkHandlers`:
   * none; a handler over the tree itself; the handler built when the full
   * tree was loaded, still reading that tree's rules and property ids; or
   * the empty array that a shard file decodes the handler object to, whose
   * method calls in the walk are fatal errors.
   */
  datatype HandlerEntry = NoHandler | OverTree | OverLoadedTree | DecodedArray

  /** The handler entry the corrected model gives a tree: one over the tree exactly when it keeps `uar`. */
  function HandlerOf(t: Tree): (h: HandlerEntry)
    ensures h == OverTree <==> t.doc.uar.Some?
    ensures h != OverTree ==> h == NoHandler
  {
    if t.doc.uar.Some? then OverTree else NoHandler
  }

  /**
   * The handler entry as the library leaves it. `_initPostWalkHandlers`
   * builds a new handler when the tree has `uar` and the changeable
   * properties are wanted. Otherwise it removes `uar` but leaves whatever
   * `_uaprops` the array already had. A shard file has that entry (decoded
   * to an empty array) exactly when it has `uar`, every shard being cut from
   * a tree loaded with the changeable properties. An in-memory array keeps
   * the handler of the full tree it was loaded as.
   */
  function HandlerAsWritten(env: Env, ua: string): (r: Result<HandlerEntry, Error>)
    ensures r.Ok? <==> ShardSourceOf(env, ua).Ok?
    ensures r.Ok? && env.includeChangeable && ShardSourceOf(env, ua).value.tree.doc.uar.Some? ==> r.value == OverTree
    ensures r.Ok? && !env.includeChangeable ==> r.value != OverTree
  {
    var src :- ShardSourceOf(env, ua);
    if src.tree.doc.uar.Some? && env.includeChangeable then Ok(OverTree)
    else
      match src
      case FromFile(t) => Ok(if t.doc.uar.Some? then DecodedArray else NoHandler)
      case FromMemory(_, loaded) => Ok(if loaded.doc.uar.Some? then OverLoadedTree else NoHandler)
  }

  /**
   * Configured without the changeable properties, on a data file with a
   * `uar` section: the corrected shard tree has no handler, while as written
   * the tree keeps a stale handler over the full tree or a decoded empty
   * array in its place.
   */
  lemma HandlerAsWrittenLeaks(env: Env, ua: string)
    requires !env.includeChangeable && ShardSourceOf(env, ua).Ok?
    requires var src := ShardSourceOf(env, ua).value;
      if src.FromFile? then src.tree.doc.uar.Some? else src.loaded.doc.uar.Some?
    ensures HandlerOf(ShardTree(env, ua).value) == NoHandler
    ensures HandlerAsWritten(env, ua).value in {OverLoadedTree, DecodedArray}
  {
  }

  /**
   * Configured without the changeable properties, an up-to-date shard file
   * with a `uar` section leaves the decoded empty array where the walk calls
   * the handler.
   */
  lemma UpToDateShardBreaks(env: Env, ua: string)
    requires !env.includeChangeable && UpToDate(env, ua) && ShardOf(env, ua).value.1.doc.uar.Some?
    ensures HandlerAsWritten(env, ua) == Ok(DecodedArray)
    ensures ShardTree(env, ua).Ok? && HandlerOf(ShardTree(env, ua).value) == NoHandler
  {
  }

  /**
   * `_loadTree`. Without the optimiser the full tree is loaded once. With it,
   * the first call loads the User-Agent's shard and records its id; a later
   * User-Agent of another shard drops the tree, loads the full tree and
   * turns the optimiser off. A load that fails leaves the fields as far as
   * the code got and reports the error.
   */
  function LoadTree(env: Env, st: Cached, ua: string): (r: (Cached, Option<Error>))
    ensures r.0.cache == st.cache
    ensures r.1.None? ==> r.0.tree.Some?
    ensures !st.useOptimizer ==> !r.0.useOptimizer
    ensures r.0.useOptimizer && r.0.tree.Some? ==> r.0.fragment == Some(TreeOptimizer.ShardId(ua, env.subtree))
  {
    if !st.useOptimizer then
      if st.tree.Some? then (st, None)
      else
        match FullTree(env)
        case Ok(t) => (st.(tree := Some(t)), None)
        case Err(err) => (st, Some(err))
    else
      var id := TreeOptimizer.ShardId(ua, env.subtree);
      if st.tree.None? then
        match ShardTree(env, ua)
        case Ok(t) => (st.(tree := Some(t), fragment := Some(id)), None)
        case Err(err) => (st, Some(err))
      else if st.fragment != Some(id) then
        match FullTree(env)
        case Ok(t) => (st.(tree := Some(t), useOptimizer := false), None)
        case Err(err) => (st.(tree := None), Some(err))
      else (st, None)
  }

  /** `_getProperties`: load, then an untyped `Api::getProperties` on the tree in memory. */
  function Compute(env: Env, st: Cached, ua: string, cookie: Option<string>): (r: (Result<Props, Error>, Cached))
    ensures r.1 == LoadTree(env, st, ua).0
    ensures r.0.Ok? ==> r.1.tree.Some? && r.0 == Api.GetProperties(env.e, r.1.tree.value, ua, cookie, false)
    ensures LoadTree(env, st, ua).1.None? ==> InMemory(env, r.1, ua)
    ensures LoadTree(env, st, ua).1.Some? ==> r.0 == Err(LoadTree(env, st, ua).1.value)
  {
    var (st', err) := LoadTree(env, st, ua);
    if err.Some? then (Err(err.value), st')
    else (Api.GetProperties(env.e, st'.tree.value, ua, cookie, false), st')
  }

  /** The tree in memory answers directly: the optimiser is off, or the tree is the shard of this User-Agent's id. */
  predicate InMemory(env: Env, st: Cached, ua: string) {
    st.tree.Some? && (!st.useOptimizer || st.fragment == Some(TreeOptimizer.ShardId(ua, env.subtree)))
  }

  /** The cache key: the User-Agent alone, or followed by `::` and the cookie's MD5 digest. */
  function CacheKey(e: Engine, ua: string, cookie: Option<string>): string {
    if cookie.None? then ua else ua + "::" + e.digest(cookie.value)
  }

  /**
   * `getProperties`: nothing for an empty User-Agent; the tree in memory when
   * it serves this User-Agent; else the cache provider's entry, computing
   * and storing it on a miss; else a computation.
   */
  function GetProperties(env: Env, st: Cached, ua: string, cookie: Option<string>): (r: (Result<Props, Error>, Cached))
    ensures ua == "" ==> r == (Ok(map[]), st)
    ensures r.1.cache.Some? == st.cache.Some?
  {
    if ua == "" then (Ok(map[]), st)
    else if InMemory(env, st, ua) then (Api.GetProperties(env.e, st.tree.value, ua, cookie, false), st)
    else if st.cache.Some? then
      var key := CacheKey(env.e, ua, cookie);
      if key in st.cache.value then (Ok(st.cache.value[key]), st)
      else
        var (r, st') := Compute(env, st, ua, cookie);
        if r.Ok? then (r, st'.(cache := Some(st.cache.value[key := r.value]))) else (r, st')
    else Compute(env, st, ua, cookie)
  }

  /** `getProperty`: the property from `getProperties`, InvalidProperty unless it is set. */
  function GetProperty(env: Env, st: Cached, ua: string, name: string, cookie: Option<string>): (r: (Result<Value, Error>, Cached))
    ensures r.1 == GetProperties(env, st, ua, cookie).1
    ensures var props := GetProperties(env, st, ua, cookie).0;
      && (r.0.Ok? <==> props.Ok? && Isset(props.value, name))
      && (r.0.Ok? ==> r.0.value == props.value[name])
      && (props.Ok? && !Isset(props.value, name) ==> r.0 == Err(InvalidProperty(name)))
      && (props.Err? ==> r.0 == Err(props.error))
  {
    var (props, st') := GetProperties(env, st, ua, cookie);
    if props.Err? then (Err(props.error), st')
    else if Isset(props.value, name) then (Ok(props.value[name]), st')
    else (Err(InvalidProperty(name)), st')
  }

  // ----------------------------------------------------------------------------
  // Populating the shard repository

  /**
   * `populateTreeOptimizerCache` as the library has it: the tree in memory
   * becomes the tree `populateCache` loaded to cut the shards from, which
   * carries the changeable properties whatever the configuration says, and
   * the optimiser is turned off. The shard files it writes are not read
   * again by this object.
   */
  function PopulateAsWritten(env: Env, st: Cached): (r: (Cached, Option<Error>))
    ensures r.0.cache == st.cache && (r.1.None? ==> !r.0.useOptimizer)
    ensures r.1.None? <==> Api.Load(env.decoded, true).Ok?
    ensures r.1.None? ==> r.0.tree == Some(Api.Load(env.decoded, true).value)
  {
    match Api.Load(env.decoded, true)
    case Ok(t) => (st.(tree := Some(t), useOptimizer := false), None)
    case Err(err) => (st.(tree := None), Some(err))
  }

  /** `populateTreeOptimizerCache` with the tree in memory loaded as the object is configured. */
  function Populate(env: Env, st: Cached): (r: (Cached, Option<Error>))
    ensures r.0.cache == st.cache && (r.1.None? ==> !r.0.useOptimizer)
    ensures r.1.None? <==> FullTree(env).Ok?
    ensures r.1.None? ==> r.0.tree == Some(FullTree(env).value)
  {
    var loaded := FullTree(env);
    if loaded.Ok? then (st.(tree := Some(loaded.value), useOptimizer := false), None)
    else (st.(tree := None), Some(loaded.error))
  }

  /**
   * A data file with a `uar` section and an object configured without the
   * changeable properties: as written, populating leaves a tree whose walks
   * apply the changeable-property rules; the corrected populate does not.
   */
  lemma PopulateKeepsChangeable(env: Env, st: Cached)
    requires !env.includeChangeable && Api.Load(env.decoded, true).Ok? && env.decoded.value.uar.Some?
    ensures PopulateAsWritten(env, st).0.tree.value.doc.uar.Some?
    ensures Populate(env, st).0.tree.value.doc.uar.None?
  {
  }

  // ----------------------------------------------------------------------------
  // What the object keeps true

  /**
   * The tree in memory is the one its fields say: the full tree as
   * configured when the optimiser is off, or, when it is on, the shard tree
   * of some User-Agent whose shard id is the recorded one.
   */
  ghost predicate Coherent(env: Env, st: Cached) {
    && (st.tree.Some? && !st.useOptimizer ==> FullTree(env) == Ok(st.tree.value))
    && (st.tree.Some? && st.useOptimizer ==>
          st.fragment.Some? &&
          exists u :: TreeOptimizer.ShardId(u, env.subtree) == st.fragment.value && ShardTree(env, u) == Ok(st.tree.value))
  }

  lemma LoadTreeCoherent(env: Env, st: Cached, ua: string)
    requires Coherent(env, st)
    ensures Coherent(env, LoadTree(env, st, ua).0)
  {
    var r := LoadTree(env, st, ua).0;
    if st.useOptimizer && st.tree.None? && r.tree.Some? {
      assert TreeOptimizer.ShardId(ua, env.subtree) == r.fragment.value && ShardTree(env, ua) == Ok(r.tree.value);
    }
  }

  /** `getProperties` keeps the object coherent and never turns the optimiser back on. */
  lemma GetPropertiesCoherent(env: Env, st: Cached, ua: string, cookie: Option<string>)
    requires Coherent(env, st)
    ensures var st' := GetProperties(env, st, ua, cookie).1;
      Coherent(env, st') && (!st.useOptimizer ==> !st'.useOptimizer)
  {
    LoadTreeCoherent(env, st, ua);
  }

  /**
   * Unless the answer comes from the cache, `getProperties` answers from a
   * tree that serves the User-Agent: the full tree when the optimiser is
   * off, else the shard of the User-Agent's own shard id.
   */
  lemma GetPropertiesServes(env: Env, st: Cached, ua: string, cookie: Option<string>)
    requires ua != "" && !CacheHit(env, st, ua, cookie)
    ensures var (r, st') := GetProperties(env, st, ua, cookie);
      r.Ok? ==> InMemory(env, st', ua) && r == Api.GetProperties(env.e, st'.tree.value, ua, cookie, false)
  {
  }

  /** The answer comes from the cache provider. */
  predicate CacheHit(env: Env, st: Cached, ua: string, cookie: Option<string>) {
    ua != "" && !InMemory(env, st, ua) && st.cache.Some? && CacheKey(env.e, ua, cookie) in st.cache.value
  }

  /** A cache hit returns the stored properties and changes nothing. */
  lemma CacheHitStored(env: Env, st: Cached, ua: string, cookie: Option<string>)
    requires CacheHit(env, st, ua, cookie)
    ensures GetProperties(env, st, ua, cookie) == (Ok(st.cache.value[CacheKey(env.e, ua, cookie)]), st)
  {
  }

  /** A miss that succeeds stores its answer under the key and keeps every other entry; one that fails stores nothing. */
  lemma CacheMissStores(env: Env, st: Cached, ua: string, cookie: Option<string>)
    requires ua != "" && !InMemory(env, st, ua) && st.cache.Some? && CacheKey(env.e, ua, cookie) !in st.cache.value
    ensures var (r, st') := GetProperties(env, st, ua, cookie);
      && st'.cache.Some?
      && (r.Ok? ==> st'.cache.value == st.cache.value[CacheKey(env.e, ua, cookie) := r.value])
      && (r.Err? ==> st'.cache == st.cache)
  {
  }

  /**
   * The first User-Agent of another shard switches the object to the full
   * tree for good, when that tree loads.
   */
  lemma OtherShardFallsBack(env: Env, st: Cached, ua: string, cookie: Option<string>)
    requires ua != "" && st.useOptimizer && st.tree.Some? && st.fragment != Some(TreeOptimizer.ShardId(ua, env.subtree))
    requires !CacheHit(env, st, ua, cookie) && FullTree(env).Ok?
    ensures var st' := GetProperties(env, st, ua, cookie).1;
      !st'.useOptimizer && st'.tree == Some(FullTree(env).value)
  {
  }

  /** The first User-Agent with the optimiser on loads its own shard and records its id. */
  lemma FirstLoadRecordsShard(env: Env, st: Cached, ua: string, cookie: Option<string>)
    requires ua != "" && st.useOptimizer && st.tree.None?
    requires !CacheHit(env, st, ua, cookie) && ShardTree(env, ua).Ok?
    ensures var st' := GetProperties(env, st, ua, cookie).1;
      && st'.useOptimizer
      && st'.fragment == Some(TreeOptimizer.ShardId(ua, env.subtree))
      && st'.tree == Some(ShardTree(env, ua).value)
  {
  }

  /** Populating as configured keeps the object coherent. */
  lemma PopulateCoherent(env: Env, st: Cached)
    ensures Coherent(env, Populate(env, st).0)
  {
  }

  /**
   * As written, populating breaks coherence for an object configured without
   * the changeable properties whose data file has a `uar` section.
   */
  lemma PopulateAsWrittenIncoherent(env: Env, st: Cached)
    requires !env.includeChangeable && Api.Load(env.decoded, true).Ok? && env.decoded.value.uar.Some?
    ensures !Coherent(env, PopulateAsWritten(env, st).0)
  {
    PopulateKeepsChangeable(env, st);
    var st' := PopulateAsWritten(env, st).0;
    if FullTree(env).Ok? {
      assert FullTree(env).value.doc.uar.None?;
    }
  }
}
