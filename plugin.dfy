/**
 * The database cache behind `getDatabase` in `createSqlitePlugin` (src/index.ts). One map
 * holds two kinds of keys: the serialised options of a lookup, and the paths of the
 * database files the cache opened itself. The user callback, `JSON.stringify` of the
 * options and `fileURLToPath` are parameters; opening a file is recorded in `opens` and
 * yields a handle numbered by its position there.
 */
module Plugin {
  import opened Texts
  import opened Seqs

  /** `GetDatabaseOptions`: the linted file and the database name in the query call. */
  datatype GetDatabaseOptions = GetDatabaseOptions(filename: string, name: string)

  /** A database object: one the user handed over, or the `serial`-th file the cache opened. */
  datatype Database = UserDatabase(handle: nat) | OpenedDatabase(path: string, serial: nat)

  /** What the user callback returns: a database object, a `URL`, or a string. */
  datatype UserResult = GivenDatabase(handle: nat) | GivenUrl(url: string) | GivenPath(s: string)

  /** The calls into code outside the cache. */
  datatype Hooks = Hooks(
    userGetDatabase: GetDatabaseOptions -> UserResult,
    cacheKey: GetDatabaseOptions -> string,
    fileUrlToPath: string -> string)

  /** The cache contents and the files opened so far, in order. */
  datatype CacheState = CacheState(entries: map<string, Database>, opens: seq<string>)

  /**
   * The cache only holds what it put there: each opened file is stored under its own path
   * as the handle for it, and every cached handle of an opened file is one of those.
   */
  ghost predicate ValidState(s: CacheState)
  {
    && (forall i :: 0 <= i < |s.opens| ==>
          s.opens[i] in s.entries && s.entries[s.opens[i]] == OpenedDatabase(s.opens[i], i))
    && (forall k :: k in s.entries && s.entries[k].OpenedDatabase? ==>
          s.entries[k].serial < |s.opens| && s.opens[s.entries[k].serial] == s.entries[k].path)
  }

  /** The path a string or URL result names: `file://` forms are converted, others kept. */
  function DatabasePath(result: UserResult, hooks: Hooks): string
    requires !result.GivenDatabase?
  {
    match result
    case GivenUrl(url) => hooks.fileUrlToPath(url)
    case GivenPath(s) => if StartsWith(s, "file://") then hooks.fileUrlToPath(s) else s
  }

  /**
   * One call of `getDatabase`: the database it returns and the cache after it. A cached
   * database is always truthy, so a lookup hits exactly when the key is present. After
   * the call the options key is bound to the database returned, and nothing cached
   * before is lost or rebound.
   */
  function Step(s: CacheState, opts: GetDatabaseOptions, hooks: Hooks): (r: (Database, CacheState))
    ensures hooks.cacheKey(opts) in r.1.entries && r.1.entries[hooks.cacheKey(opts)] == r.0
    ensures forall k :: k in s.entries ==> k in r.1.entries && r.1.entries[k] == s.entries[k]
    ensures s.opens <= r.1.opens
  {
    var key := hooks.cacheKey(opts);
    if key in s.entries then (s.entries[key], s)
    else
      var result := hooks.userGetDatabase(opts);
      if result.GivenDatabase? then
        var db := UserDatabase(result.handle);
        (db, CacheState(s.entries[key := db], s.opens))
      else
        var path := DatabasePath(result, hooks);
        if path in s.entries then (s.entries[path], CacheState(s.entries[key := s.entries[path]], s.opens))
        else
          var db := OpenedDatabase(path, |s.opens|);
          (db, CacheState(s.entries[key := db][path := db], s.opens + [path]))
  }

  /** A hit on the options key returns the cached database, changes nothing, and does not depend on the user callback. */
  lemma CachedKeySkipsCallback(s: CacheState, opts: GetDatabaseOptions, hooks: Hooks, other: GetDatabaseOptions -> UserResult)
    requires hooks.cacheKey(opts) in s.entries
    ensures Step(s, opts, hooks) == (s.entries[hooks.cacheKey(opts)], s)
    ensures Step(s, opts, hooks.(userGetDatabase := other)) == Step(s, opts, hooks)
  {
  }

  /** A database object from the user is cached under the options key only, and no file is opened. */
  lemma UserDatabaseCachedUnderKeyOnly(s: CacheState, opts: GetDatabaseOptions, hooks: Hooks)
    requires hooks.cacheKey(opts) !in s.entries
    requires hooks.userGetDatabase(opts).GivenDatabase?
    ensures var (db, t) := Step(s, opts, hooks);
      && db == UserDatabase(hooks.userGetDatabase(opts).handle)
      && t.entries.Keys == s.entries.Keys + {hooks.cacheKey(opts)}
      && t.opens == s.opens
  {
  }

  /** A path that is already cached binds the options key to that same database without opening anything. */
  lemma CachedPathShared(s: CacheState, opts: GetDatabaseOptions, hooks: Hooks)
    requires hooks.cacheKey(opts) !in s.entries
    requires !hooks.userGetDatabase(opts).GivenDatabase?
    requires DatabasePath(hooks.userGetDatabase(opts), hooks) in s.entries
    ensures var (db, t) := Step(s, opts, hooks);
      && db == s.entries[DatabasePath(hooks.userGetDatabase(opts), hooks)]
      && t.entries.Keys == s.entries.Keys + {hooks.cacheKey(opts)}
      && t.opens == s.opens
  {
  }

  /** An uncached path is opened once and stored under both the options key and the path. */
  lemma NewPathOpened(s: CacheState, opts: GetDatabaseOptions, hooks: Hooks)
    requires hooks.cacheKey(opts) !in s.entries
    requires !hooks.userGetDatabase(opts).GivenDatabase?
    requires DatabasePath(hooks.userGetDatabase(opts), hooks) !in s.entries
    ensures var path := DatabasePath(hooks.userGetDatabase(opts), hooks);
      var (db, t) := Step(s, opts, hooks);
      && db == OpenedDatabase(path, |s.opens|)
      && t.opens == s.opens + [path]
      && t.entries.Keys == s.entries.Keys + {hooks.cacheKey(opts), path}
      && t.entries[path] == db
  {
  }

  /** Strings naming a `file://` URL and the URL itself lead to the same path. */
  lemma FileUrlStringsConverted(url: string, hooks: Hooks)
    requires StartsWith(url, "file://")
    ensures DatabasePath(GivenPath(url), hooks) == DatabasePath(GivenUrl(url), hooks)
    ensures DatabasePath(GivenPath("db.sqlite"), hooks) == "db.sqlite"
  {
    assert !StartsWith("db.sqlite", "file://") by {
      assert "db.sqlite"[..7] != "file://" by { assert "db.sqlite"[0] == 'd'; }
    }
  }

  /** The empty cache is consistent, and every call keeps the cache consistent. */
  lemma StepKeepsValid(s: CacheState, opts: GetDatabaseOptions, hooks: Hooks)
    requires ValidState(s)
    ensures ValidState(CacheState(map[], []))
    ensures ValidState(Step(s, opts, hooks).1)
  {
    var key := hooks.cacheKey(opts);
    if key !in s.entries && !hooks.userGetDatabase(opts).GivenDatabase? {
      var path := DatabasePath(hooks.userGetDatabase(opts), hooks);
      if path !in s.entries {
        var db := OpenedDatabase(path, |s.opens|);
        var t := CacheState(s.entries[key := db][path := db], s.opens + [path]);
        assert Step(s, opts, hooks).1 == t;
        forall i | 0 <= i < |t.opens|
          ensures t.opens[i] in t.entries && t.entries[t.opens[i]] == OpenedDatabase(t.opens[i], i)
        {
          if i < |s.opens| {
            assert s.opens[i] in s.entries;
          }
        }
      }
    }
  }

  /** In a consistent cache no file has been opened twice. */
  lemma ValidOpensDistinct(s: CacheState)
    requires ValidState(s)
    ensures NoDuplicates(s.opens)
  {
  }

  /** The cache after a series of calls, starting from `s`. */
  function Run(s: CacheState, calls: seq<GetDatabaseOptions>, hooks: Hooks): CacheState
    decreases |calls|
  {
    if |calls| == 0 then s else Run(Step(s, calls[0], hooks).1, calls[1..], hooks)
  }

  /** However many calls are made on a fresh cache, each distinct path is opened at most once. */
  lemma {:induction false} EachPathOpenedOnce(s: CacheState, calls: seq<GetDatabaseOptions>, hooks: Hooks)
    requires ValidState(s)
    ensures ValidState(Run(s, calls, hooks))
    ensures NoDuplicates(Run(s, calls, hooks).opens)
    decreases |calls|
  {
    if |calls| > 0 {
      StepKeepsValid(s, calls[0], hooks);
      EachPathOpenedOnce(Step(s, calls[0], hooks).1, calls[1..], hooks);
    } else {
      ValidOpensDistinct(s);
    }
  }

  /** The map `createSqlitePlugin` keeps across calls of `getDatabase`. */
  class DatabaseCache {
    var entries: map<string, Database>
    var opens: seq<string>

    ghost predicate Valid()
      reads this
    {
      ValidState(CacheState(entries, opens))
    }

    constructor ()
      ensures entries == map[] && opens == []
      ensures Valid()
    {
      entries := map[];
      opens := [];
    }

    /** `getDatabase`: look up the options key, then ask the user, then look up or open the path. */
    method GetDatabase(opts: GetDatabaseOptions, hooks: Hooks) returns (db: Database)
      requires Valid()
      modifies this
      ensures Valid()
      ensures (db, CacheState(entries, opens)) == Step(CacheState(old(entries), old(opens)), opts, hooks)
    {
      ghost var before := CacheState(entries, opens);
      StepKeepsValid(before, opts, hooks);
      var cacheKey := hooks.cacheKey(opts);
      if cacheKey in entries {
        return entries[cacheKey];
      }
      var userResult := hooks.userGetDatabase(opts);
      if userResult.GivenDatabase? {
        db := UserDatabase(userResult.handle);
        entries := entries[cacheKey := db];
        return;
      }
      var dbPath := DatabasePath(userResult, hooks);
      if dbPath in entries {
        var cached := entries[dbPath];
        entries := entries[cacheKey := cached];
        return cached;
      }
      db := OpenedDatabase(dbPath, |opens|);
      opens := opens + [dbPath];
      entries := entries[cacheKey := db];
      entries := entries[dbPath := db];
    }
  }
}
