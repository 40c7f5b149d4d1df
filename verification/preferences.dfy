/** The `Preferences` class: a read-only SharedPreferences that loads its content from
    the frontend's content provider, falls back for good to a legacy
    XSharedPreferences file when the provider refuses access, keeps the split form of
    the string-list preferences in a cache, and applies update broadcasts. Every
    operation is a pure transition on an immutable state record. */
module Preferences {
  import opened Wrappers
  import opened Values
  import opened Rows
  import opened Split

  /** The file a legacy handle reads: a directory and a file name inside it. */
  datatype PrefsFile = PrefsFile(dir: string, fileName: string)

  /** A legacy XSharedPreferences handle: its file and the map it last read from it. */
  datatype Legacy = Legacy(file: PrefsFile, data: map<string, Value>)

  /** The app-wide constants the class reads: the module's base directory, the
      shared-preferences folder name, and the keys whose string lists are cached. */
  datatype Env = Env(baseDir: string, sharedPrefsFolder: string, stringListKeys: seq<string>)

  /** The state of one `Preferences` instance. `done` is the load channel. */
  datatype Prefs = Prefs(
    name: string,
    content: map<string, Value>,
    legacy: Option<Legacy>,
    done: bool,
    listCache: map<string, seq<string>>)

  /** A freshly constructed instance: nothing loaded, no legacy handle. */
  function New(name: string): (p: Prefs)
    ensures p.name == name && p.content == map[] && p.legacy.None? && !p.done && p.listCache == map[]
  {
    Prefs(name, map[], None, false, map[])
  }

  /** `File("$MAGICIAN_BASE_DIR/$FOLDER_SHARED_PREFS/", "$preferencesName.xml")`. */
  function LegacyFile(env: Env, name: string): PrefsFile {
    PrefsFile(env.baseDir + "/" + env.sharedPrefsFolder + "/", name + ".xml")
  }

  // ---------------------------------------------------------------- reads

  /** `getAll()`: the legacy handle's map when there is a handle, else `content`. */
  function All(p: Prefs): map<string, Value> {
    match p.legacy
    case Some(h) => h.data
    case None => p.content
  }

  /** `contains(key)`: present in `content` or in the legacy handle; both are consulted,
      whichever one `getAll` reads. */
  function Contains(p: Prefs, key: string): bool {
    key in p.content || match p.legacy case Some(h) => key in h.data case None => false
  }

  /** `getValue(key)`: the entry of the active source, after the bounded wait. */
  function GetValue(p: Prefs, key: string): Option<Value> {
    if key in All(p) then Some(All(p)[key]) else None
  }

  /** `getInt`: the stored value if it is an `Int`, else the default. */
  function GetInt(p: Prefs, key: string, def: Int32): (r: Int32)
    ensures GetValue(p, key) == Some(IntV(r)) || (r == def && !(GetValue(p, key).Some? && GetValue(p, key).value.IntV?))
  {
    match GetValue(p, key)
    case Some(IntV(i)) => i
    case _ => def
  }

  /** `getLong`: the stored value if it is a `Long`, else the default. */
  function GetLong(p: Prefs, key: string, def: Int64): (r: Int64)
    ensures GetValue(p, key) == Some(LongV(r)) || (r == def && !(GetValue(p, key).Some? && GetValue(p, key).value.LongV?))
  {
    match GetValue(p, key)
    case Some(LongV(l)) => l
    case _ => def
  }

  /** `getFloat`: the stored value if it is a `Float`, else the default. */
  function GetFloat(p: Prefs, key: string, def: Float32): (r: Float32)
    ensures GetValue(p, key) == Some(FloatV(r)) || (r == def && !(GetValue(p, key).Some? && GetValue(p, key).value.FloatV?))
  {
    match GetValue(p, key)
    case Some(FloatV(f)) => f
    case _ => def
  }

  /** `getBoolean`: the stored value if it is a `Boolean`, else the default. A stored
      `false` is returned as `false`, not replaced by the default. */
  function GetBoolean(p: Prefs, key: string, def: bool): (r: bool)
    ensures GetValue(p, key) == Some(BoolV(r)) || (r == def && !(GetValue(p, key).Some? && GetValue(p, key).value.BoolV?))
  {
    match GetValue(p, key)
    case Some(BoolV(b)) => b
    case _ => def
  }

  /** `getString`: the stored value if it is a `String`, else the (nullable) default. */
  function GetString(p: Prefs, key: string, def: Option<string>): (r: Option<string>)
    ensures (r.Some? && GetValue(p, key) == Some(StrV(r.value))) || (r == def && !(GetValue(p, key).Some? && GetValue(p, key).value.StrV?))
  {
    match GetValue(p, key)
    case Some(StrV(s)) => Some(s)
    case _ => def
  }

  /** `getStringSet`: the stored value if it is a string set, else the (nullable) default. */
  function GetStringSet(p: Prefs, key: string, def: Option<set<string>>): (r: Option<set<string>>)
    ensures (r.Some? && GetValue(p, key) == Some(StrSetV(r.value))) || (r == def && !(GetValue(p, key).Some? && GetValue(p, key).value.StrSetV?))
  {
    match GetValue(p, key)
    case Some(StrSetV(ss)) => Some(ss)
    case _ => def
  }

  /** `getStringList`: the cached list, or the default for a key that has none. */
  function GetStringList(p: Prefs, key: string, def: seq<string>): (r: seq<string>)
    ensures key in p.listCache ==> r == p.listCache[key]
    ensures key !in p.listCache ==> r == def
  {
    if key in p.listCache then p.listCache[key] else def
  }

  // ---------------------------------------------------------------- list cache

  /** The list `cacheStringList` stores for `key`: `getString(key, "")` split at
      separators with the empty segments dropped; the empty list if that were null. */
  function CachedList(p: Prefs, key: string): seq<string> {
    match GetString(p, key, Some(""))
    case Some(s) => Tokens(s)
    case None => []
  }

  /** The cache agrees with the active source on every watched key. */
  predicate CacheCoherent(p: Prefs, env: Env) {
    forall k :: k in env.stringListKeys ==> k in p.listCache && p.listCache[k] == CachedList(p, k)
  }

  /** Recomputes, in `cache`, the entries of `keys` from the active source of `p`. */
  function CacheKeys(p: Prefs, cache: map<string, seq<string>>, keys: seq<string>): (r: map<string, seq<string>>)
    ensures r.Keys == cache.Keys + set k | k in keys
    ensures forall k :: k in keys ==> r[k] == CachedList(p, k)
    ensures forall k :: k in cache && k !in keys ==> r[k] == cache[k]
    decreases |keys|
  {
    if |keys| == 0 then cache
    else
      assert (set k | k in keys) == {keys[0]} + set k | k in keys[1..];
      CacheKeys(p, cache[keys[0] := CachedList(p, keys[0])], keys[1..])
  }

  /** `cacheStringList()`: recomputes the cached list of every watched key from the
      active source and leaves everything else alone. */
  function CacheStringList(p: Prefs, env: Env): (r: Prefs)
    ensures CacheCoherent(r, env)
    ensures r.(listCache := p.listCache) == p
    ensures r.listCache.Keys == p.listCache.Keys + set k | k in env.stringListKeys
    ensures forall k :: k in p.listCache && k !in env.stringListKeys ==> r.listCache[k] == p.listCache[k]
  {
    var r := p.(listCache := CacheKeys(p, p.listCache, env.stringListKeys));
    assert All(r) == All(p);
    assert forall k :: CachedList(r, k) == CachedList(p, k);
    r
  }

  // ---------------------------------------------------------------- load

  /** What the provider query does: answer with rows (a null cursor is an answer
      with no rows), or throw `SecurityException`. In the second case `disk` is the
      map the legacy handle reads from its file, whether it is built or reloaded. */
  datatype Query = Answered(rows: seq<Row>) | Denied(disk: map<string, Value>)

  /** Which branch of `load` runs. */
  datatype LoadPath = ReadRows | ReloadLegacy | CreateLegacy

  /** A denied query reloads the existing handle only when loading was already done
      and a handle exists; otherwise it builds a new handle. */
  function PathOf(p: Prefs, q: Query): (path: LoadPath)
    ensures path == ReadRows <==> q.Answered?
    ensures path == ReloadLegacy <==> q.Denied? && p.done && p.legacy.Some?
  {
    match q
    case Answered(_) => ReadRows
    case Denied(_) => if p.done && p.legacy.Some? then ReloadLegacy else CreateLegacy
  }

  /** The `finally` block: `loadChannel.done()`, then `cacheStringList()`. */
  function Finish(p: Prefs, env: Env): (r: Prefs)
    ensures r.done && CacheCoherent(r, env)
    ensures r.content == p.content && r.legacy == p.legacy && r.name == p.name
  {
    CacheStringList(p.(done := true), env)
  }

  /** `load(context)`, run to completion. A throwing row stops the row loop but the
      `finally` block still runs; the early `return` of the reload branch runs it too. */
  function Load(p: Prefs, env: Env, q: Query): (r: Prefs)
    ensures r.name == p.name
    ensures r.done && CacheCoherent(r, env)
    ensures p.legacy.Some? ==> r.legacy.Some?
    ensures q.Answered? ==> r.content == ApplyRows(p.content, q.rows).content && r.legacy == p.legacy
    ensures q.Denied? ==> r.content == p.content && r.legacy.Some? && r.legacy.value.data == q.disk
    ensures PathOf(p, q) == ReloadLegacy ==> r.legacy.value.file == p.legacy.value.file
    ensures PathOf(p, q) == CreateLegacy ==> r.legacy.value.file == LegacyFile(env, p.name)
    ensures forall k :: k in r.listCache ==> k in p.listCache || k in env.stringListKeys
  {
    var loaded :=
      match PathOf(p, q)
      case ReadRows => p.(content := ApplyRows(p.content, q.rows).content)
      case ReloadLegacy => p.(legacy := Some(p.legacy.value.(data := q.disk)))
      case CreateLegacy => p.(legacy := Some(Legacy(LegacyFile(env, p.name), q.disk)));
    Finish(loaded, env)
  }

  // ---------------------------------------------------------------- updates

  /** An update broadcast: its extras bundle (an intent without extras has an empty one). */
  datatype Intent = Intent(extras: map<string, Value>)

  /** The write an update broadcast asks for: `getStringExtra("key")`, which is null
      unless the "key" extra is a string, and the "value" extra. `None` when the
      intent is null, has no string "key", or has no "value" (storing that null
      throws before anything is written). */
  function Payload(intent: Option<Intent>): (r: Option<(string, Value)>)
    ensures r.Some? <==> intent.Some? && "key" in intent.value.extras && intent.value.extras["key"].StrV?
                         && "value" in intent.value.extras
    ensures r.Some? ==> intent.value.extras["key"] == StrV(r.value.0) && intent.value.extras["value"] == r.value.1
  {
    match intent
    case None => None
    case Some(it) =>
      if "key" in it.extras && it.extras["key"].StrV? && "value" in it.extras
      then Some((it.extras["key"].s, it.extras["value"]))
      else None
  }

  /** How `onReceive` ends. `Ignored` is the silent return (a null intent, or no string
      "key" extra); `NullValueThrown` is a string "key" without a "value" extra, whose
      null store makes `ConcurrentHashMap` throw `NullPointerException` before anything
      is written. */
  datatype Receipt = Reloaded | Ignored | Written(key: string, value: Value) | NullValueThrown(key: string)

  /** The outcome of `onReceive` on state `p`, read off the intent's extras. */
  function ReceiptOf(p: Prefs, intent: Option<Intent>): Receipt {
    if p.legacy.Some? then Reloaded
    else match intent
      case None => Ignored
      case Some(it) =>
        if !("key" in it.extras && it.extras["key"].StrV?) then Ignored
        else if "value" !in it.extras then NullValueThrown(it.extras["key"].s)
        else Written(it.extras["key"].s, it.extras["value"])
  }

  /** `updateReceiver.onReceive(context, intent)`, after its bounded wait. With a
      legacy handle the intent is ignored: the handle rereads its file (`disk`) and
      the cache is recomputed. Without one, the intent's key is written into
      `content`, and nothing else changes: not even the list cache. A string key
      without a value throws on the null store (`ReceiptOf` tells this apart from the
      silent return); the state is then the one before the call. */
  function OnReceive(p: Prefs, env: Env, intent: Option<Intent>, disk: map<string, Value>): (r: Prefs)
    ensures r.name == p.name && r.done == p.done
    ensures p.legacy.Some? ==> r.content == p.content && r.legacy == Some(p.legacy.value.(data := disk))
                               && CacheCoherent(r, env)
    ensures p.legacy.None? && Payload(intent).None? ==> r == p
    ensures p.legacy.None? && Payload(intent).Some? ==>
              r == p.(content := p.content[Payload(intent).value.0 := Payload(intent).value.1])
    ensures ReceiptOf(p, intent).Written? ==>
              r == p.(content := p.content[ReceiptOf(p, intent).key := ReceiptOf(p, intent).value])
    ensures ReceiptOf(p, intent).Ignored? || ReceiptOf(p, intent).NullValueThrown? ==> r == p
  {
    match p.legacy
    case Some(h) => CacheStringList(p.(legacy := Some(h.(data := disk))), env)
    case None =>
      match Payload(intent)
      case None => p
      case Some((k, v)) => p.(content := p.content[k := v])
  }

  // ---------------------------------------------------------------- properties

  /** A key neither source has reads as the caller's default under every getter. */
  lemma AbsentKeyGivesDefaults(p: Prefs, key: string, i: Int32, l: Int64, f: Float32, b: bool,
                               s: Option<string>, ss: Option<set<string>>)
    requires !Contains(p, key)
    ensures GetValue(p, key).None?
    ensures GetInt(p, key, i) == i && GetLong(p, key, l) == l && GetFloat(p, key, f) == f
    ensures GetBoolean(p, key, b) == b && GetString(p, key, s) == s && GetStringSet(p, key, ss) == ss
  {
  }

  /** The getters do not convert between kinds: an `Int` read as a `Long` (or as any
      other kind) gives the default. */
  lemma IntReadAsOtherKindGivesDefault(p: Prefs, key: string, n: Int32, l: Int64, f: Float32, b: bool,
                                       s: Option<string>, ss: Option<set<string>>)
    requires GetValue(p, key) == Some(IntV(n))
    ensures GetInt(p, key, 0) == n
    ensures GetLong(p, key, l) == l && GetFloat(p, key, f) == f && GetBoolean(p, key, b) == b
    ensures GetString(p, key, s) == s && GetStringSet(p, key, ss) == ss
  {
  }

  /** With a legacy handle every getter reads the handle, whatever `content` holds,
      while `contains` still answers for both sources. */
  lemma LegacyShadowsContent(p: Prefs, key: string)
    requires p.legacy.Some?
    ensures GetValue(p, key) == (if key in p.legacy.value.data then Some(p.legacy.value.data[key]) else None)
    ensures key in p.content ==> Contains(p, key)
  {
  }

  /** Any key a getter can read is one `contains` reports; without a legacy handle
      the two agree exactly. */
  lemma ContainsCoversReads(p: Prefs, key: string)
    ensures GetValue(p, key).Some? ==> Contains(p, key)
    ensures p.legacy.None? ==> (Contains(p, key) <==> GetValue(p, key).Some?)
  {
  }

  /** `contains` can be true while every getter returns the default: a provider load
      fills `content`, a later denied load switches to a legacy file without the key. */
  lemma ContainsWithoutValue(env: Env)
    ensures var p0 := New("settings");
      var p1 := Load(p0, env, Answered([Row(Some("k"), Cell(None, 7, 0, Float32(0)), Some("Int"))]));
      var p2 := Load(p1, env, Denied(map[]));
      Contains(p2, "k") && GetValue(p2, "k").None? && GetInt(p2, "k", 1) == 1
  {
    var p0 := New("settings");
    var row := Row(Some("k"), Cell(None, 7, 0, Float32(0)), Some("Int"));
    assert DecodeRow(row) == Some(("k", IntV(7)));
    ApplyRowsLastWins(p0.content, [row], "k");
  }

  /** After a provider load with no throwing row, each key holds the value of its last
      row, or what it held before when no row names it. */
  lemma ReadAfterLoad(p: Prefs, env: Env, rows: seq<Row>, key: string)
    requires p.legacy.None? && AllDecodable(rows)
    ensures var r := Load(p, env, Answered(rows));
      GetValue(r, key) == (match LastValue(rows, key)
                           case Some(v) => Some(v)
                           case None => if key in p.content then Some(p.content[key]) else None)
  {
    ApplyRowsLastWins(p.content, rows, key);
  }

  /** After a load, each watched key's cached list is its string value split at
      spaces and `|` with empty pieces dropped, and a missing or non-string value
      gives the empty list; the caller's default is never returned. */
  lemma CachedListAfterLoad(p: Prefs, env: Env, q: Query, key: string, def: seq<string>)
    requires key in env.stringListKeys
    ensures var r := Load(p, env, q);
      && (GetValue(r, key).Some? && GetValue(r, key).value.StrV? ==>
            GetStringList(r, key, def) == Tokens(GetValue(r, key).value.s))
      && (!(GetValue(r, key).Some? && GetValue(r, key).value.StrV?) ==> GetStringList(r, key, def) == [])
  {
    TokensOfEmpty();
  }

  /** Read-after-write: without a legacy handle an update broadcast for `k` makes every
      getter of `k`'s kind return the new value, and no other key changes. */
  lemma ReadAfterUpdate(p: Prefs, env: Env, k: string, v: Value, disk: map<string, Value>, other: string)
    requires p.legacy.None? && other != k
    ensures var r := OnReceive(p, env, Some(Intent(map["key" := StrV(k), "value" := v])), disk);
      && GetValue(r, k) == Some(v)
      && (v.IntV? ==> GetInt(r, k, 0) == v.i)
      && (v.StrV? ==> GetString(r, k, None) == Some(v.s))
      && GetValue(r, other) == GetValue(p, other)
      && r.listCache == p.listCache
  {
  }

  /** Without a legacy handle, an update broadcast that names no string key returns
      silently, and one with a string key but no value throws on the null store; in
      both cases the state is left as it was. */
  lemma IgnoredBroadcasts(p: Prefs, env: Env, extras: map<string, Value>, disk: map<string, Value>)
    requires p.legacy.None?
    ensures ReceiptOf(p, None) == Ignored && OnReceive(p, env, None, disk) == p
    ensures !("key" in extras && extras["key"].StrV?) ==>
              ReceiptOf(p, Some(Intent(extras))) == Ignored && OnReceive(p, env, Some(Intent(extras)), disk) == p
    ensures "key" in extras && extras["key"].StrV? && "value" !in extras ==>
              ReceiptOf(p, Some(Intent(extras))) == NullValueThrown(extras["key"].s)
              && OnReceive(p, env, Some(Intent(extras)), disk) == p
    ensures "key" in extras && extras["key"].StrV? && "value" in extras ==>
              ReceiptOf(p, Some(Intent(extras))) == Written(extras["key"].s, extras["value"])
  {
  }

  /** With a legacy handle the intent's payload is never written: the result is the
      same whatever the intent carries. */
  lemma LegacyIgnoresPayload(p: Prefs, env: Env, a: Option<Intent>, b: Option<Intent>, disk: map<string, Value>)
    requires p.legacy.Some?
    ensures OnReceive(p, env, a, disk) == OnReceive(p, env, b, disk)
    ensures OnReceive(p, env, a, disk).content == p.content
  {
  }

  /** An update broadcast for a watched key leaves that key's cached list stale
      without a legacy handle: `onReceive` writes `content` but does not recompute
      the cache, so whenever the new string splits differently from the old entry,
      `getStringList` no longer agrees with `getString`. */
  lemma UpdateLeavesCacheStale(p: Prefs, env: Env, k: string, v: string, disk: map<string, Value>)
    requires p.legacy.None? && k in env.stringListKeys && CacheCoherent(p, env)
    requires Tokens(v) != CachedList(p, k)
    ensures var r := OnReceive(p, env, Some(Intent(map["key" := StrV(k), "value" := StrV(v)])), disk);
      && GetString(r, k, None) == Some(v)
      && GetStringList(r, k, []) == CachedList(p, k) != Tokens(v)
      && !CacheCoherent(r, env)
  {
    var intent := Some(Intent(map["key" := StrV(k), "value" := StrV(v)]));
    assert Payload(intent) == Some((k, StrV(v)));
    var r := OnReceive(p, env, intent, disk);
    assert CachedList(r, k) == Tokens(v);
  }
}
