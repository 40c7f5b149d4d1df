# Preferences of WechatMagician, modelled in Dafny

WechatMagician's backend reads its settings through `Preferences`, a read-only
`SharedPreferences`. Loading asks the frontend's content provider for rows of
(key, value, type tag) and decodes them into an in-memory `content` map. If the
provider throws `SecurityException`, the class falls back to a legacy
`XSharedPreferences` handle on `<base dir>/<shared prefs folder>/<name>.xml`, and it
keeps that handle for the rest of the instance's life. After each load it marks
its load channel done and recomputes `listCache`. This cache holds the string-list
preferences, each split at spaces and `|` with the empty pieces dropped. Update
broadcasts either make the legacy handle reread its file or write one key into
`content`. The typed getters return the caller's default when a value is missing
or has another kind.

The model is a pure state machine over an immutable record
`Prefs(name, content, legacy, done, listCache)`:

- `wrappers.dfy`: `Option`, standing for Kotlin's nullable references.
- `values.dfy`: the value kinds `Int` (32-bit), `Long` (64-bit), `Float` (an opaque payload), `Boolean`, `String` and string set.
- `split.dfy`: the splitting rule of the list cache, with its round trip and a uniqueness proof.
- `rows.dfy`: decoding one cursor row, and the row loop that stores rows in cursor order and stops at a row that throws.
- `preferences.dfy`: `load`, `onReceive`, `cacheStringList`, the getters, `contains` and `getAll`.
- `traces.dfy`: runs of loads and broadcasts from a fresh instance. It holds the sticky-legacy properties and the invariants of reachable states.

Inputs the class gets from foreign code become parameters:

- the outcome of the provider query (`Answered(rows)` or `Denied(disk)`);
- what the cursor's typed getters return for the value column (`Cell`);
- the map a legacy handle reads from its file, when it is built or reloaded;
- the broadcast intent's extras;
- the app constants for the base directory, the shared-preferences folder and the watched keys (`Env`).

A null cursor is the same as `Answered([])`.

Behaviours of `Preferences.kt` the model keeps as written:

- An unknown type tag makes the `when` yield null, and `ConcurrentHashMap` rejects null. So the row loop throws and the remaining rows are never read, while the `finally` block still runs. A null key, or a null text under "String", does the same.
- A broadcast without a legacy handle writes `content` and does not call `cacheStringList`, so a watched key's cached list keeps its old value. `UpdateLeavesCacheStale` shows the stale entry.
- A denied query reloads the existing handle only when the load channel is also done. Otherwise it builds a new handle. On reachable states a handle exists only once the channel is done, so the test at Preferences.kt:54 reduces to `legacy != null` (`DeniedAfterLegacyOnlyReloads`).
- The `finally` block marks the channel done before it recomputes the cache. `Finish` keeps that order. In a sequential model the order cannot be observed.
- A broadcast with a string "key" extra but no "value" extra stores null, and `ConcurrentHashMap` throws before anything is written. `ReceiptOf` marks this `NullValueThrown`, apart from the silent return for a missing key.
- The receiver handles one broadcast, the preference update. Reloading from the provider is another call of `load`.

## Model

| member | source | states |
|---|---|---|
| Rows.DecodeValue | app/src/main/kotlin/com/gh0u1l5/wechatmagician/backend/storage/Preferences.kt:42-49 | the decoded kind always matches the type tag; the value is null exactly for a null or unknown tag or a null text under "String"; a "Boolean" row is true iff its text is "true"; `DecodeEncode` fixes the payload each tag reads |
| Rows.DecodeRow | app/src/main/kotlin/com/gh0u1l5/wechatmagician/backend/storage/Preferences.kt:40-49 | a row stores under its own key a value of its tag's kind, and throws exactly when the key or the decoded value is null |
| Rows.BooleanRowDecoding | app/src/main/kotlin/com/gh0u1l5/wechatmagician/backend/storage/Preferences.kt:46 | a "Boolean" row decodes to true exactly when its text equals "true", case-sensitively ("True" gives false) |
| Rows.DecodeEncode | app/src/main/kotlin/com/gh0u1l5/wechatmagician/backend/storage/Preferences.kt:42-47 | a row under a value's tag whose cell carries the value (`getInt`, `getLong` or `getFloat` returns it for a number, `getString` returns "true"/"false" for a Boolean or the text for a String) stores exactly that value under its key |
| Rows.ApplyRows | app/src/main/kotlin/com/gh0u1l5/wechatmagician/backend/storage/Preferences.kt:38-50 | the row loop runs to the end iff no row throws; keys already in content are never removed |
| Rows.ApplyRowsLastWins | app/src/main/kotlin/com/gh0u1l5/wechatmagician/backend/storage/Preferences.kt:38-50 | when no row throws, every key holds the value of its last row, and keys no row names keep their old entry or stay absent |
| Rows.ApplyRowsSnoc | app/src/main/kotlin/com/gh0u1l5/wechatmagician/backend/storage/Preferences.kt:39-50 | appending a row only sets that row's key (a later row overwrites an earlier one), or ends the loop as failed |
| Rows.ApplyRowsStopsAtBadRow | app/src/main/kotlin/com/gh0u1l5/wechatmagician/backend/storage/Preferences.kt:42-49 | a throwing row ends the loop: the rows after it never reach content |
| Split.Fields | app/src/main/kotlin/com/gh0u1l5/wechatmagician/backend/storage/Preferences.kt:93 | `split(" ", "\|")`: the segments between separators, empty ones included; `FieldsRoundTrip` and `FieldsUnique` characterise it |
| Split.NonEmpty | app/src/main/kotlin/com/gh0u1l5/wechatmagician/backend/storage/Preferences.kt:93 | `filter { it.isNotEmpty() }` on the segments; `NonEmptySpec` and `NonEmptyAppend` characterise it |
| Split.Tokens | app/src/main/kotlin/com/gh0u1l5/wechatmagician/backend/storage/Preferences.kt:93 | the split followed by the filter, the list cached for a string value; `TokensShape`, `TokensKeepText`, `TokensOfSegment` and `TokensAfterSegment` characterise it |
| Split.FirstSeparatorSpec | app/src/main/kotlin/com/gh0u1l5/wechatmagician/backend/storage/Preferences.kt:93 | the split point is the first space or `\|`: no separator comes before it, and it is a separator unless it is the end of the string |
| Split.NonEmptySpec | app/src/main/kotlin/com/gh0u1l5/wechatmagician/backend/storage/Preferences.kt:93 | the filter keeps exactly the non-empty segments: every kept item is a non-empty input segment, and every non-empty input segment is kept |
| Split.NonEmptyAppend | app/src/main/kotlin/com/gh0u1l5/wechatmagician/backend/storage/Preferences.kt:93 | the filter works segment by segment: one non-empty segment is kept as it is, an empty one is dropped, and the results for two halves concatenate, so the kept segments keep their order and their repeats |
| Split.FieldsRoundTrip | app/src/main/kotlin/com/gh0u1l5/wechatmagician/backend/storage/Preferences.kt:93 | the split segments contain no separator, and interleaving them with the input's separators rebuilds the input |
| Split.FieldsUnique | app/src/main/kotlin/com/gh0u1l5/wechatmagician/backend/storage/Preferences.kt:93 | any separator-free segments that rebuild the string around separator characters are exactly the split segments |
| Split.TokensShape | app/src/main/kotlin/com/gh0u1l5/wechatmagician/backend/storage/Preferences.kt:93 | every cached token is non-empty and holds neither a space nor `\|` |
| Split.TokensKeepText | app/src/main/kotlin/com/gh0u1l5/wechatmagician/backend/storage/Preferences.kt:93 | the cached tokens, laid end to end, are the input's non-separator characters in their original order |
| Split.TokensOfEmpty | app/src/main/kotlin/com/gh0u1l5/wechatmagician/backend/storage/Preferences.kt:93 | an empty string caches the empty list |
| Split.TokensAfterSegment | app/src/main/kotlin/com/gh0u1l5/wechatmagician/backend/storage/Preferences.kt:93 | a separator-free piece before a separator becomes the first token, unless it is empty, and the rest splits independently |
| Split.TokensExample | app/src/main/kotlin/com/gh0u1l5/wechatmagician/backend/storage/Preferences.kt:93 | for any non-empty separator-free a, b, c, the string a + " " + b + "\|\| " + c caches [a, b, c] (e.g. "alice bob\|\| carol" gives ["alice", "bob", "carol"]) |
| Preferences.New | app/src/main/kotlin/com/gh0u1l5/wechatmagician/backend/storage/Preferences.kt:20-29 | the field initialisers: an instance starts with empty content, no legacy handle, the load channel not done and an empty list cache; `NewWellformed` and `RunWellformed` show every state reached from it keeps the invariant |
| Preferences.LegacyFile | app/src/main/kotlin/com/gh0u1l5/wechatmagician/backend/storage/Preferences.kt:58-59 | the legacy file `<base dir>/<shared prefs folder>/` + `<name>.xml`; `Load`'s denied-query clause installs it and `Traces.Wellformed` keeps every handle on it |
| Preferences.Contains | app/src/main/kotlin/com/gh0u1l5/wechatmagician/backend/storage/Preferences.kt:97 | `contains`: the key is in `content` or in the legacy handle; `ContainsCoversReads` and `ContainsWithoutValue` relate it to the getters |
| Preferences.All | app/src/main/kotlin/com/gh0u1l5/wechatmagician/backend/storage/Preferences.kt:99 | `getAll`: the handle's map when a handle exists, else `content`; `LegacyShadowsContent` states what this means for reads |
| Preferences.GetValue | app/src/main/kotlin/com/gh0u1l5/wechatmagician/backend/storage/Preferences.kt:101-106 | `getValue`: the entry of the source `getAll` picks; every typed getter below is stated against it |
| Preferences.CachedList | app/src/main/kotlin/com/gh0u1l5/wechatmagician/backend/storage/Preferences.kt:93 | the list `cacheStringList` stores for a key: `Tokens` of its string value, or empty; `CacheKeys`, `CachedListAfterLoad` and the `Split` lemmas state what it holds |
| Preferences.Payload | app/src/main/kotlin/com/gh0u1l5/wechatmagician/backend/storage/Preferences.kt:79-80 | the write a broadcast asks for exists exactly when the intent has a string "key" extra and a "value" extra, and it carries those two extras |
| Preferences.ReceiptOf | app/src/main/kotlin/com/gh0u1l5/wechatmagician/backend/storage/Preferences.kt:72-80 | how `onReceive` ends: reload, silent return, write, or the null-store throw; `OnReceive` and `IgnoredBroadcasts` tie each outcome to the resulting state |
| Preferences.GetInt | app/src/main/kotlin/com/gh0u1l5/wechatmagician/backend/storage/Preferences.kt:108 | returns the stored value when the active source holds an Int under the key, else the default |
| Preferences.GetLong | app/src/main/kotlin/com/gh0u1l5/wechatmagician/backend/storage/Preferences.kt:110 | returns the stored value when the active source holds a Long under the key, else the default |
| Preferences.GetFloat | app/src/main/kotlin/com/gh0u1l5/wechatmagician/backend/storage/Preferences.kt:112 | returns the stored value when the active source holds a Float under the key, else the default |
| Preferences.GetBoolean | app/src/main/kotlin/com/gh0u1l5/wechatmagician/backend/storage/Preferences.kt:114 | returns the stored value when it is a Boolean, including a stored false, else the default |
| Preferences.GetString | app/src/main/kotlin/com/gh0u1l5/wechatmagician/backend/storage/Preferences.kt:116 | returns the stored value when it is a String, else the nullable default |
| Preferences.GetStringSet | app/src/main/kotlin/com/gh0u1l5/wechatmagician/backend/storage/Preferences.kt:118 | returns the stored value when it is a string set, else the nullable default |
| Preferences.GetStringList | app/src/main/kotlin/com/gh0u1l5/wechatmagician/backend/storage/Preferences.kt:120-123 | returns the cached list of the key, or the default when the key has no cache entry |
| Preferences.CacheKeys | app/src/main/kotlin/com/gh0u1l5/wechatmagician/backend/storage/Preferences.kt:92-94 | the returned cache maps each listed key to the split form of its `getString(key, "")`, keeps every other entry of the given cache, and has no other keys |
| Preferences.CacheStringList | app/src/main/kotlin/com/gh0u1l5/wechatmagician/backend/storage/Preferences.kt:91-95 | afterwards the cache agrees with the active source on every watched key, other cache entries keep their lists, and nothing else changes |
| Preferences.PathOf | app/src/main/kotlin/com/gh0u1l5/wechatmagician/backend/storage/Preferences.kt:52-59 | a provider answer reads rows; a denied query reloads the handle exactly when loading is done and a handle exists, and builds a new one otherwise |
| Preferences.Finish | app/src/main/kotlin/com/gh0u1l5/wechatmagician/backend/storage/Preferences.kt:60-63 | the finally block leaves the load channel done and the cache coherent, and does not touch content or legacy |
| Preferences.Load | app/src/main/kotlin/com/gh0u1l5/wechatmagician/backend/storage/Preferences.kt:32-64 | whichever branch runs, the channel ends done and the cache coherent; an answer only runs the row loop on content; a denial keeps content and installs the disk map in the reloaded or the newly built handle on the instance's own file; a handle once set stays set |
| Preferences.OnReceive | app/src/main/kotlin/com/gh0u1l5/wechatmagician/backend/storage/Preferences.kt:69-82 | with a legacy handle, the handle is reloaded, content is untouched and the cache recomputed; without one, a `Written` outcome writes only that key, and the silent return and the null-store throw leave the state as it was |
| Preferences.AbsentKeyGivesDefaults | app/src/main/kotlin/com/gh0u1l5/wechatmagician/backend/storage/Preferences.kt:97-118 | a key neither source has reads as the caller's default under every typed getter |
| Preferences.IntReadAsOtherKindGivesDefault | app/src/main/kotlin/com/gh0u1l5/wechatmagician/backend/storage/Preferences.kt:106-118 | getters do not convert kinds: a stored Int read with getLong (or any other kind's getter) gives the default |
| Preferences.LegacyShadowsContent | app/src/main/kotlin/com/gh0u1l5/wechatmagician/backend/storage/Preferences.kt:99-106 | with a legacy handle the getters read only the handle's map, whatever content holds |
| Preferences.ContainsCoversReads | app/src/main/kotlin/com/gh0u1l5/wechatmagician/backend/storage/Preferences.kt:97 | every key a getter can read is reported by contains; without a legacy handle the two agree exactly |
| Preferences.ContainsWithoutValue | app/src/main/kotlin/com/gh0u1l5/wechatmagician/backend/storage/Preferences.kt:97-103 | contains can be true while every getter returns the default (content filled by a provider load, then a denied load switches to a file lacking the key) |
| Preferences.ReadAfterLoad | app/src/main/kotlin/com/gh0u1l5/wechatmagician/backend/storage/Preferences.kt:38-50 | without a legacy handle, after a provider load with no throwing row, a getter reads the last row for the key, or the old entry when no row names it |
| Preferences.CachedListAfterLoad | app/src/main/kotlin/com/gh0u1l5/wechatmagician/backend/storage/Preferences.kt:60-63 | after any load, a watched key's list is its string value split at spaces and `\|`; a missing or non-string value gives the empty list |
| Preferences.ReadAfterUpdate | app/src/main/kotlin/com/gh0u1l5/wechatmagician/backend/storage/Preferences.kt:78-81 | without a legacy handle, a broadcast for k makes k read as the new value, leaves every other key and the cache as they were |
| Preferences.IgnoredBroadcasts | app/src/main/kotlin/com/gh0u1l5/wechatmagician/backend/storage/Preferences.kt:78-80 | without a legacy handle, a null intent or a missing or non-string "key" extra returns silently, a string key without a "value" extra throws on the null store, a key with a value is written; the first two change nothing |
| Preferences.LegacyIgnoresPayload | app/src/main/kotlin/com/gh0u1l5/wechatmagician/backend/storage/Preferences.kt:72-76 | with a legacy handle the intent's payload does not matter and content is never written |
| Preferences.UpdateLeavesCacheStale | app/src/main/kotlin/com/gh0u1l5/wechatmagician/backend/storage/Preferences.kt:78-81 | without a legacy handle, a broadcast that gives a watched key a string splitting differently from its cached list leaves that entry stale, so the cache no longer agrees with the source |
| Traces.StepWellformed | app/src/main/kotlin/com/gh0u1l5/wechatmagician/backend/storage/Preferences.kt:52-81 | each load or broadcast keeps the reachable-state invariant: a handle exists only once loading is done, it reads the instance's own file, and only watched keys are cached |
| Traces.RunWellformed | app/src/main/kotlin/com/gh0u1l5/wechatmagician/backend/storage/Preferences.kt:32-82 | every state reachable through loads and broadcasts satisfies that invariant |
| Traces.LegacySticky | app/src/main/kotlin/com/gh0u1l5/wechatmagician/backend/storage/Preferences.kt:52-59 | once the legacy handle is set it is never cleared or replaced by another file, and the load channel stays done |
| Traces.DeniedAfterLegacyOnlyReloads | app/src/main/kotlin/com/gh0u1l5/wechatmagician/backend/storage/Preferences.kt:54-57 | on a reachable state with a handle, a SecurityException only reloads that handle and never builds a new one |
| Traces.LegacyModeKeepsContent | app/src/main/kotlin/com/gh0u1l5/wechatmagician/backend/storage/Preferences.kt:72-76 | with a handle, broadcasts and denied loads never write content |
| Traces.LegacyModeKeepsCacheCoherent | app/src/main/kotlin/com/gh0u1l5/wechatmagician/backend/storage/Preferences.kt:72-76 | with a handle, the cache agrees with the handle after every event |
| Traces.DoneAfterLoad | app/src/main/kotlin/com/gh0u1l5/wechatmagician/backend/storage/Preferences.kt:60-61 | after any run that contains a load, the load channel is done |

## Left out

- Threads and timeouts are not modelled. `tryAsynchronously` becomes a load run to completion, and the bounded `loadChannel.wait` calls become no-ops. Interleavings are out of scope: overlapping loads, reads during a load, and the done-before-cache window.
- The content-provider query, its URI, and the reading of the XML file are foreign calls. Their results are inputs.
- A cursor getter that throws (say, `getInt` on text that is not a number) is left out. The getters' results are given values in `Cell`.
- `listen` and its `registerReceiver` call are left out. It is a foreign call wrapped in `tryVerbosely`.
- `edit` and the two listener-registration methods are left out. They only throw `UnsupportedOperationException`.
- An exception that escapes `load` is not modelled beyond its effect on state. The row loop stops and the `finally` block still runs.
- Preferences.OnReceive: the `NullPointerException` that a string "key" without a "value" extra raises on the receiver's thread is modelled only by its effect on state (nothing is written) and by the `NullValueThrown` outcome of `ReceiptOf`; its propagation out of `onReceive` is not modelled.
- `Float` values are opaque 32-bit payloads. IEEE comparison and NaN are not modelled.
- Intent extras of kinds other than the preference value kinds are not modelled.
- The constants `MAGICIAN_BASE_DIR`, `FOLDER_SHARED_PREFS` and `PREFERENCE_STRING_LIST_KEYS` live in the app's `Global` object, which is not part of this model. They are parameters (`Env`).
- WechatHook.kt is not part of this model. It is hooking, receiver registration and report-file I/O.
