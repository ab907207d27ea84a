# track-docs core, modelled in Dafny

This project models the session, locking and helper logic of the
track-docs API server (a Go service) and proves properties of it. Each
source component is a Dafny module:

- `MemoryProvider`: the process-local session store. It keeps a map from token id to list element and a recency list. Touching a session moves it to the front, and the sweep trims expired sessions from the back.
- `RedisProvider`: the Redis-backed session store. One hash per token under `token_v1::<tid>`, with an `active` marker beside the session's values. The Redis server is a value (`Cache`), with a `fault` parameter per command.
- `TokenManager`: provider selection, header-based dispatch, token ids `tok_<hex>`, and the periodic sweep.
- `Lock`: the single-instance Redis lock. It acquires by set-if-absent, retries in a bounded loop with random back-off, and releases by compare-and-delete. `NewMutex` and its functional options are modelled too.
- `Crypto`: `GenerateId` (prefix, `_`, lowercase Base16 as in section 8 of RFC 4648) and `GenerateRandomDuration`.
- `TenantDriver`: the multi-tenant Postgres driver. It reads the workspace from the request context, builds the quote-escaped `SET app.current_tenant='…'` statement, and rewrites `QueryContext`/`ExecContext`.
- `Migrations` (with `StringOrder`, Go's byte-wise string order): the migration registry and its sorted listing.
- `Paging`: reading page parameters from a query string, with clamping, and the offset/limit/sort a query gets.
- `ErrorCodes`: the sentinel errors, `errors.Is` over wrapped and joined errors, and the status-code table walked in any order.
- `FieldNames`: `UcFirst`, `LcFirst`, the camel-case `Split` of a field name, and `ValidationErrorToText`.
- `Wrappers`: `Option` and `Result`.

Time, randomness, the network and the store are inputs:

- The current time is an `int` of nanoseconds.
- Random bytes are an `Option<seq<byte>>`. `None` is a read error.
- The raw `Int63n` draws are a function `nat -> nat`.
- What other clients do to the lock's store between attempts is a function from attempt number to `Attempt`.
- `url.QueryUnescape` and `json.Unmarshal` are function parameters.
- `strconv.Atoi`/`Itoa` are defined here, on 64-bit `int`.

The model follows the code as written. Where the code works against its own evident intent, the as-written behaviour is modelled and a corrected variant is modelled beside it. The three such places are listed under Findings:

- The memory provider's `TokenInit` appends new sessions at the back of the recency list (`PushBack`). But touching a session moves it to the front, and the sweep starts at the back and stops at the first live session. So the intent is that the oldest session sits at the back, and a new session belongs at the front.
- `GetProvider` gives the package-level provider a fresh map but keeps its old list, so sessions created before are listed but unregistered. The intent is a fresh, empty provider.
- `UcFirst` slices off one byte after the first character, whatever that character's width. The intent is to replace the whole first character.

`Set` and `Delete` write and then touch the session, while `Get` and `GetAll` touch it first and then read. The model keeps each order. Touching leaves the values alone, so the order does not change what is read.

`TokenManager.TokenInit` uses the memory provider's `TokenInit` as written. `TokenManager.TokenInitCorrected` uses the corrected `TokenInitFront`, and the manager's health and sweep lemmas are stated for it. `NewManager` builds the memory provider with `NewProvider`. That is what `GetProvider` yields on its first call, while the package-level list is still empty.

`FieldNames.SplitText` and the lemmas about it work on characters and use the corrected `UcFirst`. `FieldNames.SplitBytes` is `Split` as written, on bytes. The two agree on every name that starts with an ASCII character.

## Model

| member | source | states |
|---|---|---|
| Crypto.ClampIdSize | pkg/crypto/id.go:12-14 | the size used is always in (0, 100); a size in range is kept, anything else becomes 32 |
| Crypto.HexEncode | pkg/crypto/id.go:19 | the encoding has two characters per byte, all from `0-9a-f` |
| Crypto.HexEncodeNibbles | pkg/crypto/id.go:19 | byte i is written at positions 2i (high nibble) and 2i+1 (low nibble) |
| Crypto.HexRoundTrip | pkg/crypto/id.go:19 | decoding the encoding of any bytes gives those bytes back |
| Crypto.HexDecodeCanonical | pkg/crypto/id.go:19 | every string the lowercase decoder accepts is the encoding of what it decodes to, so the encoding is a bijection onto its image |
| Crypto.GenerateId | pkg/crypto/id.go:11-19 | the id is empty exactly when the random read fails or comes up short; otherwise it is prefix, `_`, then 2n hex digits that decode to the first n random bytes (n the clamped size) |
| Crypto.GenerateRandomDuration | pkg/crypto/id.go:22-25 | given a duration of at least 1 ms, the result is a whole number of milliseconds in [0, duration) |
| Lock.Apply | pkg/lock/lock.go:47-78 | an option sets its own field to its argument and leaves every other field, the name, cache and config unchanged |
| Lock.ApplyAll | pkg/lock/lock.go:29-31 | applying the options in order never changes the name, cache or config |
| Lock.UntargetedFieldKept | pkg/lock/lock.go:29-31 | a field no option targets keeps its value |
| Lock.LastOptionWins | pkg/lock/lock.go:29-31 | the last option for a field determines its value |
| Lock.NewMutex | pkg/lock/lock.go:20-36 | the mutex has the given name and shares the lock's cache and config; a non-empty value from the options is kept, an empty one is replaced by `GenerateId("lok", 32)`; the other fields are as the options leave the defaults |
| Lock.NewMutexDefaults | pkg/lock/lock.go:20-34 | with no option: expiry 10 s, 50 attempts, 1 s delay, and a 68-character value starting `lok_` |
| Lock.SetNX | pkg/lock/mutex.go:70 | set-if-absent succeeds exactly when the key is absent and then stores the value; otherwise the store is unchanged |
| Lock.Acquire | pkg/lock/mutex.go:69-75 | a store error is returned as is; otherwise acquiring succeeds exactly when the name is free, and then the store maps the name to the mutex's value; a failed acquire changes nothing |
| Lock.CompareAndDelete | pkg/lock/mutex.go:15-21 | the script deletes the key and answers 1 exactly when the key holds the given value; otherwise it answers 0 and changes nothing |
| Lock.Release | pkg/lock/mutex.go:77-90 | release succeeds exactly when the key holds the mutex's value, and then removes it; a mismatch is `ErrUnLockFailed`, a store error is returned; neither changes the store |
| Lock.Unlock | pkg/lock/mutex.go:65-67 | unlock releases the mutex's own name: a script error is returned with the store untouched; otherwise the name is deleted exactly when it still holds this mutex's value, and anything else is `ErrUnlockFailed` with the store untouched |
| Lock.Lock | pkg/lock/mutex.go:47-60 | at most `retryCount` attempts; every attempt before the last found the name taken; success exactly when the last attempt met a healthy store with the name free, and then the value is stored; a store error ends the loop at once and is returned; all attempts contended gives `(false, nil)`, and so does `retryCount <= 0` with no attempt; one back-off between attempts and none after the last, each a whole number of milliseconds below the delay; with a delay under 1 ms there is at most one attempt, and when it is contended and more attempts were allowed the first back-off panics |
| Lock.OtherHolderExcluded | pkg/lock/mutex.go:15-21 | once one mutex holds a name, another mutex with a different value can neither acquire it nor unlock it |
| Lock.SecondUnlockFails | pkg/lock/mutex.go:62-90 | after a successful unlock, a second unlock fails with `ErrUnLockFailed` and changes nothing |
| Lock.LapsedHolderCannotRelease | pkg/lock/mutex.go:62-90 | when the holder's key lapses and another mutex takes it, the old holder's unlock fails and the new holder's entry stays |
| MemoryProvider.NewProvider | pkg/token/providers/memory/memory.go:12-17 | the corrected construction: an empty map and an empty list, satisfying the provider invariant, with no token readable |
| MemoryProvider.GetProvider | pkg/token/providers/memory/memory.go:12-17 | construction as written: no token is readable, but the list and element counter of the package-level provider are kept |
| MemoryProvider.GetProviderKeepsStaleList | pkg/token/providers/memory/memory.go:12-17 | after an earlier session, the constructed provider breaks the invariant: a listed session is no longer registered |
| MemoryProvider.TokenInit | pkg/token/providers/memory/memory.go:60-68 | as written: the token becomes readable under its id with a fresh element, the new session (empty values, accessed now) is appended at the back, and every other id reads as before |
| MemoryProvider.TokenInitFront | pkg/token/providers/memory/memory.go:60-68 | corrected: as `TokenInit`, but the new session is put at the front of the list |
| MemoryProvider.TokenRead | pkg/token/providers/memory/memory.go:70-76 | a token is returned exactly when the id is registered, naming that id and its element; reading changes nothing |
| MemoryProvider.TokenDestroy | pkg/token/providers/memory/memory.go:78-85 | the id is removed from the map and its element from the list; an unknown id changes nothing |
| MemoryProvider.TokenUpdate | pkg/token/providers/memory/memory.go:105-114 | a registered id's session gets the access time now and moves to the front, the others keeping their relative order; an unknown id changes nothing |
| MemoryProvider.TokenGC | pkg/token/providers/memory/memory.go:87-103 | the sweep removes exactly the longest expired suffix of the list (`accessed.Unix() + maxlifetime < now.Unix()`, whole seconds) and unregisters exactly those sessions' ids; the rest of the list is untouched |
| MemoryProvider.SetValue | pkg/token/providers/memory/memory.go:25-29 | `Set` never changes which ids are registered |
| MemoryProvider.DeleteValue | pkg/token/providers/memory/memory.go:44-48 | `Delete` never changes which ids are registered |
| MemoryProvider.GetValue | pkg/token/providers/memory/memory.go:36-42 | `Get` touches the session, then finds the key exactly when the session is listed and holds it, giving its value, and otherwise gives `("", false)` |
| MemoryProvider.GetAll | pkg/token/providers/memory/memory.go:31-34 | `GetAll` touches the session and returns its values |
| MemoryProvider.UpdatePreservesValid | pkg/token/providers/memory/memory.go:105-114 | touching keeps the invariant: every list element is registered under its id, every registered id is listed, and the elements are distinct |
| MemoryProvider.InitPreservesValid | pkg/token/providers/memory/memory.go:60-68 | creating a session under an unused id keeps the invariant |
| MemoryProvider.InitFrontPreservesValid | pkg/token/providers/memory/memory.go:60-68 | the corrected creation keeps the invariant too |
| MemoryProvider.DestroyPreservesValid | pkg/token/providers/memory/memory.go:78-85 | destroying keeps the invariant |
| MemoryProvider.GCPreservesValid | pkg/token/providers/memory/memory.go:87-103 | the sweep keeps the invariant |
| MemoryProvider.SessionOpsPreserveValid | pkg/token/providers/memory/memory.go:25-48 | `Set`, `Delete`, `Get` and `GetAll` keep the invariant |
| MemoryProvider.LookupAfterUpdate | pkg/token/providers/memory/memory.go:105-114 | touching changes no session's values or id, and no session appears or disappears |
| MemoryProvider.SetThenGet | pkg/token/providers/memory/memory.go:25-42 | `Set(k, v)` then `Get(k)` on a registered session gives `(v, true)` |
| MemoryProvider.GetAbsent | pkg/token/providers/memory/memory.go:36-42 | `Get` of a key the session lacks gives `("", false)` |
| MemoryProvider.DeleteOnlyThatKey | pkg/token/providers/memory/memory.go:44-48 | `Delete(k)` removes that key and keeps all the other values |
| MemoryProvider.UpdateTouches | pkg/token/providers/memory/memory.go:105-114 | after touching, the session is first in the list and has the access time now |
| MemoryProvider.SessionOpsTouch | pkg/token/providers/memory/memory.go:25-48 | each of `Set`, `Delete`, `Get`, `GetAll` leaves the session first in the list with the access time now |
| MemoryProvider.GCRemovesExactlyExpired | pkg/token/providers/memory/memory.go:87-103 | on a list ordered by recency, the sweep keeps exactly the sessions that are not expired |
| MemoryProvider.InitFrontKeepsHealthy | pkg/token/providers/memory/memory.go:60-68 | corrected creation keeps the list ordered by recency (and the invariant) |
| MemoryProvider.UpdateKeepsHealthy | pkg/token/providers/memory/memory.go:105-114 | touching keeps the list ordered by recency |
| MemoryProvider.DestroyKeepsHealthy | pkg/token/providers/memory/memory.go:78-85 | destroying keeps the list ordered by recency |
| MemoryProvider.GCKeepsHealthy | pkg/token/providers/memory/memory.go:87-103 | the sweep keeps the list ordered by recency |
| MemoryProvider.SessionOpsKeepHealthy | pkg/token/providers/memory/memory.go:25-48 | the session operations keep the list ordered by recency |
| MemoryProvider.InitAtBackHidesExpiredSession | pkg/token/providers/memory/memory.go:65 | with back insertion, an expired session older than a live one survives the sweep, and the list is not ordered by recency |
| MemoryProvider.InitAtFrontSweepsExpiredSession | pkg/token/providers/memory/memory.go:87-103 | with front insertion, the same history has the expired session swept and the live one kept |
| RedisProvider.HSet | pkg/cache/redis.go:314-321 | on success the field holds the value, the hash's other fields and all other keys are unchanged, and so are the TTLs; a fault changes nothing |
| RedisProvider.HGet | pkg/cache/redis.go:201-212 | the field's value, or `redis.Nil` exactly when the key or field is missing, or the fault |
| RedisProvider.HGetAll | pkg/cache/redis.go:214-225 | without a fault, exactly the stored hash, fields and values; a missing key reads as the empty hash, not as an error; a fault is returned as the error |
| RedisProvider.HDel | pkg/cache/redis.go:88-95 | the field is gone, the other fields and keys are unchanged, and no TTL is created |
| RedisProvider.Del | pkg/cache/redis.go:79-86 | the key and its TTL are gone, and every other key is unchanged |
| RedisProvider.Expire | pkg/cache/redis.go:183-190 | reports whether the key exists; a positive lifetime sets that TTL, a non-positive one deletes the key, and other keys are unchanged |
| RedisProvider.HSetKeepsWellFormed | pkg/cache/redis.go:314-321 | `HSET` never leaves an empty hash, and never a TTL on a missing key |
| RedisProvider.HDelKeepsWellFormed | pkg/cache/redis.go:88-95 | `HDEL` never leaves an empty hash, and never a TTL on a missing key |
| RedisProvider.DelExpireLapseKeepWellFormed | pkg/cache/redis.go:79-190 | `DEL`, `EXPIRE` and a TTL lapse keep the cache well formed |
| RedisProvider.CacheKey | pkg/token/providers/redis/redis.go:14-20 | the key is `token_v1::` followed by the token id |
| RedisProvider.CacheKeyInjective | pkg/token/providers/redis/redis.go:18-20 | distinct token ids have distinct keys |
| RedisProvider.TokenRead | pkg/token/providers/redis/redis.go:77-86 | a token comes back exactly when `active` is "1"; a missing marker gives the `redis.Nil` error, any other value "token not available", and a fault the fault |
| RedisProvider.TokenInit | pkg/token/providers/redis/redis.go:62-75 | the marker is set first, then the TTL; a failing `HSET` changes nothing; a failing `EXPIRE` leaves the marker without a TTL; on success the key lives `maxlifetime` seconds, or is deleted at once when that is not positive; other keys are untouched |
| RedisProvider.TokenDestroy | pkg/token/providers/redis/redis.go:88-94 | the whole hash is deleted, so the token is no longer live; other keys are untouched |
| RedisProvider.TokenGC | pkg/token/providers/redis/redis.go:96-97 | the sweep changes neither which tokens are live nor any TTL |
| RedisProvider.Set | pkg/token/providers/redis/redis.go:36-38 | the token's hash gains the key with the value, and no other key changes |
| RedisProvider.Get | pkg/token/providers/redis/redis.go:40-43 | `(value, true)` exactly when the call succeeds and the field exists; otherwise `("", false)` |
| RedisProvider.GetAll | pkg/token/providers/redis/redis.go:45-47 | all fields of the token's hash with their values, including the `active` marker |
| RedisProvider.SetThenGetAll | pkg/token/providers/redis/redis.go:36-47 | after `Set`, `GetAll` returns the earlier hash with the new field's value |
| RedisProvider.GetAgreesWithGetAll | pkg/token/providers/redis/redis.go:40-47 | `Get` of a field gives the value `GetAll` lists for it, and a missing field reads as `("", false)` |
| RedisProvider.Delete | pkg/token/providers/redis/redis.go:49-51 | the field is removed from the token's hash, and no other key changes |
| RedisProvider.InitThenRead | pkg/token/providers/redis/redis.go:62-86 | after a successful init with a positive lifetime, reading gives the token with that id; with a non-positive lifetime the token reads as missing |
| RedisProvider.DestroyThenRead | pkg/token/providers/redis/redis.go:77-94 | after destroy, reading reports the token missing |
| RedisProvider.LapsedTokenUnreadable | pkg/token/providers/redis/redis.go:62-86 | once the TTL set by init runs out, reading reports the token missing |
| RedisProvider.SetThenGet | pkg/token/providers/redis/redis.go:36-43 | `Set(k, v)` then `Get(k)` gives `(v, true)` |
| RedisProvider.DeleteThenGet | pkg/token/providers/redis/redis.go:40-51 | `Delete(k)` then `Get(k)` gives `("", false)` |
| RedisProvider.SetIsolated | pkg/token/providers/redis/redis.go:18-43 | writing through one token changes neither another token's values nor whether it is live |
| RedisProvider.ActiveIsASessionKey | pkg/token/providers/redis/redis.go:36-86 | `Set("active", v)` with `v != "1"` through the token's own handle ends the token |
| RedisProvider.SetAfterLapse | pkg/token/providers/redis/redis.go:36-86 | a `Set` after the token lapsed re-creates a hash with no TTL and no marker: the key never expires and the token stays unreadable |
| TokenManager.NewManager | pkg/token/token.go:25-43 | "memory" gives a memory backend with no token and an empty list; "redis" gives a Redis backend exactly when the cache connects, with the configured lifetime, and otherwise the connection error; any other name is an error; header name and lifetime come from the configuration |
| TokenManager.TokenGet | pkg/token/token.go:46-57 | no header means no token; otherwise a token is returned exactly when the backend holds the unescaped id, without a Redis fault, and it carries that id |
| TokenManager.TokenInit | pkg/token/token.go:59-66 | the id is `GenerateId("tok", 32)` and is sent back in the configured header whatever happens; the memory backend always returns a token it then holds, with the new session appended at the back of the list as the provider's `TokenInit` does; the Redis backend returns one exactly when both commands succeed; no other id changes |
| TokenManager.TokenInitCorrected | pkg/token/token.go:59-66 | the same operation over the corrected provider: same header, same Redis behaviour, but the memory backend puts the new session at the front of the list |
| TokenManager.TokenDestroy | pkg/token/token.go:68-79 | no header changes nothing; otherwise the unescaped id is no longer held unless Redis failed, and every other id is held exactly as before |
| TokenManager.GC | pkg/token/token.go:81-86 | one sweep with the configured lifetime: the Redis backend is unchanged, the memory backend only loses tokens |
| TokenManager.NewManagerHealthy | pkg/token/token.go:25-43 | every manager `NewManager` builds is in good state, that is, a recency-ordered valid memory provider or a well-formed cache; so it is also consistent |
| TokenManager.InitThenGet | pkg/token/token.go:46-66 | a request carrying the header `TokenInit` sent back gets the new token (a non-empty id that survives unescaping, positive Redis lifetime) |
| TokenManager.DestroyThenGet | pkg/token/token.go:46-79 | after `TokenDestroy`, the same request gets no token |
| TokenManager.OperationsKeepConsistent | pkg/token/token.go:59-86 | as written, creation under an unused id, destruction and the sweep keep map and list in agreement, or the cache well formed, whatever Redis failures occur |
| TokenManager.InitAtBackBreaksHealth | pkg/token/token.go:59-66 | as written, creation at any time after the newest session was last touched leaves the memory backend out of recency order |
| TokenManager.OperationsKeepHealthy | pkg/token/token.go:59-86 | with the corrected creation, creation under an unused id, destruction and the sweep keep the manager in good state |
| TokenManager.GCRemovesExactlyExpired | pkg/token/token.go:81-86 | with the memory backend in good state, which the corrected creation keeps, one sweep drops a token exactly when its session outlived the configured lifetime |
| TenantDriver.WithID | pkg/db/driver/postgres.go:32-35 | the new context maps the tenant key to the workspace and every other key as its parent does |
| TenantDriver.FromContext | pkg/db/driver/postgres.go:21-30 | succeeds exactly when the innermost value under the tenant key is a workspace, and returns its id; otherwise the fixed tenancy error |
| TenantDriver.WithIDThenFromContext | pkg/db/driver/postgres.go:23-35 | the id attached last is the one read back |
| TenantDriver.NoWorkspaceNoTenant | pkg/db/driver/postgres.go:23-30 | a context without the key gives the tenancy error |
| TenantDriver.OtherKeysTransparent | pkg/db/driver/postgres.go:23-30 | values under other keys do not change what is read |
| TenantDriver.EscapeChar | pkg/db/driver/postgres.go:133-140 | a quote becomes two quotes, any other character is copied |
| TenantDriver.EscapeLength | pkg/db/driver/postgres.go:129-141 | the escaped id is longer than the id by its number of quotes |
| TenantDriver.UnescapeEscape | pkg/db/driver/postgres.go:133-136 | collapsing doubled quotes in the escaped id gives the id back, and no lone quote occurs, so the literal cannot be closed early |
| TenantDriver.EscapeInjective | pkg/db/driver/postgres.go:127-144 | distinct workspace ids give distinct statements |
| TenantDriver.UseStmt | pkg/db/driver/postgres.go:127-144 | the statement is the `SET` prefix, a literal body that unescapes to the id, and a closing quote, of length prefix + id + quotes + 1 |
| TenantDriver.UseStatement | pkg/db/driver/postgres.go:127-144 | the escaping loop over a buffer of twice the id's length never writes past `2i` and builds the statement above |
| TenantDriver.Forward | pkg/db/driver/postgres.go:86-125 | no workspace: the error, before any call; no arguments: one call with the `SET` statement, `;` and the query; arguments: the `SET` call first, then, unless it failed, the query with its arguments unchanged |
| TenantDriver.Unsupported | pkg/db/driver/postgres.go:81-107 | `Query` and `Exec` without a context always fail with their fixed messages |
| TenantDriver.QueryRunsInContextTenant | pkg/db/driver/postgres.go:86-125 | whenever the connection is reached, the first call starts with the statement selecting the context's workspace |
| StringOrder.LessIrreflexive | pkg/db/migrations/provider.go:33 | no string sorts before itself |
| StringOrder.LessAsymmetric | pkg/db/migrations/provider.go:33 | two strings are never each before the other |
| StringOrder.LessTransitive | pkg/db/migrations/provider.go:33 | the string order is transitive |
| StringOrder.LessTotal | pkg/db/migrations/provider.go:33 | any two distinct strings are ordered one way or the other |
| StringOrder.Insert | pkg/db/migrations/provider.go:33 | inserting a new id into a strictly ascending list keeps it strictly ascending, adding exactly that id |
| StringOrder.SortedUnique | pkg/db/migrations/provider.go:33 | two strictly ascending lists with the same elements are equal |
| Migrations.Register | pkg/db/migrations/provider.go:17-26 | a nil provider or a taken id is refused with its message and the registry kept; otherwise the id is bound to the provider and no other entry changes |
| Migrations.RegisterCommutes | pkg/db/migrations/provider.go:17-26 | registering two new ids in either order builds the same registry |
| Migrations.GetMigrations | pkg/db/migrations/provider.go:28-40 | one migration per registered id, in strictly ascending id order, and no error |
| Migrations.ListingDetermined | pkg/db/migrations/provider.go:28-40 | the listing depends on the registry alone, whatever order the map is walked in |
| Paging.AtoiItoa | pkg/models/page.go:34-46 | the page defaults written with `Itoa` parse back with `Atoi`, as does any `int` |
| Paging.Bounded | pkg/models/page.go:39-46 | a parsed value within [1, max] is kept; an unparsable or out-of-range one becomes the default |
| Paging.NewPageFromContext | pkg/models/page.go:33-65 | the page number is always in [1, 1000] and the size in [1, 100]; sort and filter are the decoded JSON, or empty when it does not decode |
| Paging.PageNumbers | pkg/models/page.go:39-46 | in-range numbers in the query pass through; out-of-range ones give 1 and 20 |
| Paging.PageDefaults | pkg/models/page.go:34-46 | without parameters: page 1 of 20 entries |
| Paging.NonNumericIsDefault | pkg/models/page.go:39-42 | a page number that does not end in a digit gives page 1 |
| Paging.NewPage | pkg/models/page.go:24-31 | the arguments are stored as given, with empty sort and filter |
| Paging.Paginate | pkg/models/page.go:67-83 | one sort column exactly when the sort map is non-empty, descending exactly when its value is "descend"; the filter exactly when non-empty; offset `(page-1)*size` in `int` arithmetic, limit the size |
| Paging.OffsetOfRequestPage | pkg/models/page.go:68 | for a page read from a request, the offset is the number of entries on earlier pages, never negative, and the next page starts where this one ends |
| Paging.NewPageOffsetWraps | pkg/models/page.go:68 | an unclamped page from `NewPage` can make the offset wrap around to the largest `int` |
| ErrorCodes.Root | pkg/models/err.go:38-45 | on an error that wraps one error at each level, it matches a sentinel exactly when that sentinel ends its chain |
| ErrorCodes.FirstMatch | pkg/models/err.go:38-54 | the walk stops at the first key in the walk order that the error matches, and finds none exactly when it matches none of them |
| ErrorCodes.IsErrorCustom | pkg/models/err.go:38-45 | for any order that visits every key, true exactly when the error matches a key of the table |
| ErrorCodes.ErrorStatusCode | pkg/models/err.go:47-54 | for any order that visits every key: the code of some key the error matches, and that code whenever all matched keys share it; 500 for an error matching none |
| ErrorCodes.SentinelCodes | pkg/models/err.go:25-36 | the seven sentinels map to 500, 404, 400, 400, 401, 401, 401 in every walk order |
| ErrorCodes.WrappingPreservesStatus | pkg/models/err.go:38-54 | wrapping an error keeps the key the walk stops at, its classification and its code |
| ErrorCodes.ChainCodeIgnoresOrder | pkg/models/err.go:38-54 | on a chain, the walk order does not matter: the error is custom exactly when the chain ends in a sentinel and gets that sentinel's code; otherwise its code is 500 |
| ErrorCodes.JoinedCodeDependsOnOrder | pkg/models/err.go:47-54 | an error joining `ErrAccountNotFound` and `ErrBadRequest` gets 404 from every walk that meets `ErrAccountNotFound` first and 400 from every walk that meets `ErrBadRequest` first |
| ErrorCodes.ListsEverySentinel | pkg/models/err.go:47-54 | any sequence listing all seven sentinels is a possible walk order of the map, so walks starting at either sentinel exist |
| FieldNames.ToUpper | handler/api/middleware.go:89 | a lower-case letter maps to its upper-case form; every other character is unchanged |
| FieldNames.ToLower | handler/api/middleware.go:95 | an upper-case letter maps to its lower-case form; every other character is unchanged |
| FieldNames.LowerAll | handler/api/middleware.go:95 | every character lower-cased, in place |
| FieldNames.UcFirst | handler/api/middleware.go:87-92 | corrected, on characters: the empty string stays empty; otherwise the first character is upper-cased and the rest is unchanged |
| FieldNames.LcFirst | handler/api/middleware.go:94-96 | the whole string is lower-cased, not just its first character |
| FieldNames.CaseMappingsKeepLowered | handler/api/middleware.go:87-96 | both mappings keep the lower-cased text |
| FieldNames.CaseMappingsIdempotent | handler/api/middleware.go:87-96 | applying either mapping twice is the same as once |
| FieldNames.EncodeRune | handler/api/middleware.go:89 | UTF-8: one byte below 0x80, otherwise a lead byte at least 0xC0 and continuation bytes in [0x80, 0xC0) |
| FieldNames.UcFirstBytes | handler/api/middleware.go:87-92 | as written, on bytes: the result is the upper-cased first character plus all but one byte of the input |
| FieldNames.UcFirstUtf8 | handler/api/middleware.go:87-92 | corrected, on bytes: the result starts with the encoding of the upper-cased first character |
| FieldNames.UcFirstUtf8Encodes | handler/api/middleware.go:87-92 | the corrected byte version is exactly the encoding of `UcFirst` on characters |
| FieldNames.UcFirstBytesAscii | handler/api/middleware.go:87-92 | on an empty name or one starting with an ASCII character, the code as written is correct |
| FieldNames.UcFirstBytesRepeatsContinuation | handler/api/middleware.go:89 | when the first character needs more than one byte, the code as written is longer than the correct encoding by that many bytes minus one, so it is wrong |
| FieldNames.UcFirstBytesExample | handler/api/middleware.go:89 | `中` then `a` (E4 B8 AD 61) becomes E4 B8 AD B8 AD 61 as written, and E4 B8 AD 61 corrected |
| FieldNames.Runs | handler/api/middleware.go:108-125 | the runs are empty exactly when the input is |
| FieldNames.RunsWellFormed | handler/api/middleware.go:108-125 | the first loop cuts the input into non-empty runs of one class each, neighbours of different classes, whose concatenation is the input |
| FieldNames.RunsAppendRun | handler/api/middleware.go:108-125 | appending a run of a class different from the last character's adds exactly that run |
| FieldNames.ShiftUppers | handler/api/middleware.go:127-132 | the shift loop: each upper-case run followed by a lower-case run gives its last letter to that run; group `i` is never empty when its first character is read |
| FieldNames.MovesAsChecked | handler/api/middleware.go:127-132 | the loop's test on the groups as it finds them agrees with the test on the original runs |
| FieldNames.ShiftedFlatten | handler/api/middleware.go:127-132 | the shift only moves letters between neighbours: the concatenation is unchanged |
| FieldNames.NonEmpty | handler/api/middleware.go:134-138 | only non-empty groups are kept, and their concatenation is unchanged |
| FieldNames.WordsFlatten | handler/api/middleware.go:108-138 | the words are non-empty and spell out the field name exactly |
| FieldNames.Cased | handler/api/middleware.go:140-146 | the first word through `UcFirst`, every other word through `LcFirst` |
| FieldNames.Split | handler/api/middleware.go:98-149 | on characters, with the corrected `UcFirst`: the three loops and the join compute the closed form, words cased and joined by single spaces |
| FieldNames.SplitBytes | handler/api/middleware.go:98-149 | `Split` as written, on bytes: an empty name gives no bytes; any other result starts with the bytes of the upper-cased first character |
| FieldNames.SplitBytesExample | handler/api/middleware.go:98-149 | the field name `中a` is the words `中` and `a`: as written it becomes E4 B8 AD B8 AD 20 61, where the corrected result is E4 B8 AD 20 61 |
| FieldNames.JoinEncodes | handler/api/middleware.go:147 | joining the bytes of the words with spaces gives the bytes of the joined words |
| FieldNames.SplitBytesAscii | handler/api/middleware.go:98-149 | `Split` as written, on bytes, is exactly the encoding of the character-level result when the name is empty or starts with an ASCII character |
| FieldNames.SplitBytesRepeatsContinuation | handler/api/middleware.go:142 | when the name starts with a multi-byte character, `Split` as written is longer than that encoding by the character's width minus one, so it differs |
| FieldNames.DropSpacesJoin | handler/api/middleware.go:148 | removing the joining spaces from words without spaces gives their concatenation |
| FieldNames.SplitKeepsLetters | handler/api/middleware.go:98-149 | for a name without spaces, apart from case and the inserted spaces, the output is the input |
| FieldNames.SplitOneRun | handler/api/middleware.go:98-149 | a name of one character class is one word, with its first character upper-cased |
| FieldNames.SplitCamelCase | handler/api/middleware.go:98-149 | `aaaUbbb` (lower run, one upper letter, lower run) becomes `Aaa ubbb` |
| FieldNames.ValidationErrorToText | handler/api/middleware.go:151-167 | "email" gives "invalid email format"; every other tag gives the split field name, a space, and the tag's fixed message (with the parameter for max, min and len), "is not valid" for an unknown tag |

## Left out

- Concurrency: the `sync.Mutex` fields of the memory provider and the manager are left out; every operation is one atomic step.
- `time.Sleep` in `Mutex.Lock` is left out. The model returns the back-off delays it would sleep.
- The `time.AfterFunc` rescheduling of `Manager.GC` is left out. One call is one sweep.
- Real TTL expiry in Redis and in the lock's store is a separate `Lapse` step, not a clock. For the same reason the mutex's `expiry` field is carried but not used by `Acquire`.
- Session handles reach the memory provider through the package-level `pder`. The model passes the provider explicitly.
- MemoryProvider.GetAll: the source returns the session's own value map, so a caller that changes the returned map changes the session. The model returns the values as an immutable map, so that aliasing is not modelled.
- MemoryProvider.GetValue: in the source, a handle whose session was destroyed or swept keeps its own value map and still reads (and writes) it. The model reads and writes sessions through the provider's list only, so such a handle sees every key as missing.
- The random sources, `crypto/rand` and `math/rand`, are inputs. `Int63n`'s draw is any natural number reduced into range.
- `url.QueryUnescape` and `json.Unmarshal` are function parameters.
- A filter value is kept as a string rather than as arbitrary JSON.
- The gorm query that `Paginate` builds is returned as a plan (order, filter, offset, limit) and is not rendered.
- The configuration handed to a migration provider is not modelled. A provider is modelled by the migration it yields.
- The connection plumbing of the Postgres driver (`pq`, `Open`, `Prepare`, `BeginTx`) is left out. The driver's output is the list of calls it makes.
- TenantDriver.UseStatement works on characters, where the source works on bytes. The two agree because the quote is ASCII and no other UTF-8 byte equals it.
- FieldNames.Split: `Split` returns invalid UTF-8 input unchanged, but a Dafny string cannot hold invalid UTF-8, so that branch is not modelled.
- FieldNames.Split: character classes, `ToUpper` and `ToLower` cover ASCII only. Other letters and digits count as "other".
- FieldNames.ValidationErrorToText: the validator's `FieldError` is reduced to its field, tag and parameter. The text uses the character-level `SplitText`, which is the corrected `Split`. It is the source's output exactly when the field name starts with an ASCII character (`SplitBytesAscii`). The source repeats bytes otherwise (`SplitBytesRepeatsContinuation`).
- FieldNames.UcFirst, FieldNames.Cased, FieldNames.Split, FieldNames.CaseMappingsKeepLowered, FieldNames.CaseMappingsIdempotent, FieldNames.SplitKeepsLetters, FieldNames.SplitOneRun, FieldNames.SplitCamelCase: these work on characters with the corrected `UcFirst`. They describe the source as written only for names that start with an ASCII character. The as-written byte behaviour is `UcFirstBytes` and `SplitBytes`.
- ErrorCodes.ErrorStatusCode: a custom `Is` or `Unwrap` method on an error type is not modelled. Only the standard wrapping (`%w`) and joining (`errors.Join`, several `%w`) are.
- MemoryProvider.TokenGC: `accessed.Unix() + maxlifetime` is summed without the int64 wrap-around. In Go a lifetime within about 1.7e9 of the int64 maximum wraps negative, and then every session counts as expired. The model also reads the clock once per sweep, where the source calls `time.Now()` again for each element.
- RedisProvider.TokenInit: the lifetime is passed in whole seconds. The overflow of `time.Second * maxlifetime` for lifetimes above about 292 years is not modelled.
- The go-redis client and the JSON layer of the cache, the rate limiter, the HTTP handlers and middleware other than the field-name helpers, and configuration loading are not part of this model.

## Findings

| source | as written | input that shows it | evidently intended | confidence | as-written member | corrected member |
|---|---|---|---|---|---|---|
| pkg/token/providers/memory/memory.go:65 | `TokenInit` appends a new session at the back of the recency list, the end the sweep starts from | session "a" created at 0 s, "b" at 100 s, sweep at 120 s with lifetime 50 s: the sweep meets live "b" first and stops, so expired "a" stays | new sessions at the front, so the list stays ordered by recency and the sweep removes every expired session | high, not executed | MemoryProvider.InitAtBackHidesExpiredSession | MemoryProvider.InitAtFrontSweepsExpiredSession |
| pkg/token/providers/memory/memory.go:12-17 | `GetProvider` replaces the token map of the package-level provider but keeps its list | any provider with one listed session: after `GetProvider` the session is still listed but its id is unregistered | a fresh, empty map and list on each construction | medium, not executed | MemoryProvider.GetProviderKeepsStaleList | MemoryProvider.NewProvider |
| handler/api/middleware.go:89 | `str[i+1:]` with `i = 0` skips only one byte of the first character | `UcFirst("中a")` (bytes E4 B8 AD 61) gives E4 B8 AD B8 AD 61, and the field name `中a` through `Split` gives E4 B8 AD B8 AD 20 61; neither is valid UTF-8 | skip the whole first character, `str[i+utf8.RuneLen(v):]` | high, not executed | FieldNames.UcFirstBytesRepeatsContinuation, FieldNames.SplitBytesRepeatsContinuation, FieldNames.SplitBytesExample | FieldNames.UcFirstUtf8Encodes |
