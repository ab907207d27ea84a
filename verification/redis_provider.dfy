/** The Redis-backed token provider. Each token is one Redis hash under the
    key `token_v1::<tid>`; the field `active` marks it live and the session's
    own values sit beside it in the same hash. The Redis server is modelled
    as a value (`Cache`); every command takes a `fault` parameter standing
    for a connection or server error, in which case nothing is changed. */
module RedisProvider {
  import opened Wrappers

  /** The hashes held by the server and the time-to-live (seconds) of the
      keys that have one. */
  datatype Cache = Cache(hashes: map<string, map<string, string>>, ttl: map<string, int>)

  /** `redis.Nil` (no such key or field) or any other failure. */
  datatype CacheError = Nil | Failure(msg: string)

  /** Redis never keeps an empty hash, and only existing keys carry a TTL. */
  ghost predicate WellFormed(c: Cache) {
    && (forall k :: k in c.hashes ==> |c.hashes[k]| > 0)
    && c.ttl.Keys <= c.hashes.Keys
  }

  /** The fields of `key`, empty when the key does not exist. */
  function Fields(c: Cache, key: string): map<string, string> {
    if key in c.hashes then c.hashes[key] else map[]
  }

  // ---------------------------------------------------------------------
  // The cache commands the provider uses.
  // ---------------------------------------------------------------------

  /** `HSET key field value`: creates the hash if needed; an existing TTL is kept. */
  function HSet(c: Cache, key: string, field: string, value: string, fault: Option<string>): (r: Result<Cache, CacheError>)
    ensures r.Ok? <==> fault.None?
    ensures fault.Some? ==> r == Err(Failure(fault.value))
    ensures r.Ok? ==>
      && key in r.value.hashes
      && field in r.value.hashes[key] && r.value.hashes[key][field] == value
      && (forall f :: f != field ==> (f in r.value.hashes[key] <==> f in Fields(c, key)))
      && (forall f :: f != field && f in Fields(c, key) ==> r.value.hashes[key][f] == Fields(c, key)[f])
      && (forall k :: k != key ==> Fields(r.value, k) == Fields(c, k))
      && r.value.ttl == c.ttl
  {
    if fault.Some? then Err(Failure(fault.value))
    else Ok(Cache(c.hashes[key := Fields(c, key)[field := value]], c.ttl))
  }

  /** `HGET key field`: `redis.Nil` when the key or the field is missing. */
  function HGet(c: Cache, key: string, field: string, fault: Option<string>): (r: Result<string, CacheError>)
    ensures fault.Some? ==> r == Err(Failure(fault.value))
    ensures fault.None? ==> (r == Err(Nil) <==> field !in Fields(c, key))
    ensures r.Ok? <==> fault.None? && field in Fields(c, key)
    ensures r.Ok? ==> r.value == Fields(c, key)[field]
  {
    if fault.Some? then Err(Failure(fault.value))
    else if key !in c.hashes || field !in c.hashes[key] then Err(Nil)
    else Ok(c.hashes[key][field])
  }

  /** `HGETALL key`: a missing key reads as the empty hash, not as an error. */
  function HGetAll(c: Cache, key: string, fault: Option<string>): (r: Result<map<string, string>, CacheError>)
    ensures r.Ok? <==> fault.None?
    ensures fault.Some? ==> r == Err(Failure(fault.value))
    ensures r.Ok? ==> (r.value == map[] <==> key !in c.hashes || c.hashes[key] == map[])
    ensures r.Ok? ==> forall f :: f in r.value <==> f in Fields(c, key)
    ensures r.Ok? && key in c.hashes ==> r.value == c.hashes[key]
  {
    if fault.Some? then Err(Failure(fault.value)) else Ok(Fields(c, key))
  }

  /** `HDEL key field`: removing the last field removes the key and its TTL. */
  function HDel(c: Cache, key: string, field: string, fault: Option<string>): (r: Result<Cache, CacheError>)
    ensures r.Ok? <==> fault.None?
    ensures fault.Some? ==> r == Err(Failure(fault.value))
    ensures r.Ok? ==>
      && field !in Fields(r.value, key)
      && (forall f :: f != field ==> (f in Fields(r.value, key) <==> f in Fields(c, key)))
      && (forall f :: f != field && f in Fields(c, key) ==> Fields(r.value, key)[f] == Fields(c, key)[f])
      && (forall k :: k != key ==> Fields(r.value, k) == Fields(c, k))
      && (forall k :: k != key ==> (k in r.value.ttl <==> k in c.ttl))
      && (key in r.value.ttl ==> key in c.ttl && r.value.ttl[key] == c.ttl[key])
  {
    if fault.Some? then Err(Failure(fault.value))
    else if key !in c.hashes then Ok(c)
    else
      var h := c.hashes[key] - {field};
      if h == map[] then Ok(Cache(c.hashes - {key}, c.ttl - {key}))
      else Ok(Cache(c.hashes[key := h], c.ttl))
  }

  /** `DEL key`. */
  function Del(c: Cache, key: string, fault: Option<string>): (r: Result<Cache, CacheError>)
    ensures r.Ok? <==> fault.None?
    ensures fault.Some? ==> r == Err(Failure(fault.value))
    ensures r.Ok? ==>
      && key !in r.value.hashes && key !in r.value.ttl
      && (forall k :: k != key ==> Fields(r.value, k) == Fields(c, k))
      && (forall k :: k != key ==> (k in r.value.ttl <==> k in c.ttl))
  {
    if fault.Some? then Err(Failure(fault.value))
    else Ok(Cache(c.hashes - {key}, c.ttl - {key}))
  }

  /** `EXPIRE key seconds`: `false` for a missing key; a non-positive TTL
      deletes the key at once. */
  function Expire(c: Cache, key: string, seconds: int, fault: Option<string>): (r: Result<(Cache, bool), CacheError>)
    ensures r.Ok? <==> fault.None?
    ensures fault.Some? ==> r == Err(Failure(fault.value))
    ensures r.Ok? ==> (r.value.1 <==> key in c.hashes)
    ensures r.Ok? && key !in c.hashes ==> r.value.0 == c
    ensures r.Ok? && key in c.hashes && seconds <= 0 ==> key !in r.value.0.hashes && key !in r.value.0.ttl
    ensures r.Ok? && key in c.hashes && seconds > 0 ==>
      r.value.0.hashes == c.hashes && key in r.value.0.ttl && r.value.0.ttl[key] == seconds
    ensures r.Ok? ==> forall k :: k != key ==> Fields(r.value.0, k) == Fields(c, k)
    ensures r.Ok? ==> forall k :: k != key ==> (k in r.value.0.ttl <==> k in c.ttl)
  {
    if fault.Some? then Err(Failure(fault.value))
    else if key !in c.hashes then Ok((c, false))
    else if seconds <= 0 then Ok((Cache(c.hashes - {key}, c.ttl - {key}), true))
    else Ok((Cache(c.hashes, c.ttl[key := seconds]), true))
  }

  /** The server dropping `key` because its TTL ran out; a key without a TTL never lapses. */
  function Lapse(c: Cache, key: string): (r: Cache)
    ensures key in c.ttl ==> key !in r.hashes && key !in r.ttl
    ensures key !in c.ttl ==> r == c
    ensures forall k :: k != key ==> Fields(r, k) == Fields(c, k)
  {
    if key in c.ttl then Cache(c.hashes - {key}, c.ttl - {key}) else c
  }

  // ---------------------------------------------------------------------
  // The provider.
  // ---------------------------------------------------------------------

  const TokenPrefix: string := "token_v1::"

  /** The field that marks a token as live. */
  const ActiveField: string := "active"

  /** `getTokenCacheKey`. */
  function CacheKey(tid: string): (k: string)
    ensures |k| == |TokenPrefix| + |tid|
    ensures k[..|TokenPrefix|] == TokenPrefix && k[|TokenPrefix|..] == tid
  {
    TokenPrefix + tid
  }

  /** Distinct token ids never share a hash. */
  lemma CacheKeyInjective(a: string, b: string)
    requires CacheKey(a) == CacheKey(b)
    ensures a == b
  {
    assert a == CacheKey(a)[|TokenPrefix|..];
  }

  /** `RedisProvider`: the lifetime, in seconds, given to every new token. */
  datatype Provider = Provider(maxlifetime: int)

  /** `RedisTokenStore`: a handle naming the token; all state lives in the cache. */
  datatype Token = Token(tid: string)

  /** A token is live when its hash holds `active = "1"`. */
  predicate Live(c: Cache, tid: string) {
    ActiveField in Fields(c, CacheKey(tid)) && Fields(c, CacheKey(tid))[ActiveField] == "1"
  }

  /** `TokenRead`: the `HGET` error as is, or "token not available" when
      `active` holds anything but "1". */
  function TokenRead(c: Cache, p: Provider, tid: string, fault: Option<string>): (r: Result<Token, CacheError>)
    ensures r.Ok? <==> fault.None? && Live(c, tid)
    ensures r.Ok? ==> r.value.tid == tid
    ensures fault.Some? ==> r == Err(Failure(fault.value))
    ensures fault.None? ==> (r == Err(Nil) <==> ActiveField !in Fields(c, CacheKey(tid)))
  {
    var t :- HGet(c, CacheKey(tid), ActiveField, fault);
    if t != "1" then Err(Failure("token not available"))
    else Ok(Token(tid))
  }

  /** `TokenInit`: `HSET key active 1`, then `EXPIRE key maxlifetime`.
      Returns the cache in every case: if `EXPIRE` fails the hash has
      already been written, without a TTL. */
  function TokenInit(c: Cache, p: Provider, tid: string, setFault: Option<string>, expireFault: Option<string>): (r: (Cache, Result<Token, CacheError>))
    ensures r.1.Ok? <==> setFault.None? && expireFault.None?
    ensures r.1.Ok? ==> r.1.value.tid == tid
    ensures setFault.Some? ==> r == (c, Err(Failure(setFault.value)))
    ensures setFault.None? && expireFault.Some? ==>
      Live(r.0, tid) && r.0.ttl == c.ttl && r.1 == Err(Failure(expireFault.value))
    ensures r.1.Ok? && p.maxlifetime > 0 ==>
      Live(r.0, tid) && CacheKey(tid) in r.0.ttl && r.0.ttl[CacheKey(tid)] == p.maxlifetime
    ensures r.1.Ok? && p.maxlifetime <= 0 ==> CacheKey(tid) !in r.0.hashes
    ensures forall k :: k != CacheKey(tid) ==> Fields(r.0, k) == Fields(c, k)
    ensures forall k :: k != CacheKey(tid) ==> (k in r.0.ttl <==> k in c.ttl)
  {
    var key := CacheKey(tid);
    match HSet(c, key, ActiveField, "1", setFault)
    case Err(e) => (c, Err(e))
    case Ok(c1) =>
      match Expire(c1, key, p.maxlifetime, expireFault)
      case Err(e) => (c1, Err(e))
      case Ok((c2, _)) => (c2, Ok(Token(tid)))
  }

  /** `TokenDestroy`: `DEL key`. */
  function TokenDestroy(c: Cache, tid: string, fault: Option<string>): (r: Result<Cache, CacheError>)
    ensures r.Ok? <==> fault.None?
    ensures r.Ok? ==> CacheKey(tid) !in r.value.hashes && !Live(r.value, tid)
    ensures r.Ok? ==> forall k :: k != CacheKey(tid) ==> Fields(r.value, k) == Fields(c, k)
  {
    Del(c, CacheKey(tid), fault)
  }

  /** `TokenGC` does nothing: expiry is left to the server's TTLs. */
  function TokenGC(c: Cache, maxlifetime: int): (r: Cache)
    ensures forall tid :: Live(r, tid) <==> Live(c, tid)
    ensures r.ttl == c.ttl
  {
    c
  }

  /** `Set`: `HSET` on the token's hash. */
  function Set(c: Cache, t: Token, key: string, value: string, fault: Option<string>): (r: Result<Cache, CacheError>)
    ensures r.Ok? <==> fault.None?
    ensures r.Ok? ==> Fields(r.value, CacheKey(t.tid)) == Fields(c, CacheKey(t.tid))[key := value]
    ensures r.Ok? ==> forall k :: k != CacheKey(t.tid) ==> Fields(r.value, k) == Fields(c, k)
  {
    HSet(c, CacheKey(t.tid), key, value, fault)
  }

  /** `Get`: the value and whether `HGET` succeeded; any error reads as `("", false)`. */
  function Get(c: Cache, t: Token, key: string, fault: Option<string>): (r: (string, bool))
    ensures r.1 <==> fault.None? && key in Fields(c, CacheKey(t.tid))
    ensures r.1 ==> r.0 == Fields(c, CacheKey(t.tid))[key]
    ensures !r.1 ==> r.0 == ""
  {
    match HGet(c, CacheKey(t.tid), key, fault)
    case Ok(v) => (v, true)
    case Err(_) => ("", false)
  }

  /** `GetAll`: the whole hash, including the `active` marker. */
  function GetAll(c: Cache, t: Token, fault: Option<string>): (r: Result<map<string, string>, CacheError>)
    ensures r.Ok? <==> fault.None?
    ensures r.Ok? ==> forall f :: f in r.value <==> f in Fields(c, CacheKey(t.tid))
    ensures r.Ok? ==> forall f :: f in r.value ==> r.value[f] == Fields(c, CacheKey(t.tid))[f]
  {
    HGetAll(c, CacheKey(t.tid), fault)
  }

  /** `Delete`: `HDEL` on the token's hash. */
  function Delete(c: Cache, t: Token, key: string, fault: Option<string>): (r: Result<Cache, CacheError>)
    ensures r.Ok? <==> fault.None?
    ensures r.Ok? ==> key !in Fields(r.value, CacheKey(t.tid))
    ensures r.Ok? ==> forall k :: k != CacheKey(t.tid) ==> Fields(r.value, k) == Fields(c, k)
  {
    HDel(c, CacheKey(t.tid), key, fault)
  }

  function TokenID(t: Token): string {
    t.tid
  }

  // ---------------------------------------------------------------------
  // Properties.
  // ---------------------------------------------------------------------

  /** Every command keeps the cache well formed. */
  lemma HSetKeepsWellFormed(c: Cache, key: string, field: string, value: string)
    requires WellFormed(c)
    ensures WellFormed(HSet(c, key, field, value, None).value)
  {
    var h := Fields(c, key)[field := value];
    assert field in h;
    assert |h| > 0;
  }

  lemma HDelKeepsWellFormed(c: Cache, key: string, field: string)
    requires WellFormed(c)
    ensures WellFormed(HDel(c, key, field, None).value)
  {
    if key in c.hashes {
      var h := c.hashes[key] - {field};
      if h != map[] {
        var f :| f in h;
        assert |h| > 0;
      }
    }
  }

  lemma DelExpireLapseKeepWellFormed(c: Cache, key: string, seconds: int)
    requires WellFormed(c)
    ensures WellFormed(Del(c, key, None).value)
    ensures WellFormed(Expire(c, key, seconds, None).value.0)
    ensures WellFormed(Lapse(c, key))
  {
    DelKeepsWellFormed(c, key);
    ExpireKeepsWellFormed(c, key, seconds);
    LapseKeepsWellFormed(c, key);
  }

  lemma DelKeepsWellFormed(c: Cache, key: string)
    requires WellFormed(c)
    ensures WellFormed(Del(c, key, None).value)
  {
  }

  lemma ExpireKeepsWellFormed(c: Cache, key: string, seconds: int)
    requires WellFormed(c)
    ensures WellFormed(Expire(c, key, seconds, None).value.0)
  {
  }

  lemma LapseKeepsWellFormed(c: Cache, key: string)
    requires WellFormed(c)
    ensures WellFormed(Lapse(c, key))
  {
  }

  /** A successful `TokenInit` with a positive lifetime is readable, and a
      non-positive lifetime leaves nothing to read. */
  lemma InitThenRead(c: Cache, p: Provider, tid: string)
    ensures var r := TokenInit(c, p, tid, None, None);
      p.maxlifetime > 0 ==> TokenRead(r.0, p, tid, None) == Ok(Token(tid))
    ensures var r := TokenInit(c, p, tid, None, None);
      p.maxlifetime <= 0 ==> TokenRead(r.0, p, tid, None) == Err(Nil)
  {
  }

  /** After `TokenDestroy` the token reads as missing. */
  lemma DestroyThenRead(c: Cache, p: Provider, tid: string)
    ensures TokenDestroy(c, tid, None).Ok?
    ensures TokenRead(TokenDestroy(c, tid, None).value, p, tid, None) == Err(Nil)
  {
  }

  /** Once the TTL set by `TokenInit` runs out, the token reads as missing. */
  lemma LapsedTokenUnreadable(c: Cache, p: Provider, tid: string)
    requires p.maxlifetime > 0
    ensures var c1 := TokenInit(c, p, tid, None, None).0;
      TokenRead(Lapse(c1, CacheKey(tid)), p, tid, None) == Err(Nil)
  {
  }

  /** `Set` then `Get` on the same token gives the value back. */
  lemma SetThenGet(c: Cache, t: Token, key: string, value: string)
    ensures Set(c, t, key, value, None).Ok?
    ensures Get(Set(c, t, key, value, None).value, t, key, None) == (value, true)
  {
  }

  /** `GetAll` after `Set` sees the hash it saw before with the new field. */
  lemma SetThenGetAll(c: Cache, t: Token, key: string, value: string)
    ensures var before := GetAll(c, t, None);
      var after := GetAll(Set(c, t, key, value, None).value, t, None);
      after.Ok? && before.Ok? && after.value == before.value[key := value]
  {
  }

  /** `Get` of a field reads what `GetAll` lists for it. */
  lemma GetAgreesWithGetAll(c: Cache, t: Token, key: string)
    ensures var all := GetAll(c, t, None).value;
      Get(c, t, key, None) == if key in all then (all[key], true) else ("", false)
  {
  }

  /** `Delete` then `Get` reports the key as missing. */
  lemma DeleteThenGet(c: Cache, t: Token, key: string)
    ensures Delete(c, t, key, None).Ok?
    ensures Get(Delete(c, t, key, None).value, t, key, None) == ("", false)
  {
  }

  /** Writing through one token leaves every other token's data alone. */
  lemma SetIsolated(c: Cache, t: Token, u: Token, key: string, value: string, k: string)
    requires t.tid != u.tid
    ensures Get(Set(c, t, key, value, None).value, u, k, None) == Get(c, u, k, None)
    ensures Live(Set(c, t, key, value, None).value, u.tid) <==> Live(c, u.tid)
  {
    if CacheKey(t.tid) == CacheKey(u.tid) {
      CacheKeyInjective(t.tid, u.tid);
    }
  }

  /** The session values share the hash with the marker: setting `active`
      to anything but "1" through the token ends the token. */
  lemma ActiveIsASessionKey(c: Cache, p: Provider, t: Token, value: string)
    requires value != "1"
    ensures TokenRead(Set(c, t, ActiveField, value, None).value, p, t.tid, None) == Err(Failure("token not available"))
  {
  }

  /** A `Set` through a handle whose token has lapsed re-creates the hash
      without a TTL and without the marker: the token stays unreadable and
      its key never expires. */
  lemma SetAfterLapse(c: Cache, p: Provider, t: Token, key: string, value: string)
    requires p.maxlifetime > 0 && key != ActiveField
    ensures var c1 := Lapse(TokenInit(c, p, t.tid, None, None).0, CacheKey(t.tid));
      var c2 := Set(c1, t, key, value, None).value;
      && CacheKey(t.tid) in c2.hashes
      && CacheKey(t.tid) !in c2.ttl
      && TokenRead(c2, p, t.tid, None) == Err(Nil)
  {
  }
}
