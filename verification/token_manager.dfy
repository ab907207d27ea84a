/** The token manager: picks a provider from the configuration, reads the
    token id from a request header, creates tokens with fresh random ids
    and destroys or sweeps them. The request's headers are a map, the
    response header the manager sets is returned, and `url.QueryUnescape`
    is a parameter (its error result reads as the empty id, as `tid, _ :=`
    does). `TokenInit` uses the memory provider's `TokenInit` as written,
    which appends the new session at the back; `TokenInitCorrected` is the
    same operation over the corrected `TokenInitFront`. */
module TokenManager {
  import opened Wrappers
  import Crypto
  import Mem = MemoryProvider
  import Redis = RedisProvider

  /** The configuration fields the manager reads. */
  datatype Config = Config(tokenProvider: string, tokenHeader: string, tokenLifeTime: int)

  datatype Backend =
    | MemoryBackend(mem: Mem.Provider)
    | RedisBackend(provider: Redis.Provider, cache: Redis.Cache)

  datatype Manager = Manager(headerName: string, lifetime: int, backend: Backend)

  /** A `base.Token` of either provider. */
  datatype Token = MemoryToken(m: Mem.Token) | RedisToken(r: Redis.Token)

  datatype ManagerError = ProviderError(msg: string) | UnknownProvider(name: string)

  const TokenIdPrefix: string := "tok"
  const TokenIdSize: int := 32

  /** `TokenID()` of either kind of token. */
  function TokenID(t: Token): string {
    match t
    case MemoryToken(m) => Mem.TokenID(m)
    case RedisToken(r) => Redis.TokenID(r)
  }

  /** `NewManager`. `cache` is the outcome of connecting to Redis
      (`cache.NewCache`). The memory backend starts from the corrected
      `NewProvider`: an empty map and an empty list. */
  function NewManager(cfg: Config, cache: Result<Redis.Cache, string>): (r: Result<Manager, ManagerError>)
    ensures cfg.tokenProvider != "memory" && cfg.tokenProvider != "redis" ==> r == Err(UnknownProvider(cfg.tokenProvider))
    ensures cfg.tokenProvider == "memory" ==> r.Ok? && r.value.backend.MemoryBackend?
    ensures cfg.tokenProvider == "memory" ==> forall tid :: Mem.TokenRead(r.value.backend.mem, tid) == None
    ensures cfg.tokenProvider == "memory" ==> Mem.Valid(r.value.backend.mem) && r.value.backend.mem.list == []
    ensures cfg.tokenProvider == "redis" ==> (r.Ok? <==> cache.Ok?)
    ensures cfg.tokenProvider == "redis" && cache.Err? ==> r == Err(ProviderError(cache.error))
    ensures cfg.tokenProvider == "redis" && r.Ok? ==>
      r.value.backend == RedisBackend(Redis.Provider(cfg.tokenLifeTime), cache.value)
    ensures r.Ok? ==> r.value.headerName == cfg.tokenHeader && r.value.lifetime == cfg.tokenLifeTime
  {
    if cfg.tokenProvider == "memory" then
      Ok(Manager(cfg.tokenHeader, cfg.tokenLifeTime, MemoryBackend(Mem.NewProvider())))
    else if cfg.tokenProvider == "redis" then
      match cache
      case Err(e) => Err(ProviderError(e))
      case Ok(c) => Ok(Manager(cfg.tokenHeader, cfg.tokenLifeTime, RedisBackend(Redis.Provider(cfg.tokenLifeTime), c)))
    else Err(UnknownProvider(cfg.tokenProvider))
  }

  /** `Header.Get`: the empty string for a missing header. */
  function HeaderValue(headers: map<string, string>, name: string): string {
    if name in headers then headers[name] else ""
  }

  /** The token id a request carries: its header, unescaped; a failed unescape gives "". */
  function RequestTid(headers: map<string, string>, name: string, unescape: string -> Option<string>): string {
    unescape(HeaderValue(headers, name)).GetOr("")
  }

  /** Whether the backend holds a readable token `tid`. */
  predicate Holds(b: Backend, tid: string) {
    match b
    case MemoryBackend(p) => tid in p.tokens
    case RedisBackend(_, c) => Redis.Live(c, tid)
  }

  /** `TokenGet`: no header, no token; otherwise the provider's `TokenRead`
      of the unescaped id, with any error read as "no token". `fault` is a
      Redis failure and is ignored by the memory backend. */
  function TokenGet(m: Manager, headers: map<string, string>, unescape: string -> Option<string>, fault: Option<string>): (r: Option<Token>)
    ensures HeaderValue(headers, m.headerName) == "" ==> r == None
    ensures r.Some? ==> TokenID(r.value) == RequestTid(headers, m.headerName, unescape)
    ensures m.backend.MemoryBackend? ==>
      (r.Some? <==> HeaderValue(headers, m.headerName) != "" && Holds(m.backend, RequestTid(headers, m.headerName, unescape)))
    ensures m.backend.RedisBackend? ==>
      (r.Some? <==> HeaderValue(headers, m.headerName) != "" && fault.None? && Holds(m.backend, RequestTid(headers, m.headerName, unescape)))
  {
    var header := HeaderValue(headers, m.headerName);
    if header == "" then None
    else
      var tid := unescape(header).GetOr("");
      match m.backend
      case MemoryBackend(p) =>
        (match Mem.TokenRead(p, tid)
         case Some(t) => Some(MemoryToken(t))
         case None => None)
      case RedisBackend(rp, c) =>
        (match Redis.TokenRead(c, rp, tid, fault)
         case Ok(t) => Some(RedisToken(t))
         case Err(_) => None)
  }

  /** `TokenInit`: a fresh id `tok_<64 hex digits>` from `entropy` (the
      empty id when the random source fails), the provider's `TokenInit`,
      and the id set as response header. Returns the manager, the token
      (`None` when the provider failed) and the response header. */
  function TokenInit(m: Manager, entropy: Option<seq<Crypto.byte>>, now: int, setFault: Option<string>, expireFault: Option<string>): (r: (Manager, Option<Token>, (string, string)))
    ensures var tid := Crypto.GenerateId(TokenIdPrefix, TokenIdSize, entropy);
      && r.2 == (m.headerName, tid)
      && (r.1.Some? ==> TokenID(r.1.value) == tid)
    ensures r.0.headerName == m.headerName && r.0.lifetime == m.lifetime
    ensures r.0.backend.MemoryBackend? <==> m.backend.MemoryBackend?
    ensures m.backend.MemoryBackend? ==> r.1.Some? && Holds(r.0.backend, r.2.1)
    ensures m.backend.MemoryBackend? ==>
      var (before, after) := (m.backend.mem.list, r.0.backend.mem.list);
      && |after| == |before| + 1 && after[..|before|] == before
      && after[|before|].store == Mem.Store(r.2.1, now, map[])
    ensures forall tid :: tid != r.2.1 ==> (Holds(r.0.backend, tid) <==> Holds(m.backend, tid))
    ensures m.backend.RedisBackend? ==> (r.1.Some? <==> setFault.None? && expireFault.None?)
    ensures m.backend.RedisBackend? && r.1.Some? && m.backend.provider.maxlifetime > 0 ==> Holds(r.0.backend, r.2.1)
  {
    var tid := Crypto.GenerateId(TokenIdPrefix, TokenIdSize, entropy);
    match m.backend
    case MemoryBackend(p) =>
      var (p', t) := Mem.TokenInit(p, tid, now);
      (m.(backend := MemoryBackend(p')), Some(MemoryToken(t)), (m.headerName, tid))
    case RedisBackend(rp, c) =>
      var (c', res) := Redis.TokenInit(c, rp, tid, setFault, expireFault);
      (m.(backend := RedisBackend(rp, c')), if res.Ok? then Some(RedisToken(res.value)) else None, (m.headerName, tid))
  }

  /** `TokenInit` over the corrected memory provider: the new session goes
      to the front of the list. The Redis backend is unchanged. */
  function TokenInitCorrected(m: Manager, entropy: Option<seq<Crypto.byte>>, now: int, setFault: Option<string>, expireFault: Option<string>): (r: (Manager, Option<Token>, (string, string)))
    ensures r.2 == TokenInit(m, entropy, now, setFault, expireFault).2
    ensures m.backend.RedisBackend? ==> r == TokenInit(m, entropy, now, setFault, expireFault)
    ensures r.0.headerName == m.headerName && r.0.lifetime == m.lifetime
    ensures r.0.backend.MemoryBackend? <==> m.backend.MemoryBackend?
    ensures m.backend.MemoryBackend? ==> r.1.Some? && TokenID(r.1.value) == r.2.1 && Holds(r.0.backend, r.2.1)
    ensures m.backend.MemoryBackend? ==>
      var (before, after) := (m.backend.mem.list, r.0.backend.mem.list);
      && |after| == |before| + 1 && after[1..] == before
      && after[0].store == Mem.Store(r.2.1, now, map[])
    ensures forall tid :: tid != r.2.1 ==> (Holds(r.0.backend, tid) <==> Holds(m.backend, tid))
  {
    match m.backend
    case MemoryBackend(p) =>
      var tid := Crypto.GenerateId(TokenIdPrefix, TokenIdSize, entropy);
      var (p', t) := Mem.TokenInitFront(p, tid, now);
      (m.(backend := MemoryBackend(p')), Some(MemoryToken(t)), (m.headerName, tid))
    case RedisBackend(_, _) => TokenInit(m, entropy, now, setFault, expireFault)
  }

  /** `TokenDestroy`: no header, nothing to do; otherwise the provider's
      `TokenDestroy` of the unescaped id, its error ignored. */
  function TokenDestroy(m: Manager, headers: map<string, string>, unescape: string -> Option<string>, fault: Option<string>): (r: Manager)
    ensures HeaderValue(headers, m.headerName) == "" ==> r == m
    ensures r.headerName == m.headerName && r.lifetime == m.lifetime
    ensures r.backend.MemoryBackend? <==> m.backend.MemoryBackend?
    ensures HeaderValue(headers, m.headerName) != "" && (m.backend.MemoryBackend? || fault.None?) ==>
      !Holds(r.backend, RequestTid(headers, m.headerName, unescape))
    ensures forall tid :: tid != RequestTid(headers, m.headerName, unescape) ==> (Holds(r.backend, tid) <==> Holds(m.backend, tid))
  {
    var header := HeaderValue(headers, m.headerName);
    if header == "" then m
    else
      var tid := unescape(header).GetOr("");
      match m.backend
      case MemoryBackend(p) =>
        m.(backend := MemoryBackend(Mem.TokenDestroy(p, tid)))
      case RedisBackend(rp, c) =>
        match Redis.TokenDestroy(c, tid, fault)
        case Ok(c') =>
          assert forall t :: t != tid ==> Redis.CacheKey(t) != Redis.CacheKey(tid) by {
            forall t | Redis.CacheKey(t) == Redis.CacheKey(tid) ensures t == tid {
              Redis.CacheKeyInjective(t, tid);
            }
          }
          m.(backend := RedisBackend(rp, c'))
        case Err(_) => m
  }

  /** `GC`: one sweep of the provider with the configured lifetime at time
      `now`; the Redis provider's sweep does nothing. */
  function GC(m: Manager, now: int): (r: Manager)
    ensures r.headerName == m.headerName && r.lifetime == m.lifetime
    ensures r.backend.MemoryBackend? <==> m.backend.MemoryBackend?
    ensures m.backend.RedisBackend? ==> forall tid :: Holds(r.backend, tid) <==> Holds(m.backend, tid)
    ensures m.backend.MemoryBackend? ==> r.backend.mem.tokens.Keys <= m.backend.mem.tokens.Keys
  {
    match m.backend
    case MemoryBackend(p) => m.(backend := MemoryBackend(Mem.TokenGC(p, m.lifetime, now)))
    case RedisBackend(rp, c) => m.(backend := RedisBackend(rp, Redis.TokenGC(c, m.lifetime)))
  }

  // ---------------------------------------------------------------------
  // Properties.
  // ---------------------------------------------------------------------

  /** The state each backend keeps: a healthy memory provider at time
      `now`, a well-formed cache. */
  ghost predicate Healthy(m: Manager, now: int) {
    match m.backend
    case MemoryBackend(p) => Mem.Healthy(p, now)
    case RedisBackend(_, c) => Redis.WellFormed(c)
  }

  /** Every manager `NewManager` returns is healthy. */
  lemma NewManagerHealthy(cfg: Config, cache: Result<Redis.Cache, string>, now: int)
    requires NewManager(cfg, cache).Ok?
    requires cache.Ok? ==> Redis.WellFormed(cache.value)
    ensures Healthy(NewManager(cfg, cache).value, now)
  {
  }

  /** A token created by `TokenInit` is found by `TokenGet` on a request
      carrying the header the manager sent back (the generated id survives
      unescaping unchanged). */
  lemma InitThenGet(m: Manager, entropy: Option<seq<Crypto.byte>>, now: int, unescape: string -> Option<string>)
    requires m.backend.RedisBackend? ==> m.backend.provider.maxlifetime > 0
    requires var tid := Crypto.GenerateId(TokenIdPrefix, TokenIdSize, entropy);
      tid != "" && unescape(tid) == Some(tid)
    ensures var r := TokenInit(m, entropy, now, None, None);
      var headers := map[r.2.0 := r.2.1];
      && r.1.Some?
      && TokenGet(r.0, headers, unescape, None).Some?
      && TokenID(TokenGet(r.0, headers, unescape, None).value) == TokenID(r.1.value)
  {
  }

  /** After `TokenDestroy` a request with the same header gets no token. */
  lemma DestroyThenGet(m: Manager, headers: map<string, string>, unescape: string -> Option<string>)
    ensures TokenGet(TokenDestroy(m, headers, unescape, None), headers, unescape, None) == None
  {
  }

  /** The state every backend keeps whichever `TokenInit` runs: the memory
      provider's map and list agree, the cache is well formed. */
  ghost predicate Consistent(m: Manager) {
    match m.backend
    case MemoryBackend(p) => Mem.Valid(p)
    case RedisBackend(_, c) => Redis.WellFormed(c)
  }

  /** The Redis commands behind `TokenInit` and `TokenDestroy`, failed or
      not, keep the cache well formed. */
  lemma RedisOperationsKeepWellFormed(rp: Redis.Provider, c: Redis.Cache, tid: string, rtid: string, setFault: Option<string>, expireFault: Option<string>, fault: Option<string>)
    requires Redis.WellFormed(c)
    ensures Redis.WellFormed(Redis.TokenInit(c, rp, tid, setFault, expireFault).0)
    ensures Redis.TokenDestroy(c, rtid, fault).Ok? ==> Redis.WellFormed(Redis.TokenDestroy(c, rtid, fault).value)
  {
    var key := Redis.CacheKey(tid);
    if setFault.None? {
      Redis.HSetKeepsWellFormed(c, key, Redis.ActiveField, "1");
      Redis.DelExpireLapseKeepWellFormed(Redis.HSet(c, key, Redis.ActiveField, "1", None).value, key, rp.maxlifetime);
    }
    Redis.DelExpireLapseKeepWellFormed(c, Redis.CacheKey(rtid), 0);
  }

  /** `TokenInit` as written of an unused id, `TokenDestroy` and `GC`
      keep the manager consistent, whatever Redis failures occur. */
  lemma OperationsKeepConsistent(m: Manager, now: int, entropy: Option<seq<Crypto.byte>>, headers: map<string, string>, unescape: string -> Option<string>,
                                 setFault: Option<string>, expireFault: Option<string>, fault: Option<string>)
    requires Consistent(m)
    requires m.backend.MemoryBackend? ==> Crypto.GenerateId(TokenIdPrefix, TokenIdSize, entropy) !in m.backend.mem.tokens
    ensures Consistent(TokenInit(m, entropy, now, setFault, expireFault).0)
    ensures Consistent(TokenDestroy(m, headers, unescape, fault))
    ensures Consistent(GC(m, now))
  {
    var tid := Crypto.GenerateId(TokenIdPrefix, TokenIdSize, entropy);
    var rtid := RequestTid(headers, m.headerName, unescape);
    match m.backend
    case MemoryBackend(p) =>
      Mem.InitPreservesValid(p, tid, now);
      Mem.DestroyPreservesValid(p, rtid);
      Mem.GCPreservesValid(p, m.lifetime, now);
    case RedisBackend(rp, c) =>
      RedisOperationsKeepWellFormed(rp, c, tid, rtid, setFault, expireFault, fault);
  }

  /** The healthy state is lost by `TokenInit` as written as soon as time
      has moved on since the newest session was touched: the new session
      sits behind older ones, so the sweep can stop before an expired one. */
  lemma InitAtBackBreaksHealth(m: Manager, entropy: Option<seq<Crypto.byte>>, now: int)
    requires m.backend.MemoryBackend? && |m.backend.mem.list| > 0
    requires m.backend.mem.list[|m.backend.mem.list| - 1].store.accessed < now
    ensures !Healthy(TokenInit(m, entropy, now, None, None).0, now)
  {
    var before := m.backend.mem.list;
    var after := TokenInit(m, entropy, now, None, None).0.backend.mem.list;
    assert after[|before| - 1] == before[|before| - 1];
    assert after[|before| - 1].store.accessed < after[|before|].store.accessed;
  }

  /** `TokenInitCorrected` of an unused id, `TokenDestroy` and `GC` keep
      the manager healthy. */
  lemma OperationsKeepHealthy(m: Manager, now: int, entropy: Option<seq<Crypto.byte>>, headers: map<string, string>, unescape: string -> Option<string>)
    requires Healthy(m, now)
    requires m.backend.MemoryBackend? ==> Crypto.GenerateId(TokenIdPrefix, TokenIdSize, entropy) !in m.backend.mem.tokens
    ensures Healthy(TokenInitCorrected(m, entropy, now, None, None).0, now)
    ensures Healthy(TokenDestroy(m, headers, unescape, None), now)
    ensures Healthy(GC(m, now), now)
  {
    var tid := Crypto.GenerateId(TokenIdPrefix, TokenIdSize, entropy);
    var rtid := RequestTid(headers, m.headerName, unescape);
    match m.backend
    case MemoryBackend(p) =>
      Mem.InitFrontKeepsHealthy(p, tid, now);
      Mem.DestroyKeepsHealthy(p, rtid, now);
      Mem.GCKeepsHealthy(p, m.lifetime, now);
    case RedisBackend(rp, c) =>
      RedisOperationsKeepWellFormed(rp, c, tid, rtid, None, None, None);
  }

  /** With the memory backend kept healthy, which `TokenInitCorrected`
      ensures, one `GC` removes exactly the
      tokens whose sessions have outlived the configured lifetime. */
  lemma GCRemovesExactlyExpired(m: Manager, now: int, tid: string)
    requires m.backend.MemoryBackend? && Healthy(m, now) && tid in m.backend.mem.tokens
    ensures var p := m.backend.mem;
      var k := Mem.Find(p.list, p.tokens[tid]);
      0 <= k < |p.list| &&
      (Holds(GC(m, now).backend, tid) <==> !Mem.Expired(p.list[k].store, m.lifetime, now))
  {
    var p := m.backend.mem;
    var k := Mem.RegisteredIsListed(p, tid);
    var r := Mem.TokenGC(p, m.lifetime, now);
    Mem.GCRemovesExactlyExpired(p, m.lifetime, now);
    if k < |r.list| {
      assert tid !in Mem.TidsOf(p.list[|r.list|..]) by {
        forall i | |r.list| <= i < |p.list| ensures p.list[i].store.tid != tid {
          if i != k {
            Mem.TidsDistinct(p, i, k);
          }
        }
      }
    } else {
      assert p.list[k] == p.list[|r.list|..][k - |r.list|];
    }
  }
}
