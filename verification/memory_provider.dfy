/** The process-local session provider: a map from token id to list element
    plus a recency list whose front is the most recently touched session.
    The list is a sequence of elements, each with an identity of its own (a
    `*list.Element`), so that an element dropped from the map but left in
    the list is represented as such. Timestamps are nanoseconds since the
    Unix epoch; the current time is a parameter. */
module MemoryProvider {
  import opened Wrappers

  const NanosPerSecond: int := 1_000_000_000

  /** `Time.Unix()`: whole seconds, rounded down. */
  function UnixSeconds(t: int): int {
    t / NanosPerSecond
  }

  lemma UnixSecondsMonotone(a: int, b: int)
    requires a <= b
    ensures UnixSeconds(a) <= UnixSeconds(b)
  {
  }

  /** `MemoryTokenStore`: the session's id, last access time and values. */
  datatype Store = Store(tid: string, accessed: int, values: map<string, string>)

  /** A list element: its identity and the session it carries. */
  datatype Element = Element(id: nat, store: Store)

  /** `MemoryProvider`: `tokens` maps a token id to the identity of its
      element, `list` runs from front to back, `nextId` is the next fresh identity. */
  datatype Provider = Provider(tokens: map<string, nat>, list: seq<Element>, nextId: nat)

  /** A session handle as returned by `TokenInit`/`TokenRead`: the element
      holding the session, and the session's id. */
  datatype Token = Token(element: nat, tid: string)

  /** `MemoryTokenStore.TokenID`. */
  function TokenID(t: Token): string {
    t.tid
  }

  /** Position of the element with identity `id`, or -1. */
  function Find(list: seq<Element>, id: nat): (k: int)
    ensures -1 <= k < |list|
    ensures k >= 0 ==> list[k].id == id && forall j :: 0 <= j < k ==> list[j].id != id
    ensures k == -1 ==> forall j :: 0 <= j < |list| ==> list[j].id != id
  {
    if |list| == 0 then -1
    else if list[0].id == id then 0
    else
      var k := Find(list[1..], id);
      if k == -1 then -1 else k + 1
  }

  /** The list without position `k`. */
  function Without(list: seq<Element>, k: int): (r: seq<Element>)
    requires 0 <= k < |list|
    ensures |r| == |list| - 1
    ensures forall i :: 0 <= i < k ==> r[i] == list[i]
    ensures forall i :: k <= i < |r| ==> r[i] == list[i + 1]
  {
    list[..k] + list[k + 1..]
  }

  /** The token ids of the sessions in a list. */
  function TidsOf(list: seq<Element>): set<string> {
    set i | 0 <= i < |list| :: list[i].store.tid
  }

  /** The provider's invariant: identities are below `nextId` and pairwise
      distinct along the list, every listed session is registered under its
      id and points back at its element, and every registered id is listed. */
  ghost predicate Valid(p: Provider) {
    && (forall i :: 0 <= i < |p.list| ==> p.list[i].id < p.nextId)
    && (forall i :: 0 <= i < |p.list| ==> p.list[i].store.tid in p.tokens && p.tokens[p.list[i].store.tid] == p.list[i].id)
    && (forall t :: t in p.tokens ==> t in TidsOf(p.list))
    && DistinctIds(p.list)
  }

  ghost predicate DistinctIds(list: seq<Element>) {
    forall i, j :: 0 <= i < j < |list| ==> list[i].id != list[j].id
  }

  /** Distinct identities make distinct token ids along the list. */
  lemma TidsDistinct(p: Provider, i: int, j: int)
    requires Valid(p) && 0 <= i < |p.list| && 0 <= j < |p.list| && i != j
    ensures p.list[i].store.tid != p.list[j].store.tid
  {
    if i > j {
      TidsDistinct(p, j, i);
    }
  }

  /** Under the invariant, a registered token id names a listed element carrying that id. */
  lemma RegisteredIsListed(p: Provider, tid: string) returns (k: int)
    requires Valid(p) && tid in p.tokens
    ensures 0 <= k < |p.list| && k == Find(p.list, p.tokens[tid])
    ensures p.list[k].store.tid == tid && p.list[k].id == p.tokens[tid]
  {
    assert tid in TidsOf(p.list);
    var i :| 0 <= i < |p.list| && p.list[i].store.tid == tid;
    assert p.list[i].id == p.tokens[tid];
    FindUnique(p.list, i);
    k := i;
  }

  /** A provider with an empty map and an empty list. Each call yields an
      independent provider. */
  function NewProvider(): (p: Provider)
    ensures Valid(p)
    ensures forall tid :: TokenRead(p, tid) == None
    ensures |p.list| == 0
  {
    Provider(map[], [], 0)
  }

  /** `GetProvider` as written: the package-level provider gets a fresh
      map, but keeps the list (and the elements in it) from before. */
  function GetProvider(pder: Provider): (p: Provider)
    ensures forall tid :: TokenRead(p, tid) == None
    ensures p.list == pder.list && p.nextId == pder.nextId
  {
    Provider(map[], pder.list, pder.nextId)
  }

  /** A second `GetProvider` leaves every earlier session in the list, with
      no map entry: the invariant is broken and those elements are
      unreachable except to the sweep. */
  lemma GetProviderKeepsStaleList(pder: Provider)
    requires |pder.list| > 0
    ensures !Valid(GetProvider(pder))
    ensures TokenRead(GetProvider(pder), pder.list[0].store.tid) == None
    ensures pder.list[0] in GetProvider(pder).list
  {
    var p := GetProvider(pder);
    assert p.list[0].store.tid !in p.tokens;
  }

  /** `TokenInit` as written: a new session with no values, accessed at
      `now`, pushed at the BACK of the list and registered under `tid`. */
  function TokenInit(p: Provider, tid: string, now: int): (r: (Provider, Token))
    ensures TokenRead(r.0, tid) == Some(r.1) && TokenID(r.1) == tid
    ensures |r.0.list| == |p.list| + 1 && r.0.list[..|p.list|] == p.list
    ensures r.0.list[|p.list|] == Element(r.1.element, Store(tid, now, map[]))
    ensures forall t :: t != tid ==> TokenRead(r.0, t) == TokenRead(p, t)
    ensures r.0.nextId > r.1.element >= p.nextId
  {
    var e := Element(p.nextId, Store(tid, now, map[]));
    var q := Provider(p.tokens[tid := p.nextId], p.list + [e], p.nextId + 1);
    assert q.list[..|p.list|] == p.list;
    (q, Token(p.nextId, tid))
  }

  /** `TokenInit` corrected: the new session goes to the FRONT, where the
      most recently touched session belongs. */
  function TokenInitFront(p: Provider, tid: string, now: int): (r: (Provider, Token))
    ensures TokenRead(r.0, tid) == Some(r.1) && TokenID(r.1) == tid
    ensures |r.0.list| == |p.list| + 1 && r.0.list[1..] == p.list
    ensures r.0.list[0] == Element(r.1.element, Store(tid, now, map[]))
    ensures forall t :: t != tid ==> TokenRead(r.0, t) == TokenRead(p, t)
    ensures r.0.nextId > r.1.element >= p.nextId
  {
    var e := Element(p.nextId, Store(tid, now, map[]));
    (Provider(p.tokens[tid := p.nextId], [e] + p.list, p.nextId + 1), Token(p.nextId, tid))
  }

  /** `TokenRead`: the registered session, or `nil` (and no error). Reading
      changes neither access time nor order: the provider is not an output. */
  function TokenRead(p: Provider, tid: string): (r: Option<Token>)
    ensures r.Some? <==> tid in p.tokens
    ensures r.Some? ==> r.value.tid == tid && r.value.element == p.tokens[tid]
  {
    if tid in p.tokens then Some(Token(p.tokens[tid], tid)) else None
  }

  /** `TokenDestroy`: drops `tid` from the map and its element from the
      list; an unknown id changes nothing. It always returns `nil`. */
  function TokenDestroy(p: Provider, tid: string): (r: Provider)
    ensures r.tokens == p.tokens - {tid} && r.nextId == p.nextId
    ensures tid !in p.tokens ==> r == p
    ensures tid in p.tokens ==>
      var k := Find(p.list, p.tokens[tid]);
      (k >= 0 ==> r.list == Without(p.list, k)) && (k < 0 ==> r.list == p.list)
  {
    if tid in p.tokens then
      var k := Find(p.list, p.tokens[tid]);
      Provider(p.tokens - {tid}, if k >= 0 then Without(p.list, k) else p.list, p.nextId)
    else p
  }

  /** `TokenUpdate`: a registered session gets access time `now` and moves
      to the front; the others keep their relative order. An unknown id
      changes nothing. */
  function TokenUpdate(p: Provider, tid: string, now: int): (r: Provider)
    ensures r.tokens == p.tokens && r.nextId == p.nextId && |r.list| == |p.list|
    ensures tid !in p.tokens || Find(p.list, p.tokens[tid]) < 0 ==> r == p
    ensures tid in p.tokens && Find(p.list, p.tokens[tid]) >= 0 ==>
      var k := Find(p.list, p.tokens[tid]);
      && r.list[0] == Element(p.list[k].id, p.list[k].store.(accessed := now))
      && r.list[1..] == Without(p.list, k)
  {
    if tid !in p.tokens then p
    else
      var k := Find(p.list, p.tokens[tid]);
      if k < 0 then p
      else
        var e := p.list[k];
        Provider(p.tokens, [Element(e.id, e.store.(accessed := now))] + Without(p.list, k), p.nextId)
  }

  /** A session is expired when its last access plus the lifetime, in whole
      seconds, lies strictly before the current second. */
  predicate Expired(s: Store, maxlifetime: int, now: int) {
    UnixSeconds(s.accessed) + maxlifetime < UnixSeconds(now)
  }

  /** Position `k` starts the longest suffix of the list whose sessions are all expired. */
  ghost predicate ExpiredTailFrom(list: seq<Element>, k: int, maxlifetime: int, now: int) {
    && 0 <= k <= |list|
    && (forall i :: k <= i < |list| ==> Expired(list[i].store, maxlifetime, now))
    && (k > 0 ==> !Expired(list[k - 1].store, maxlifetime, now))
  }

  lemma TidsOfSnoc(list: seq<Element>, e: Element)
    ensures TidsOf(list + [e]) == TidsOf(list) + {e.store.tid}
  {
    var l := list + [e];
    assert forall i :: 0 <= i < |list| ==> l[i] == list[i];
    assert l[|list|] == e;
  }

  /** `TokenGC`: from the back, drop sessions while they are expired and
      stop at the first live one. Exactly the longest expired suffix leaves
      the list and the map; the rest of the list is untouched. */
  function TokenGC(p: Provider, maxlifetime: int, now: int): (r: Provider)
    ensures r.nextId == p.nextId
    ensures |r.list| <= |p.list| && r.list == p.list[..|r.list|]
    ensures ExpiredTailFrom(p.list, |r.list|, maxlifetime, now)
    ensures r.tokens == p.tokens - TidsOf(p.list[|r.list|..])
    decreases |p.list|
  {
    if |p.list| == 0 then
      assert p.list[0..] == [];
      p
    else
      var back := p.list[|p.list| - 1];
      if Expired(back.store, maxlifetime, now) then
        var q := Provider(p.tokens - {back.store.tid}, p.list[..|p.list| - 1], p.nextId);
        var r := TokenGC(q, maxlifetime, now);
        TokenGCStep(p, q, r, maxlifetime, now);
        r
      else
        assert p.list[|p.list|..] == [];
        p
  }

  /** One step of the sweep: what holds after dropping the back element
      carries over to the list that still had it. */
  lemma TokenGCStep(p: Provider, q: Provider, r: Provider, maxlifetime: int, now: int)
    requires |p.list| > 0
    requires Expired(p.list[|p.list| - 1].store, maxlifetime, now)
    requires q == Provider(p.tokens - {p.list[|p.list| - 1].store.tid}, p.list[..|p.list| - 1], p.nextId)
    requires |r.list| <= |q.list| && r.list == q.list[..|r.list|]
    requires ExpiredTailFrom(q.list, |r.list|, maxlifetime, now)
    requires r.tokens == q.tokens - TidsOf(q.list[|r.list|..])
    ensures |r.list| <= |p.list| && r.list == p.list[..|r.list|]
    ensures ExpiredTailFrom(p.list, |r.list|, maxlifetime, now)
    ensures r.tokens == p.tokens - TidsOf(p.list[|r.list|..])
  {
    var n := |p.list|;
    var back := p.list[n - 1];
    var k := |r.list|;
    assert p.list[k..] == q.list[k..] + [back];
    TidsOfSnoc(q.list[k..], back);
    assert forall i :: k <= i < n - 1 ==> q.list[i] == p.list[i];
  }

  /** The element holding a handle's session, if it is still listed. */
  function Lookup(p: Provider, t: Token): Option<Store> {
    var k := Find(p.list, t.element);
    if k >= 0 then Some(p.list[k].store) else None
  }

  /** Replaces the values of the handle's session, if it is still listed. */
  function WriteValues(p: Provider, t: Token, values: map<string, string>): (r: Provider)
    ensures r.tokens == p.tokens && r.nextId == p.nextId && |r.list| == |p.list|
  {
    var k := Find(p.list, t.element);
    if k < 0 then p
    else p.(list := p.list[k := Element(p.list[k].id, p.list[k].store.(values := values))])
  }

  /** `MemoryTokenStore.Set`: store the value, then touch the session. */
  function SetValue(p: Provider, t: Token, key: string, value: string, now: int): (r: Provider)
    ensures r.tokens == p.tokens && r.nextId == p.nextId
  {
    match Lookup(p, t)
    case Some(s) => TokenUpdate(WriteValues(p, t, s.values[key := value]), t.tid, now)
    case None => TokenUpdate(p, t.tid, now)
  }

  /** `MemoryTokenStore.Delete`: drop the key, then touch the session. */
  function DeleteValue(p: Provider, t: Token, key: string, now: int): (r: Provider)
    ensures r.tokens == p.tokens && r.nextId == p.nextId
  {
    match Lookup(p, t)
    case Some(s) => TokenUpdate(WriteValues(p, t, s.values - {key}), t.tid, now)
    case None => TokenUpdate(p, t.tid, now)
  }

  /** `MemoryTokenStore.Get`: touch the session, then look the key up;
      an absent key gives `("", false)`. */
  function GetValue(p: Provider, t: Token, key: string, now: int): (r: (Provider, string, bool))
    ensures r.0 == TokenUpdate(p, t.tid, now)
    ensures r.2 <==> Lookup(r.0, t).Some? && key in Lookup(r.0, t).value.values
    ensures r.2 ==> r.1 == Lookup(r.0, t).value.values[key]
    ensures !r.2 ==> r.1 == ""
  {
    var q := TokenUpdate(p, t.tid, now);
    match Lookup(q, t)
    case Some(s) => if key in s.values then (q, s.values[key], true) else (q, "", false)
    case None => (q, "", false)
  }

  /** `MemoryTokenStore.GetAll`: touch the session, then return its values. */
  function GetAll(p: Provider, t: Token, now: int): (r: (Provider, map<string, string>))
    ensures r.0 == TokenUpdate(p, t.tid, now)
    ensures Lookup(r.0, t).Some? ==> r.1 == Lookup(r.0, t).value.values
  {
    var q := TokenUpdate(p, t.tid, now);
    match Lookup(q, t)
    case Some(s) => (q, s.values)
    case None => (q, map[])
  }

  /** A rearrangement of the list that keeps every element's identity and
      token id (stores may change otherwise) keeps the invariant. */
  lemma ReindexKeepsValid(p: Provider, q: Provider, src: int -> int, dst: int -> int)
    requires Valid(p)
    requires q.tokens == p.tokens && q.nextId == p.nextId && |q.list| == |p.list|
    requires forall i :: 0 <= i < |q.list| ==> 0 <= src(i) < |p.list| && dst(src(i)) == i
    requires forall i :: 0 <= i < |q.list| ==> q.list[i].id == p.list[src(i)].id && q.list[i].store.tid == p.list[src(i)].store.tid
    requires forall i :: 0 <= i < |p.list| ==> 0 <= dst(i) < |q.list| && src(dst(i)) == i
    ensures Valid(q)
  {
    forall t | t in q.tokens
      ensures t in TidsOf(q.list)
    {
      assert t in TidsOf(p.list);
      var i :| 0 <= i < |p.list| && p.list[i].store.tid == t;
      assert q.list[dst(i)].store.tid == t;
    }
    forall i, j | 0 <= i < j < |q.list|
      ensures q.list[i].id != q.list[j].id
    {
      var a, b := src(i), src(j);
      assert a != b;
      if a > b {
        assert p.list[b].id != p.list[a].id;
      }
    }
  }

  /** Moving position `k` to the front: where each new position came from. */
  function FrontSource(i: int, k: int): int {
    if i == 0 then k else if i <= k then i - 1 else i
  }

  /** Moving position `k` to the front: where each old position goes. */
  function FrontTarget(i: int, k: int): int {
    if i == k then 0 else if i < k then i + 1 else i
  }

  lemma MoveToFrontIndex(list: seq<Element>, k: int, e: Element)
    requires 0 <= k < |list|
    ensures var r := [e] + Without(list, k);
      |r| == |list| && r[0] == e && forall i :: 0 < i < |r| ==> r[i] == list[FrontSource(i, k)]
  {
  }

  /** Moving one element to the front, with its identity and token id
      unchanged, keeps the invariant. */
  lemma MoveToFrontKeepsValid(p: Provider, k: int, e: Element)
    requires Valid(p) && 0 <= k < |p.list|
    requires e.id == p.list[k].id && e.store.tid == p.list[k].store.tid
    ensures Valid(Provider(p.tokens, [e] + Without(p.list, k), p.nextId))
  {
    var q := Provider(p.tokens, [e] + Without(p.list, k), p.nextId);
    MoveToFrontIndex(p.list, k, e);
    forall i | 0 <= i < |q.list|
      ensures 0 <= FrontSource(i, k) < |p.list| && FrontTarget(FrontSource(i, k), k) == i
      ensures q.list[i].id == p.list[FrontSource(i, k)].id
      ensures q.list[i].store.tid == p.list[FrontSource(i, k)].store.tid
    {
    }
    ReindexKeepsValid(p, q, i => FrontSource(i, k), i => FrontTarget(i, k));
  }

  lemma UpdatePreservesValid(p: Provider, tid: string, now: int)
    requires Valid(p)
    ensures Valid(TokenUpdate(p, tid, now))
  {
    if tid in p.tokens && Find(p.list, p.tokens[tid]) >= 0 {
      var k := Find(p.list, p.tokens[tid]);
      var e := p.list[k];
      MoveToFrontKeepsValid(p, k, Element(e.id, e.store.(accessed := now)));
    }
  }

  lemma WriteValuesPreservesValid(p: Provider, t: Token, values: map<string, string>)
    requires Valid(p)
    ensures Valid(WriteValues(p, t, values))
  {
    var r := WriteValues(p, t, values);
    ReindexKeepsValid(p, r, i => i, i => i);
  }

  /** `TokenInit` of an unregistered id keeps the invariant. */
  lemma InitPreservesValid(p: Provider, tid: string, now: int)
    requires Valid(p) && tid !in p.tokens
    ensures Valid(TokenInit(p, tid, now).0)
  {
    var r := TokenInit(p, tid, now).0;
    assert forall i :: 0 <= i < |p.list| ==> r.list[i] == p.list[i];
    InitBackListing(p, tid, r.list);
    InitBackDistinct(p, r.list);
  }

  /** A session appended under a new id: every registered id is listed. */
  lemma InitBackListing(p: Provider, tid: string, list: seq<Element>)
    requires Valid(p) && |list| == |p.list| + 1 && list[|p.list|].store.tid == tid
    requires forall i :: 0 <= i < |p.list| ==> list[i] == p.list[i]
    ensures forall t :: t in p.tokens[tid := list[|p.list|].id] ==> t in TidsOf(list)
  {
    forall t | t in p.tokens[tid := list[|p.list|].id]
      ensures t in TidsOf(list)
    {
      if t == tid {
        assert list[|p.list|].store.tid == t;
      } else {
        assert t in TidsOf(p.list);
        var i :| 0 <= i < |p.list| && p.list[i].store.tid == t;
        assert list[i].store.tid == t;
      }
    }
  }

  /** A fresh identity put at the back keeps the identities distinct and below `nextId`. */
  lemma InitBackDistinct(p: Provider, list: seq<Element>)
    requires Valid(p) && |list| == |p.list| + 1 && list[|p.list|].id == p.nextId
    requires forall i :: 0 <= i < |p.list| ==> list[i] == p.list[i]
    ensures DistinctIds(list)
    ensures forall i :: 0 <= i < |list| ==> list[i].id < p.nextId + 1
  {
    forall i, j | 0 <= i < j < |list|
      ensures list[i].id != list[j].id
    {
      assert list[i] == p.list[i];
      if j < |p.list| {
        assert list[j] == p.list[j];
      }
    }
  }

  /** `TokenInitFront` of an unregistered id keeps the invariant. */
  lemma InitFrontPreservesValid(p: Provider, tid: string, now: int)
    requires Valid(p) && tid !in p.tokens
    ensures Valid(TokenInitFront(p, tid, now).0)
  {
    var r := TokenInitFront(p, tid, now).0;
    assert forall i :: 0 < i < |r.list| ==> r.list[i] == p.list[i - 1];
    InitFrontListing(p, tid, r);
    InitFrontRegistrations(p, tid, r);
    InitFrontDistinct(p, r.list);
  }

  /** A fresh identity put in front keeps the identities distinct and below `nextId`. */
  lemma InitFrontDistinct(p: Provider, list: seq<Element>)
    requires Valid(p) && |list| == |p.list| + 1 && list[0].id == p.nextId
    requires forall i :: 0 < i < |list| ==> list[i] == p.list[i - 1]
    ensures DistinctIds(list)
    ensures forall i :: 0 <= i < |list| ==> list[i].id < p.nextId + 1
  {
    forall i, j | 0 <= i < j < |list|
      ensures list[i].id != list[j].id
    {
      assert list[j] == p.list[j - 1];
      if i > 0 {
        assert list[i] == p.list[i - 1];
      }
    }
  }

  lemma InitFrontRegistrations(p: Provider, tid: string, r: Provider)
    requires Valid(p) && tid !in p.tokens && |r.list| == |p.list| + 1
    requires r.tokens == p.tokens[tid := r.list[0].id] && r.list[0].store.tid == tid
    requires forall i :: 0 < i < |r.list| ==> r.list[i] == p.list[i - 1]
    ensures forall i :: 0 <= i < |r.list| ==> r.list[i].store.tid in r.tokens && r.tokens[r.list[i].store.tid] == r.list[i].id
  {
    forall i | 0 < i < |r.list|
      ensures r.list[i].store.tid in r.tokens && r.tokens[r.list[i].store.tid] == r.list[i].id
    {
      assert r.list[i] == p.list[i - 1];
      assert p.list[i - 1].store.tid != tid;
    }
  }

  lemma InitFrontListing(p: Provider, tid: string, r: Provider)
    requires Valid(p) && |r.list| == |p.list| + 1
    requires r.tokens.Keys == p.tokens.Keys + {tid} && r.list[0].store.tid == tid
    requires forall i :: 0 < i < |r.list| ==> r.list[i] == p.list[i - 1]
    ensures forall t :: t in r.tokens ==> t in TidsOf(r.list)
  {
    forall t | t in r.tokens
      ensures t in TidsOf(r.list)
    {
      if t == tid {
        assert r.list[0].store.tid == t;
      } else {
        assert t in TidsOf(p.list);
        var i :| 0 <= i < |p.list| && p.list[i].store.tid == t;
        assert r.list[i + 1].store.tid == t;
      }
    }
  }

  lemma DestroyPreservesValid(p: Provider, tid: string)
    requires Valid(p)
    ensures Valid(TokenDestroy(p, tid))
  {
    if tid in p.tokens {
      var k := RegisteredIsListed(p, tid);
      var r := TokenDestroy(p, tid);
      assert r.list == Without(p.list, k);
      DestroyKeepsRegistrations(p, k, r);
      DestroyKeepsListing(p, k, r);
      WithoutKeepsDistinct(p.list, k);
    }
  }

  /** Removing one element keeps the identities distinct. */
  lemma WithoutKeepsDistinct(list: seq<Element>, k: int)
    requires DistinctIds(list) && 0 <= k < |list|
    ensures DistinctIds(Without(list, k))
  {
    var r := Without(list, k);
    forall i, j | 0 <= i < j < |r|
      ensures r[i].id != r[j].id
    {
      assert r[i] == list[if i < k then i else i + 1];
      assert r[j] == list[if j < k then j else j + 1];
    }
  }

  /** After removing position `k` and its token id, every remaining
      session is still registered under its id. */
  lemma DestroyKeepsRegistrations(p: Provider, k: int, r: Provider)
    requires Valid(p) && 0 <= k < |p.list|
    requires r.list == Without(p.list, k) && r.tokens == p.tokens - {p.list[k].store.tid}
    ensures forall i :: 0 <= i < |r.list| ==> r.list[i].store.tid in r.tokens && r.tokens[r.list[i].store.tid] == r.list[i].id
  {
    forall i | 0 <= i < |r.list|
      ensures r.list[i].store.tid in r.tokens && r.tokens[r.list[i].store.tid] == r.list[i].id
    {
      var j := if i < k then i else i + 1;
      assert r.list[i] == p.list[j];
      TidsDistinct(p, j, k);
    }
  }

  /** After removing position `k` and its token id, every remaining token
      id is still listed. */
  lemma DestroyKeepsListing(p: Provider, k: int, r: Provider)
    requires Valid(p) && 0 <= k < |p.list|
    requires r.list == Without(p.list, k) && r.tokens == p.tokens - {p.list[k].store.tid}
    ensures forall t :: t in r.tokens ==> t in TidsOf(r.list)
  {
    forall t | t in r.tokens
      ensures t in TidsOf(r.list)
    {
      assert t in TidsOf(p.list);
      var i :| 0 <= i < |p.list| && p.list[i].store.tid == t;
      assert i != k;
      if i < k {
        assert r.list[i].store.tid == t;
      } else {
        assert r.list[i - 1].store.tid == t;
      }
    }
  }

  /** Membership in the token ids of a suffix. */
  lemma TidsOfSuffix(list: seq<Element>, k: int, t: string)
    requires 0 <= k <= |list|
    ensures t in TidsOf(list[k..]) <==> exists i :: k <= i < |list| && list[i].store.tid == t
  {
    if t in TidsOf(list[k..]) {
      var j :| 0 <= j < |list[k..]| && list[k..][j].store.tid == t;
      assert list[k + j].store.tid == t;
    }
    if exists i :: k <= i < |list| && list[i].store.tid == t {
      var i :| k <= i < |list| && list[i].store.tid == t;
      assert list[k..][i - k].store.tid == t;
    }
  }

  /** Keeping a prefix of the list, and unregistering the token ids of the
      rest, keeps the invariant. */
  lemma PrefixKeepsValid(p: Provider, k: int)
    requires Valid(p) && 0 <= k <= |p.list|
    ensures Valid(Provider(p.tokens - TidsOf(p.list[k..]), p.list[..k], p.nextId))
  {
    var q := Provider(p.tokens - TidsOf(p.list[k..]), p.list[..k], p.nextId);
    forall i | 0 <= i < k
      ensures p.list[i].store.tid !in TidsOf(p.list[k..])
    {
      TidsOfSuffix(p.list, k, p.list[i].store.tid);
      forall j | k <= j < |p.list|
        ensures p.list[j].store.tid != p.list[i].store.tid
      {
        TidsDistinct(p, i, j);
      }
    }
    forall t | t in q.tokens
      ensures t in TidsOf(q.list)
    {
      assert t in TidsOf(p.list);
      var i :| 0 <= i < |p.list| && p.list[i].store.tid == t;
      TidsOfSuffix(p.list, k, t);
      assert i < k;
      assert q.list[i].store.tid == t;
    }
  }

  lemma GCPreservesValid(p: Provider, maxlifetime: int, now: int)
    requires Valid(p)
    ensures Valid(TokenGC(p, maxlifetime, now))
  {
    var r := TokenGC(p, maxlifetime, now);
    PrefixKeepsValid(p, |r.list|);
  }

  /** With distinct identities, `Find` locates each listed element at its own position. */
  lemma FindUnique(list: seq<Element>, i: int)
    requires DistinctIds(list) && 0 <= i < |list|
    ensures Find(list, list[i].id) == i
  {
  }

  /** Under the invariant, the handle of a registered session finds it. */
  lemma LookupRegistered(p: Provider, t: Token)
    requires Valid(p) && TokenRead(p, t.tid) == Some(t)
    ensures Lookup(p, t).Some? && Lookup(p, t).value.tid == t.tid
  {
    var k := RegisteredIsListed(p, t.tid);
  }

  /** Moving an element to the front keeps identities distinct. */
  lemma MoveToFrontDistinct(list: seq<Element>, k: int, e: Element)
    requires DistinctIds(list) && 0 <= k < |list| && e.id == list[k].id
    ensures DistinctIds([e] + Without(list, k))
  {
    var q := [e] + Without(list, k);
    MoveToFrontIndex(list, k, e);
    forall i, j | 0 <= i < j < |q|
      ensures q[i].id != q[j].id
    {
      var a, b := FrontSource(i, k), FrontSource(j, k);
      assert q[i].id == list[a].id && q[j].id == list[b].id;
      if a > b {
        assert list[b].id != list[a].id;
      }
    }
  }

  /** Moving an element to the front: a listed element is found at its new
      position, an unlisted one still is not found. */
  lemma FindAfterMove(list: seq<Element>, k: int, e: Element, id: nat)
    requires DistinctIds(list) && 0 <= k < |list| && e.id == list[k].id
    ensures var j := Find(list, id);
      && (j < 0 ==> Find([e] + Without(list, k), id) < 0)
      && (j >= 0 ==> Find([e] + Without(list, k), id) == FrontTarget(j, k))
  {
    var q := [e] + Without(list, k);
    MoveToFrontIndex(list, k, e);
    var j := Find(list, id);
    if j >= 0 {
      MoveToFrontDistinct(list, k, e);
      var j' := FrontTarget(j, k);
      assert FrontSource(j', k) == j;
      FindUnique(q, j');
    } else {
      forall i | 0 <= i < |q|
        ensures q[i].id != id
      {
        assert FrontSource(i, k) < |list|;
      }
    }
  }

  /** Touching a session leaves every handle's session where a lookup finds
      it, with the same token id and values. */
  lemma LookupAfterUpdate(p: Provider, tid: string, now: int, t: Token)
    requires Valid(p)
    ensures var r := TokenUpdate(p, tid, now);
      && (Lookup(r, t).Some? <==> Lookup(p, t).Some?)
      && (Lookup(r, t).Some? ==> Lookup(r, t).value.values == Lookup(p, t).value.values
                                 && Lookup(r, t).value.tid == Lookup(p, t).value.tid)
  {
    if tid in p.tokens && Find(p.list, p.tokens[tid]) >= 0 {
      var k := Find(p.list, p.tokens[tid]);
      var e := p.list[k];
      var e' := Element(e.id, e.store.(accessed := now));
      var r := TokenUpdate(p, tid, now);
      assert r.list == [e'] + Without(p.list, k);
      LookupAfterMove(p.list, k, e', t.element);
    }
  }

  /** Moving a touched session to the front: every session is found as
      before, with the same values and token id. */
  lemma LookupAfterMove(list: seq<Element>, k: int, e: Element, id: nat)
    requires DistinctIds(list) && 0 <= k < |list|
    requires e.id == list[k].id && e.store.tid == list[k].store.tid && e.store.values == list[k].store.values
    ensures var q := [e] + Without(list, k);
      && (Find(q, id) >= 0 <==> Find(list, id) >= 0)
      && (Find(q, id) >= 0 ==> q[Find(q, id)].store.values == list[Find(list, id)].store.values
                               && q[Find(q, id)].store.tid == list[Find(list, id)].store.tid)
  {
    FindAfterMove(list, k, e, id);
    MoveToFrontIndex(list, k, e);
    var j := Find(list, id);
    if j >= 0 {
      assert FrontSource(FrontTarget(j, k), k) == j;
    }
  }

  /** Writing a handle's values changes that session's values only. */
  lemma WriteValuesLookup(p: Provider, t: Token, values: map<string, string>, u: Token)
    requires Valid(p) && Lookup(p, t).Some?
    ensures var r := WriteValues(p, t, values);
      && (Lookup(r, u).Some? <==> Lookup(p, u).Some?)
      && (u.element == t.element ==> Lookup(r, u) == Some(Lookup(p, t).value.(values := values)))
      && (u.element != t.element ==> Lookup(r, u) == Lookup(p, u))
  {
    var r := WriteValues(p, t, values);
    var j := Find(p.list, u.element);
    assert forall i :: 0 <= i < |r.list| ==> r.list[i].id == p.list[i].id;
    if j >= 0 {
      WriteValuesPreservesValid(p, t, values);
      FindUnique(r.list, j);
    }
  }

  /** `Set(k, v)` then `Get(k)` answers `(v, true)`. */
  lemma SetThenGet(p: Provider, t: Token, key: string, value: string, now1: int, now2: int)
    requires Valid(p) && TokenRead(p, t.tid) == Some(t)
    ensures var q := SetValue(p, t, key, value, now1);
      GetValue(q, t, key, now2).1 == value && GetValue(q, t, key, now2).2
  {
    LookupRegistered(p, t);
    var s := Lookup(p, t).value;
    var w := WriteValues(p, t, s.values[key := value]);
    WriteValuesLookup(p, t, s.values[key := value], t);
    WriteValuesPreservesValid(p, t, s.values[key := value]);
    var q := TokenUpdate(w, t.tid, now1);
    LookupAfterUpdate(w, t.tid, now1, t);
    UpdatePreservesValid(w, t.tid, now1);
    LookupAfterUpdate(q, t.tid, now2, t);
  }

  /** `Get` of a key the session does not hold answers `("", false)`. */
  lemma GetAbsent(p: Provider, t: Token, key: string, now: int)
    requires Valid(p) && TokenRead(p, t.tid) == Some(t)
    requires key !in Lookup(p, t).value.values
    ensures GetValue(p, t, key, now).1 == "" && !GetValue(p, t, key, now).2
  {
    LookupAfterUpdate(p, t.tid, now, t);
  }

  /** `Delete(k)` removes that key and keeps every other value. */
  lemma DeleteOnlyThatKey(p: Provider, t: Token, key: string, now: int)
    requires Valid(p) && TokenRead(p, t.tid) == Some(t)
    ensures var q := DeleteValue(p, t, key, now);
      Lookup(q, t).Some? && Lookup(q, t).value.values == Lookup(p, t).value.values - {key}
  {
    LookupRegistered(p, t);
    var s := Lookup(p, t).value;
    var w := WriteValues(p, t, s.values - {key});
    WriteValuesLookup(p, t, s.values - {key}, t);
    WriteValuesPreservesValid(p, t, s.values - {key});
    LookupAfterUpdate(w, t.tid, now, t);
  }

  /** Touching a registered session puts its element first, stamped `now`. */
  lemma UpdateTouches(p: Provider, t: Token, now: int)
    requires Valid(p) && TokenRead(p, t.tid) == Some(t)
    ensures var q := TokenUpdate(p, t.tid, now);
      q.list[0].id == t.element && q.list[0].store.accessed == now
  {
    var k := RegisteredIsListed(p, t.tid);
  }

  /** `Set`, `Delete`, `Get` and `GetAll` all touch the session. */
  lemma SessionOpsTouch(p: Provider, t: Token, key: string, value: string, now: int)
    requires Valid(p) && TokenRead(p, t.tid) == Some(t)
    ensures var q := SetValue(p, t, key, value, now); q.list[0].id == t.element && q.list[0].store.accessed == now
    ensures var q := DeleteValue(p, t, key, now); q.list[0].id == t.element && q.list[0].store.accessed == now
    ensures var q := GetValue(p, t, key, now).0; q.list[0].id == t.element && q.list[0].store.accessed == now
    ensures var q := GetAll(p, t, now).0; q.list[0].id == t.element && q.list[0].store.accessed == now
  {
    LookupRegistered(p, t);
    var s := Lookup(p, t).value;
    UpdateTouches(p, t, now);
    WriteValuesPreservesValid(p, t, s.values[key := value]);
    WriteValuesPreservesValid(p, t, s.values - {key});
    UpdateTouches(WriteValues(p, t, s.values[key := value]), t, now);
    UpdateTouches(WriteValues(p, t, s.values - {key}), t, now);
  }

  /** `Set`, `Delete`, `Get` and `GetAll` keep the invariant. */
  lemma SessionOpsPreserveValid(p: Provider, t: Token, key: string, value: string, now: int)
    requires Valid(p)
    ensures Valid(SetValue(p, t, key, value, now))
    ensures Valid(DeleteValue(p, t, key, now))
    ensures Valid(GetValue(p, t, key, now).0)
    ensures Valid(GetAll(p, t, now).0)
  {
    UpdatePreservesValid(p, t.tid, now);
    if Lookup(p, t).Some? {
      var s := Lookup(p, t).value;
      WriteValuesPreservesValid(p, t, s.values[key := value]);
      WriteValuesPreservesValid(p, t, s.values - {key});
      UpdatePreservesValid(WriteValues(p, t, s.values[key := value]), t.tid, now);
      UpdatePreservesValid(WriteValues(p, t, s.values - {key}), t.tid, now);
    }
  }

  /** Most recently touched first: access times never increase along the list. */
  ghost predicate RecencyOrdered(list: seq<Element>) {
    forall i, j :: 0 <= i < j < |list| ==> list[j].store.accessed <= list[i].store.accessed
  }

  /** No session was touched after `now`. */
  ghost predicate NotAfter(list: seq<Element>, now: int) {
    forall i :: 0 <= i < |list| ==> list[i].store.accessed <= now
  }

  /** The state the corrected provider keeps at time `now`. */
  ghost predicate Healthy(p: Provider, now: int) {
    Valid(p) && RecencyOrdered(p.list) && NotAfter(p.list, now)
  }

  /** On a recency-ordered list the sweep removes exactly the expired
      sessions: stopping at the first live one misses none. */
  lemma GCRemovesExactlyExpired(p: Provider, maxlifetime: int, now: int)
    requires RecencyOrdered(p.list)
    ensures var r := TokenGC(p, maxlifetime, now);
      forall i :: 0 <= i < |p.list| ==> (i < |r.list| <==> !Expired(p.list[i].store, maxlifetime, now))
  {
    var r := TokenGC(p, maxlifetime, now);
    var k := |r.list|;
    forall i | 0 <= i < k
      ensures !Expired(p.list[i].store, maxlifetime, now)
    {
      if i < k - 1 {
        UnixSecondsMonotone(p.list[k - 1].store.accessed, p.list[i].store.accessed);
      }
    }
  }

  /** Time moving on keeps a healthy provider healthy. */
  lemma HealthyLater(p: Provider, now: int, later: int)
    requires Healthy(p, now) && now <= later
    ensures Healthy(p, later)
  {
  }

  /** The corrected `TokenInit`, `TokenUpdate`, `TokenDestroy` and `TokenGC`
      keep the provider healthy. */
  lemma InitFrontKeepsHealthy(p: Provider, tid: string, now: int)
    requires Healthy(p, now) && tid !in p.tokens
    ensures Healthy(TokenInitFront(p, tid, now).0, now)
  {
    InitFrontPreservesValid(p, tid, now);
    var r := TokenInitFront(p, tid, now).0;
    ConsKeepsRecency(r.list[0], p.list, now);
  }

  /** Putting a session touched at `now` in front of a list touched no later keeps the order. */
  lemma ConsKeepsRecency(e: Element, list: seq<Element>, now: int)
    requires RecencyOrdered(list) && NotAfter(list, now) && e.store.accessed == now
    ensures RecencyOrdered([e] + list) && NotAfter([e] + list, now)
  {
    var r := [e] + list;
    assert forall i :: 0 < i < |r| ==> r[i] == list[i - 1];
  }

  lemma UpdateKeepsHealthy(p: Provider, tid: string, now: int)
    requires Healthy(p, now)
    ensures Healthy(TokenUpdate(p, tid, now), now)
  {
    UpdatePreservesValid(p, tid, now);
    if tid in p.tokens && Find(p.list, p.tokens[tid]) >= 0 {
      var k := Find(p.list, p.tokens[tid]);
      var e := p.list[k];
      var e' := Element(e.id, e.store.(accessed := now));
      var r := TokenUpdate(p, tid, now);
      assert r.list == [e'] + Without(p.list, k);
      MoveToFrontKeepsOrder(p.list, k, e', now);
    }
  }

  /** A session touched at `now` and moved to the front keeps the list
      ordered by recency. */
  lemma MoveToFrontKeepsOrder(list: seq<Element>, k: int, e: Element, now: int)
    requires 0 <= k < |list| && RecencyOrdered(list) && NotAfter(list, now) && e.store.accessed == now
    ensures RecencyOrdered([e] + Without(list, k)) && NotAfter([e] + Without(list, k), now)
  {
    MoveToFrontIndex(list, k, e);
    var r := [e] + Without(list, k);
    forall i, j | 0 <= i < j < |r|
      ensures r[j].store.accessed <= r[i].store.accessed
    {
      if i > 0 {
        assert FrontSource(i, k) < FrontSource(j, k);
      }
    }
  }

  lemma DestroyKeepsHealthy(p: Provider, tid: string, now: int)
    requires Healthy(p, now)
    ensures Healthy(TokenDestroy(p, tid), now)
  {
    DestroyPreservesValid(p, tid);
    if tid in p.tokens {
      var k := RegisteredIsListed(p, tid);
      WithoutKeepsOrder(p.list, k, now);
    }
  }

  /** Removing one session keeps the others' order and access times. */
  lemma WithoutKeepsOrder(list: seq<Element>, k: int, now: int)
    requires 0 <= k < |list| && RecencyOrdered(list) && NotAfter(list, now)
    ensures RecencyOrdered(Without(list, k)) && NotAfter(Without(list, k), now)
  {
    var r := Without(list, k);
    forall i, j | 0 <= i < j < |r|
      ensures r[j].store.accessed <= r[i].store.accessed
    {
      var a := if i < k then i else i + 1;
      var b := if j < k then j else j + 1;
      assert r[i] == list[a] && r[j] == list[b];
    }
  }

  lemma GCKeepsHealthy(p: Provider, maxlifetime: int, now: int)
    requires Healthy(p, now)
    ensures Healthy(TokenGC(p, maxlifetime, now), now)
  {
    GCPreservesValid(p, maxlifetime, now);
  }

  lemma WriteValuesKeepsHealthy(p: Provider, t: Token, values: map<string, string>, now: int)
    requires Healthy(p, now)
    ensures Healthy(WriteValues(p, t, values), now)
  {
    WriteValuesPreservesValid(p, t, values);
  }

  /** `Set`, `Delete`, `Get` and `GetAll` keep the provider healthy. */
  lemma SessionOpsKeepHealthy(p: Provider, t: Token, key: string, value: string, now: int)
    requires Healthy(p, now)
    ensures Healthy(SetValue(p, t, key, value, now), now)
    ensures Healthy(DeleteValue(p, t, key, now), now)
    ensures Healthy(GetValue(p, t, key, now).0, now)
    ensures Healthy(GetAll(p, t, now).0, now)
  {
    UpdateKeepsHealthy(p, t.tid, now);
    if Lookup(p, t).Some? {
      var s := Lookup(p, t).value;
      WriteValuesKeepsHealthy(p, t, s.values[key := value], now);
      WriteValuesKeepsHealthy(p, t, s.values - {key}, now);
      UpdateKeepsHealthy(WriteValues(p, t, s.values[key := value]), t.tid, now);
      UpdateKeepsHealthy(WriteValues(p, t, s.values - {key}), t.tid, now);
    }
  }

  /** As written, `TokenInit` puts a new session behind older ones: a
      session created at 0s, then one at 100s, and a sweep at 120s with a
      50s lifetime keeps the first although it expired at 50s. */
  lemma InitAtBackHidesExpiredSession()
    ensures var p1 := TokenInit(NewProvider(), "a", 0).0;
      var p2 := TokenInit(p1, "b", 100 * NanosPerSecond).0;
      var p3 := TokenGC(p2, 50, 120 * NanosPerSecond);
      && p2.list[0].store.tid == "a"
      && Expired(p2.list[0].store, 50, 120 * NanosPerSecond)
      && "a" in p3.tokens
      && !RecencyOrdered(p2.list)
  {
    var p1 := TokenInit(NewProvider(), "a", 0).0;
    var p2 := TokenInit(p1, "b", 100 * NanosPerSecond).0;
    assert p2.list == [Element(0, Store("a", 0, map[])), Element(1, Store("b", 100 * NanosPerSecond, map[]))];
    assert !Expired(p2.list[1].store, 50, 120 * NanosPerSecond);
    assert p2.list[1..] == [p2.list[1]];
    assert TidsOf(p2.list[2..]) == {};
  }

  /** The same history with the corrected `TokenInitFront` sweeps the expired session. */
  lemma InitAtFrontSweepsExpiredSession()
    ensures var p1 := TokenInitFront(NewProvider(), "a", 0).0;
      var p2 := TokenInitFront(p1, "b", 100 * NanosPerSecond).0;
      var p3 := TokenGC(p2, 50, 120 * NanosPerSecond);
      "a" !in p3.tokens && "b" in p3.tokens
  {
    var p1 := TokenInitFront(NewProvider(), "a", 0).0;
    var p2 := TokenInitFront(p1, "b", 100 * NanosPerSecond).0;
    InitFrontKeepsHealthy(NewProvider(), "a", 0);
    HealthyLater(p1, 0, 100 * NanosPerSecond);
    InitFrontKeepsHealthy(p1, "b", 100 * NanosPerSecond);
    assert p2.list == [Element(1, Store("b", 100 * NanosPerSecond, map[])), Element(0, Store("a", 0, map[]))];
    GCRemovesExactlyExpired(p2, 50, 120 * NanosPerSecond);
    var p3 := TokenGC(p2, 50, 120 * NanosPerSecond);
    assert |p3.list| == 1;
    assert p2.list[1..] == [p2.list[1]];
    assert TidsOf(p2.list[1..]) == {"a"};
  }
}
