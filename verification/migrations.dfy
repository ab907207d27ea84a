/** The migration registry: providers registered under string ids, and the
    list of their migrations in ascending id order. A provider is modelled
    by the migration it yields; the configuration it is handed is not
    modelled. */
module Migrations {
  import opened Wrappers
  import opened StringOrder

  /** The registry, as the package-level `providers` map. */
  type Registry<P> = map<string, P>

  /** `MigrationRegister`. `provider` is `None` for a `nil` provider. On
      error the registry is returned unchanged. */
  function Register<P>(providers: Registry<P>, id: string, provider: Option<P>): (r: Result<Registry<P>, string>)
    ensures provider.None? ==> r == Err("migration: provider is nil")
    ensures provider.Some? && id in providers ==> r == Err("migration: provider already exists for " + id)
    ensures r.Ok? <==> provider.Some? && id !in providers
    ensures r.Ok? ==> id in r.value && r.value[id] == provider.value
    ensures r.Ok? ==> forall k :: k != id ==> (k in r.value <==> k in providers)
    ensures r.Ok? ==> forall k :: k != id && k in providers ==> r.value[k] == providers[k]
  {
    if provider.None? then Err("migration: provider is nil")
    else if id in providers then Err("migration: provider already exists for " + id)
    else Ok(providers[id := provider.value])
  }

  /** Registering two ids, in either order, builds the same registry. */
  lemma RegisterCommutes<P>(providers: Registry<P>, a: string, pa: P, b: string, pb: P)
    requires a != b && a !in providers && b !in providers
    ensures Register(Register(providers, a, Some(pa)).value, b, Some(pb))
         == Register(Register(providers, b, Some(pb)).value, a, Some(pa))
  {
    assert providers[a := pa][b := pb] == providers[b := pb][a := pa];
  }

  /** `ret` lists, for the ids `keys` in order, each id's migration. */
  ghost predicate Listed<P, M>(ret: seq<M>, keys: seq<string>, providers: Registry<P>, get: P -> M) {
    && |ret| == |keys|
    && (forall i :: 0 <= i < |keys| ==> keys[i] in providers && ret[i] == get(providers[keys[i]]))
  }

  /** `GetMigrations`: the ids are collected in whatever order the map
      yields them, sorted ascending, and mapped to their migrations. It
      never fails. */
  method GetMigrations<P, M>(providers: Registry<P>, get: P -> M) returns (ret: seq<M>)
    ensures |ret| == |providers|
    ensures exists keys :: StrictlySorted(keys) && (forall k :: k in keys <==> k in providers) && Listed(ret, keys, providers, get)
  {
    // Collect the ids; Go's map iteration order is unspecified.
    var collected: seq<string> := [];
    var rest := providers.Keys;
    while rest != {}
      invariant rest <= providers.Keys
      invariant forall k :: k in collected <==> k in providers && k !in rest
      invariant |collected| + |rest| == |providers|
      decreases |rest|
    {
      var k :| k in rest;
      collected := collected + [k];
      rest := rest - {k};
    }
    // `sort.Strings`, by insertion.
    var keys: seq<string> := [];
    for i := 0 to |collected|
      invariant StrictlySorted(keys)
      invariant forall k :: k in keys <==> k in collected[..i]
      invariant |keys| == i
    {
      assert collected[..i + 1] == collected[..i] + [collected[i]];
      DistinctCollected(collected, i, providers.Keys);
      keys := Insert(keys, collected[i]);
    }
    assert collected[..|collected|] == collected;
    ret := [];
    for i := 0 to |keys|
      invariant Listed(ret, keys[..i], providers, get)
    {
      ret := ret + [get(providers[keys[i]])];
    }
    assert keys[..|keys|] == keys;
  }

  /** The ids collected so far hold no duplicate: each one was taken out
      of the remaining set when it was added. */
  lemma DistinctCollected(collected: seq<string>, i: int, ks: set<string>)
    requires 0 <= i < |collected|
    requires forall k :: k in collected <==> k in ks
    ensures collected[i] !in collected[..i] || |collected| > |ks|
  {
    if collected[i] in collected[..i] {
      CardinalityWithDuplicate(collected, i, ks);
    }
  }

  lemma CardinalityWithDuplicate(collected: seq<string>, i: int, ks: set<string>)
    requires 0 <= i < |collected| && collected[i] in collected[..i]
    requires forall k :: k in collected <==> k in ks
    ensures |collected| > |ks|
  {
    var j :| 0 <= j < i && collected[j] == collected[i];
    SetOfSeqSmaller(collected, j, i);
    assert ks == set k | k in collected;
  }

  /** A sequence with a repeated element has fewer distinct elements than entries. */
  lemma {:induction false} SetOfSeqSmaller(s: seq<string>, j: int, i: int)
    requires 0 <= j < i < |s| && s[j] == s[i]
    ensures |set k | k in s| < |s|
  {
    var t := s[..i] + s[i + 1..];
    assert forall k :: k in s <==> k in t by {
      forall k | k in s ensures k in t {
        var m :| 0 <= m < |s| && s[m] == k;
        if m < i {
          assert t[m] == k;
        } else if m > i {
          assert t[m - 1] == k;
        } else {
          assert t[j] == k;
        }
      }
    }
    SetOfSeqAtMost(t);
    assert (set k | k in s) == (set k | k in t);
  }

  lemma {:induction false} SetOfSeqAtMost(s: seq<string>)
    ensures |set k | k in s| <= |s|
  {
    if |s| > 0 {
      var t := s[1..];
      SetOfSeqAtMost(t);
      assert (set k | k in s) == (set k | k in t) + {s[0]} by {
        assert s == [s[0]] + t;
      }
    }
  }

  /** The listing is determined by the registry alone: any two strictly
      sorted listings of the ids agree. */
  lemma ListingDetermined<P, M>(providers: Registry<P>, get: P -> M, ret1: seq<M>, keys1: seq<string>, ret2: seq<M>, keys2: seq<string>)
    requires StrictlySorted(keys1) && (forall k :: k in keys1 <==> k in providers) && Listed(ret1, keys1, providers, get)
    requires StrictlySorted(keys2) && (forall k :: k in keys2 <==> k in providers) && Listed(ret2, keys2, providers, get)
    ensures ret1 == ret2
  {
    SortedUnique(keys1, keys2);
  }
}
