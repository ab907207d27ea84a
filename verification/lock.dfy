/** The single-instance distributed lock of the Redis "distributed locks"
    pattern: acquire by set-if-absent, release by compare-and-delete. The
    shared store is a `map<string, string>` from key to value; what other
    clients do to it between attempts, and whether a call to it fails, are
    inputs. Durations are nanoseconds, as `time.Duration`. */
module Lock {
  import opened Wrappers
  import Crypto

  const Millisecond: int := Crypto.Millisecond
  const Second: int := 1000 * Millisecond

  /** Defaults of `NewMutex`. */
  const DefaultExpiry: int := 10 * Second
  const DefaultRetryCount: int := 50
  const DefaultRetryDelay: int := 1 * Second

  /** Prefix and size of a generated ownership value. */
  const ValuePrefix: string := "lok"
  const ValueSize: int := 32

  /** The string keys and values of the shared store. */
  type Store = map<string, string>

  /** An opaque reference to a shared object (the cache client, the configuration). */
  datatype Handle = Handle(ref: nat)

  /** `RedisLock`: the cache and configuration every mutex it makes shares. */
  datatype RedisLock = RedisLock(cache: Handle, cfg: Handle)

  datatype Mutex = Mutex(
    name: string,
    retryCount: int,
    retryDelay: int,
    expiry: int,
    cache: Handle,
    cfg: Handle,
    value: string)

  /** The functional options `WithExpiry`, `WithRetryCount`, `WithRetryDelay`, `WithValue`. */
  datatype MutexOption =
    | WithExpiry(expiry: int)
    | WithRetryCount(retryCount: int)
    | WithRetryDelay(retryDelay: int)
    | WithValue(value: string)

  /** The configurable fields of a mutex, to speak about "this field only". */
  datatype Field = ExpiryField | RetryCountField | RetryDelayField | ValueField

  datatype FieldValue = IntValue(i: int) | TextValue(s: string)

  function Read(m: Mutex, f: Field): FieldValue {
    match f
    case ExpiryField => IntValue(m.expiry)
    case RetryCountField => IntValue(m.retryCount)
    case RetryDelayField => IntValue(m.retryDelay)
    case ValueField => TextValue(m.value)
  }

  /** The field an option sets. */
  function Target(o: MutexOption): Field {
    match o
    case WithExpiry(_) => ExpiryField
    case WithRetryCount(_) => RetryCountField
    case WithRetryDelay(_) => RetryDelayField
    case WithValue(_) => ValueField
  }

  /** The value an option writes into its field. */
  function Written(o: MutexOption): FieldValue {
    match o
    case WithExpiry(d) => IntValue(d)
    case WithRetryCount(n) => IntValue(n)
    case WithRetryDelay(d) => IntValue(d)
    case WithValue(v) => TextValue(v)
  }

  /** `Option.Apply`: the option's own field takes the option's value, every
      other field and the name, cache and configuration are kept. */
  function Apply(m: Mutex, o: MutexOption): (r: Mutex)
    ensures r.name == m.name && r.cache == m.cache && r.cfg == m.cfg
    ensures Read(r, Target(o)) == Written(o)
    ensures forall f :: f != Target(o) ==> Read(r, f) == Read(m, f)
  {
    match o
    case WithExpiry(d) => m.(expiry := d)
    case WithRetryCount(n) => m.(retryCount := n)
    case WithRetryDelay(d) => m.(retryDelay := d)
    case WithValue(v) => m.(value := v)
  }

  /** The options applied in order. */
  function ApplyAll(m: Mutex, opts: seq<MutexOption>): (r: Mutex)
    ensures r.name == m.name && r.cache == m.cache && r.cfg == m.cfg
    decreases |opts|
  {
    if |opts| == 0 then m else ApplyAll(Apply(m, opts[0]), opts[1..])
  }

  /** A field no option targets keeps its value. */
  lemma {:induction false} UntargetedFieldKept(m: Mutex, opts: seq<MutexOption>, f: Field)
    requires forall j :: 0 <= j < |opts| ==> Target(opts[j]) != f
    ensures Read(ApplyAll(m, opts), f) == Read(m, f)
    decreases |opts|
  {
    if |opts| > 0 {
      UntargetedFieldKept(Apply(m, opts[0]), opts[1..], f);
    }
  }

  /** The last option that targets a field decides its value. */
  lemma {:induction false} LastOptionWins(m: Mutex, opts: seq<MutexOption>, i: int)
    requires 0 <= i < |opts|
    requires forall j :: i < j < |opts| ==> Target(opts[j]) != Target(opts[i])
    ensures Read(ApplyAll(m, opts), Target(opts[i])) == Written(opts[i])
    decreases |opts|
  {
    if i == 0 {
      UntargetedFieldKept(Apply(m, opts[0]), opts[1..], Target(opts[0]));
    } else {
      LastOptionWins(Apply(m, opts[0]), opts[1..], i - 1);
    }
  }

  /** The mutex before options: the name, the defaults, the lock's shared handles and no value yet. */
  function Defaults(l: RedisLock, name: string): Mutex {
    Mutex(name, DefaultRetryCount, DefaultRetryDelay, DefaultExpiry, l.cache, l.cfg, "")
  }

  /** `RedisLock.NewMutex(name, options...)`. `entropy` feeds the
      `GenerateId("lok", 32)` call made when no option set a non-empty value. */
  function NewMutex(l: RedisLock, name: string, opts: seq<MutexOption>, entropy: Option<seq<Crypto.byte>>): (m: Mutex)
    ensures m.name == name && m.cache == l.cache && m.cfg == l.cfg
    ensures ApplyAll(Defaults(l, name), opts).value != "" ==> m.value == ApplyAll(Defaults(l, name), opts).value
    ensures ApplyAll(Defaults(l, name), opts).value == "" ==> m.value == Crypto.GenerateId(ValuePrefix, ValueSize, entropy)
    ensures forall f :: f != ValueField ==> Read(m, f) == Read(ApplyAll(Defaults(l, name), opts), f)
  {
    var m := ApplyAll(Defaults(l, name), opts);
    if m.value == "" then m.(value := Crypto.GenerateId(ValuePrefix, ValueSize, entropy)) else m
  }

  /** With no option, a mutex has expiry 10s, 50 attempts and a 1s delay,
      and a generated `lok_`-prefixed value when the random source works. */
  lemma NewMutexDefaults(l: RedisLock, name: string, bytes: seq<Crypto.byte>)
    requires |bytes| >= ValueSize
    ensures var m := NewMutex(l, name, [], Some(bytes));
      && m.expiry == 10 * Second && m.retryCount == 50 && m.retryDelay == Second
      && |m.value| == 3 + 1 + 64 && m.value[..4] == "lok_"
  {
    var m := NewMutex(l, name, [], Some(bytes));
    assert m.value == Crypto.GenerateId(ValuePrefix, ValueSize, Some(bytes));
    assert m.value[..3] == "lok" && m.value[3] == '_';
    assert m.value[..4] == m.value[..3] + [m.value[3]];
  }

  /** `Mutex.Name`. */
  function Name(m: Mutex): string {
    m.name
  }

  /** The store's `SET key value NX PX expiry`, an atomic step: it writes
      only when the key is absent, and says whether it wrote. */
  function SetNX(s: Store, key: string, value: string): (r: (Store, bool))
    ensures r.1 <==> key !in s
    ensures r.1 ==> r.0 == s[key := value]
    ensures !r.1 ==> r.0 == s
  {
    if key in s then (s, false) else (s[key := value], true)
  }

  /** `acquire`: `fault` is the connection error of this call, if any. */
  function Acquire(m: Mutex, s: Store, fault: Option<string>): (r: (Store, Result<bool, string>))
    ensures fault.Some? ==> r == (s, Err(fault.value))
    ensures fault.None? ==> (r.1 == Ok(true) <==> m.name !in s)
    ensures fault.None? && m.name !in s ==> r.0 == s[m.name := m.value] && r.0[m.name] == m.value
    ensures r.1 != Ok(true) ==> r.0 == s
  {
    if fault.Some? then (s, Err(fault.value))
    else
      var (s', ok) := SetNX(s, m.name, m.value);
      (s', Ok(ok))
  }

  /** The outcome of `release`/`Unlock`: `nil`, `ErrUnLockFailed`, or the store's error. */
  datatype UnlockResult = Unlocked | UnlockFailed | UnlockError(msg: string)

  /** The unlock script, run atomically by the store: delete the key if it
      holds exactly `value`, and answer how many keys were deleted. */
  function CompareAndDelete(s: Store, key: string, value: string): (r: (Store, int))
    ensures r.1 == 1 <==> key in s && s[key] == value
    ensures r.1 == 1 ==> r.0 == s - {key}
    ensures r.1 != 1 ==> r.0 == s && r.1 == 0
  {
    if key in s && s[key] == value then (s - {key}, 1) else (s, 0)
  }

  /** `release(name)`; `fault` is the error of the script call, if any. */
  function Release(m: Mutex, lockName: string, s: Store, fault: Option<string>): (r: (Store, UnlockResult))
    ensures fault.Some? ==> r == (s, UnlockError(fault.value))
    ensures fault.None? ==> (r.1 == Unlocked <==> lockName in s && s[lockName] == m.value)
    ensures fault.None? && r.1 != Unlocked ==> r.1 == UnlockFailed
    ensures r.1 == Unlocked ==> r.0 == s - {lockName}
    ensures r.1 != Unlocked ==> r.0 == s
  {
    if fault.Some? then (s, UnlockError(fault.value))
    else
      var (s', deleted) := CompareAndDelete(s, lockName, m.value);
      if deleted == 0 then (s', UnlockFailed) else (s', Unlocked)
  }

  /** `Mutex.Unlock`. */
  function Unlock(m: Mutex, s: Store, fault: Option<string>): (r: (Store, UnlockResult))
    ensures fault.Some? ==> r == (s, UnlockError(fault.value))
    ensures fault.None? ==> (r.1 == Unlocked <==> m.name in s && s[m.name] == m.value)
    ensures fault.None? && r.1 != Unlocked ==> r.1 == UnlockFailed
    ensures r.1 != Unlocked ==> r.0 == s
    ensures r.1 == Unlocked ==> r.0 == s - {m.name}
  {
    Release(m, m.name, s, fault)
  }

  /** What one attempt of the retry loop meets: the store as other clients
      left it, and whether the call to the store fails. */
  datatype Attempt = Attempt(store: Store, fault: Option<string>)

  /** The attempt met a healthy store whose key is already taken. */
  predicate Contended(m: Mutex, a: Attempt) {
    a.fault.None? && m.name in a.store
  }

  /** `(true, nil)`, `(false, nil)`, `(false, err)`, and the panic of
      `Int63n` when the back-off is asked for with a delay under 1 ms. */
  datatype LockResult = Locked | NotLocked | LockError(msg: string) | BackoffPanic

  function MaxAttempts(m: Mutex): nat {
    if m.retryCount <= 0 then 0 else m.retryCount
  }

  /** `Mutex.Lock`. Attempt `i` meets `world(i)`; back-off `i` is drawn from
      `draws(i)`. Returns the result, the number of attempts made, the
      back-off delays slept, and the store after the last attempt. */
  method Lock(m: Mutex, world: nat -> Attempt, draws: nat -> nat)
    returns (result: LockResult, attempts: nat, sleeps: seq<int>, store: Store)
    ensures attempts <= MaxAttempts(m)
    ensures forall j :: 0 <= j < attempts - 1 ==> Contended(m, world(j))
    ensures attempts == 0 ==> result == NotLocked && sleeps == []
    ensures attempts > 0 ==> |sleeps| == attempts - 1
    ensures forall j :: 0 <= j < |sleeps| ==> 0 <= sleeps[j] < m.retryDelay && sleeps[j] % Millisecond == 0
    ensures result == Locked <==>
      attempts > 0 && world(attempts - 1).fault.None? && m.name !in world(attempts - 1).store
    ensures result == Locked ==> store == world(attempts - 1).store[m.name := m.value]
    ensures result.LockError? ==> attempts > 0 && world(attempts - 1).fault == Some(result.msg)
    ensures attempts > 0 && world(attempts - 1).fault.Some? ==> result.LockError?
    ensures result == NotLocked ==>
      attempts == MaxAttempts(m) && (attempts > 0 ==> Contended(m, world(attempts - 1)))
    ensures result == BackoffPanic ==>
      attempts == 1 && attempts < MaxAttempts(m) && Contended(m, world(0)) && m.retryDelay < Millisecond
    ensures m.retryDelay < Millisecond ==> attempts <= 1
    ensures attempts > 0 && attempts < MaxAttempts(m) && Contended(m, world(attempts - 1)) && m.retryDelay < Millisecond ==>
      result == BackoffPanic
    ensures result != Locked && attempts > 0 ==> store == world(attempts - 1).store
  {
    var i := 0;
    sleeps := [];
    store := map[];
    while i < m.retryCount
      invariant 0 <= i <= MaxAttempts(m)
      invariant |sleeps| == i
      invariant m.retryCount > 0 ==> i < m.retryCount
      invariant i > 0 ==> m.retryDelay >= Millisecond
      invariant forall j :: 0 <= j < i ==> Contended(m, world(j))
      invariant forall j :: 0 <= j < |sleeps| ==> 0 <= sleeps[j] < m.retryDelay && sleeps[j] % Millisecond == 0
    {
      var a := world(i);
      var (s', reply) := Acquire(m, a.store, a.fault);
      if reply != Ok(false) {
        attempts := i + 1;
        store := s';
        if reply.Ok? {
          result := Locked;
        } else {
          result := LockError(reply.error);
        }
        return;
      }
      if i == m.retryCount - 1 {
        return NotLocked, i + 1, sleeps, s';
      }
      if m.retryDelay < Millisecond {
        return BackoffPanic, i + 1, sleeps, s';
      }
      sleeps := sleeps + [Crypto.GenerateRandomDuration(m.retryDelay, draws(i))];
      i := i + 1;
    }
    return NotLocked, i, sleeps, store;
  }

  /** Once one mutex holds a name, a second mutex with another value can
      neither acquire it nor release it. */
  lemma OtherHolderExcluded(a: Mutex, b: Mutex, s: Store)
    requires a.name == b.name && a.value != b.value
    requires Acquire(a, s, None).1 == Ok(true)
    ensures var held := Acquire(a, s, None).0;
      && Acquire(b, held, None) == (held, Ok(false))
      && Unlock(b, held, None) == (held, UnlockFailed)
  {
  }

  /** After a successful unlock, unlocking again fails and changes nothing. */
  lemma SecondUnlockFails(m: Mutex, s: Store)
    requires Unlock(m, s, None).1 == Unlocked
    ensures var s' := Unlock(m, s, None).0;
      Unlock(m, s', None) == (s', UnlockFailed)
  {
  }

  /** The key lapsing (its TTL running out) is a step of the store. */
  function Lapse(s: Store, key: string): (s': Store)
    ensures key !in s' && forall k :: k in s && k != key ==> k in s' && s'[k] == s[k]
  {
    s - {key}
  }

  /** After the key lapses and another mutex takes it, the former holder's
      unlock fails and leaves the new holder's entry in place. */
  lemma LapsedHolderCannotRelease(a: Mutex, b: Mutex, s: Store)
    requires a.name == b.name && a.value != b.value
    requires Acquire(a, s, None).1 == Ok(true)
    ensures var s1 := Lapse(Acquire(a, s, None).0, a.name);
      var s2 := Acquire(b, s1, None).0;
      && Acquire(b, s1, None).1 == Ok(true)
      && Unlock(a, s2, None) == (s2, UnlockFailed)
      && s2[b.name] == b.value
  {
  }
}
