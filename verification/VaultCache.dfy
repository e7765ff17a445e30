/** The Vault credential cache: what each section that holds the mutex does to it. */
module VaultCache {

  import opened Wrappers
  import opened Maths

  // Times and durations are nanoseconds.
  type Time = int

  const SECOND: int := 1_000_000_000
  const MINUTE: int := 60 * SECOND

  const VAULT_CACHE_TTL: int := 5 * MINUTE
  const ROTATION_SKEW: int := 5 * SECOND
  const REFRESH_RETRY_BASE: int := 30 * SECOND
  const REFRESH_RETRY_MAX: int := VAULT_CACHE_TTL
  const IDLE_EVICT: int := 15 * MINUTE
  const RENEW_FLOOR: int := 5 * SECOND

  type Key = string
  type Lease = string
  type Data = map<string, string>

  /** The empty lease id: a value no lease owns. */
  const NO_LEASE: Lease := ""

  /** How a node logs in. */
  datatype StoreAuth = StoreAuth(method_: string, path: string, role: string)

  /** What a read of a store depends on besides its name, server and mount. */
  datatype StoreConfig = StoreConfig(provider: string, kvVersion: int, vaultNamespace: string, caBundle: string,
                                     auth: StoreAuth)

  datatype SecretStore = SecretStore(namespace: string, name: string, server: string, mount: string,
                                     config: StoreConfig)

  /** What a re-read needs. At most one of the two roles is named; with neither it is a KV path. */
  datatype FetchSpec = FetchSpec(store: SecretStore, path: string, staticRole: string, dynamicRole: string,
                                 keys: string)

  datatype Entry = Entry(data: Data, expires: Time, lastUsed: Time, spec: FetchSpec, token: string,
                         failures: nat, lease: Lease, renewable: bool, staleSince: Option<Time>)

  type Cache = map<Key, Entry>

  /** One successful read. */
  datatype ReadResult = ReadResult(data: Data, until: int, lease: Lease, renewable: bool)

  /** A server's answer to a read, per source. */
  datatype Answer =
    | KVAnswer(data: Data)
    | StaticAnswer(data: Data, ttlSeconds: int)
    | DynamicAnswer(data: Data, lease: Lease, leaseSeconds: int, renewable: bool)

  function Max(a: int, b: int): int {
    if a < b then b else a
  }

  function Min(a: int, b: int): int {
    if a < b then a else b
  }

  function RenewAfter(lease: int): int {
    Max(RENEW_FLOOR, lease * 2 / 3)
  }

  function StaticUntil(ttlSeconds: int): int {
    var ttl := ttlSeconds * SECOND + ROTATION_SKEW;
    if ttlSeconds > 0 && ttl < VAULT_CACHE_TTL then ttl else VAULT_CACHE_TTL
  }

  /** What readSpec returns for an answer; a half-answer is a failed read. */
  function ReadSpec(spec: FetchSpec, answer: Answer): Option<ReadResult> {
    if spec.dynamicRole != "" then
      if answer.DynamicAnswer? && answer.lease != NO_LEASE
      then Some(ReadResult(answer.data, RenewAfter(answer.leaseSeconds * SECOND), answer.lease, answer.renewable))
      else None
    else if spec.staticRole != "" then
      if answer.StaticAnswer? then Some(ReadResult(answer.data, StaticUntil(answer.ttlSeconds), NO_LEASE, false))
      else None
    else
      if answer.KVAnswer? then Some(ReadResult(answer.data, VAULT_CACHE_TTL, NO_LEASE, false)) else None
  }

  /** No read asks to be attended to sooner than the floor, an unleased one no later than the KV
      bound, and exactly the dynamic roles come with a lease. */
  lemma ReadLastsAtLeastTheFloor(spec: FetchSpec, answer: Answer)
    requires ReadSpec(spec, answer).Some?
    ensures ReadSpec(spec, answer).value.until >= RENEW_FLOOR
    ensures spec.dynamicRole == "" ==> ReadSpec(spec, answer).value.until <= VAULT_CACHE_TTL
    ensures spec.dynamicRole != "" <==> ReadSpec(spec, answer).value.lease != NO_LEASE
  {
  }

  /** The wait after the n-th failure in a row. */
  function Backoff(failures: nat): int
    requires failures > 0
  {
    Min(REFRESH_RETRY_MAX, REFRESH_RETRY_BASE * Pow2(Min(failures - 1, 8)))
  }

  /** Backing off never shortens, starts at 30 s and is capped at five minutes from the fifth
      failure on. */
  lemma BackoffShape(m: nat, n: nat)
    requires 0 < m <= n
    ensures REFRESH_RETRY_BASE <= Backoff(m) <= Backoff(n) <= REFRESH_RETRY_MAX
    ensures Backoff(1) == REFRESH_RETRY_BASE
    ensures n >= 5 ==> Backoff(n) == REFRESH_RETRY_MAX
  {
    Pow2Monotone(Min(m - 1, 8), Min(n - 1, 8));
    if n >= 5 {
      assert Pow2(4) == 16;
      Pow2Monotone(4, Min(n - 1, 8));
    }
  }

  // ---------------------------------------------------------------------------------------------
  // What each locked section means.
  // ---------------------------------------------------------------------------------------------

  function ServedEntry(e: Entry, token: string, now: Time): Entry {
    e.(lastUsed := now, token := if token != "" then token else e.token)
  }

  function NewEntry(spec: FetchSpec, token: string, res: ReadResult, now: Time): Entry {
    Entry(res.data, now + res.until, now, spec, token, 0, res.lease, res.renewable, None)
  }

  predicate Idle(e: Entry, now: Time) {
    now - e.lastUsed >= IDLE_EVICT
  }

  predicate DueEntry(e: Entry, now: Time) {
    !Idle(e, now) && now >= e.expires
  }

  function SettledEntry(e: Entry, res: ReadResult, newValue: bool, now: Time): Entry {
    e.(data := if newValue then res.data else e.data, expires := now + res.until,
       lease := res.lease, renewable := res.renewable, failures := 0, staleSince := None)
  }

  function FailedEntry(e: Entry, now: Time): Entry {
    e.(staleSince := if e.staleSince.None? then Some(now) else e.staleSince,
       failures := e.failures + 1, expires := now + Backoff(e.failures + 1))
  }

  function Surviving(cache: Cache, now: Time): Cache {
    map ck | ck in cache && !Idle(cache[ck], now) :: cache[ck]
  }

  /** The refresher's private copy of what it needs to attend to one value. */
  datatype Job = Job(spec: FetchSpec, token: string, lease: Lease, renew: bool)

  function JobOf(e: Entry): Job {
    Job(e.spec, e.token, e.lease, e.renewable)
  }

  function DueJobs(cache: Cache, now: Time): map<Key, Job> {
    map ck | ck in cache && DueEntry(cache[ck], now) :: JobOf(cache[ck])
  }

  /** The leases of the idle entries, each to be released. */
  function IdleLeases(cache: Cache, now: Time): map<Key, Lease> {
    map ck | ck in cache && Idle(cache[ck], now) && cache[ck].lease != NO_LEASE :: cache[ck].lease
  }

  /** The earliest deadline in the cache. */
  ghost predicate IsEarliest(cache: Cache, d: Option<Time>) {
    if cache == map[] then d.None?
    else d.Some? && (exists ck :: ck in cache && cache[ck].expires == d.value)
                 && forall ck :: ck in cache ==> d.value <= cache[ck].expires
  }

  // ---------------------------------------------------------------------------------------------
  // The object. One clock reading is taken per locked section.
  // ---------------------------------------------------------------------------------------------

  class Vault {
    var cache: Cache
    /** The one-slot wake channel: full or empty. */
    var wake: bool

    constructor ()
      ensures cache == map[] && !wake
    {
      cache, wake := map[], false;
    }

    method Serve(ck: Key, token: string, now: Time) returns (data: Option<Data>)
      modifies this`cache
      ensures data.Some? <==> ck in old(cache)
      ensures data.Some? ==> data.value == old(cache)[ck].data
      ensures cache == if ck in old(cache) then old(cache)[ck := ServedEntry(old(cache)[ck], token, now)]
                       else old(cache)
    {
      if ck !in cache {
        return None;
      }
      var e := cache[ck];
      e := e.(lastUsed := now);
      if token != "" {
        e := e.(token := token);
      }
      cache := cache[ck := e];
      data := Some(e.data);
    }

    /** The locked part of a first read. */
    method Insert(ck: Key, spec: FetchSpec, token: string, res: ReadResult, now: Time)
      modifies this`cache
      ensures cache == old(cache)[ck := NewEntry(spec, token, res, now)]
    {
      cache := cache[ck := Entry(res.data, now + res.until, now, spec, token, 0, res.lease, res.renewable, None)];
    }

    /** A non-blocking send into a channel of capacity one. */
    method Signal()
      modifies this`wake
      ensures wake
    {
      if !wake {
        wake := true;
      }
    }

    method NextDeadline() returns (earliest: Option<Time>)
      ensures IsEarliest(cache, earliest)
    {
      earliest := None;
      var todo := cache.Keys;
      while todo != {}
        invariant todo <= cache.Keys
        invariant earliest.None? <==> todo == cache.Keys
        invariant earliest.Some? ==> exists ck :: ck in cache && cache[ck].expires == earliest.value
        invariant earliest.Some? ==> forall ck :: ck in cache && ck !in todo ==> earliest.value <= cache[ck].expires
      {
        var ck :| ck in todo;
        if earliest.None? || cache[ck].expires < earliest.value {
          earliest := Some(cache[ck].expires);
        }
        todo := todo - {ck};
      }
    }

    /** The locked part of a refresh pass: drop the idle entries, collect their leases and the
        work that is due. */
    method Scan(now: Time) returns (evicted: map<Key, Lease>, work: map<Key, Job>)
      modifies this`cache
      ensures cache == Surviving(old(cache), now)
      ensures evicted == IdleLeases(old(cache), now) && work == DueJobs(old(cache), now)
    {
      evicted, work := map[], map[];
      ghost var idle, due := IdleLeases(cache, now), DueJobs(cache, now);
      var todo := cache.Keys;
      while todo != {}
        invariant todo <= old(cache).Keys
        invariant forall ck :: ck in cache <==> ck in old(cache) && (ck in todo || !Idle(old(cache)[ck], now))
        invariant forall ck :: ck in cache ==> cache[ck] == old(cache)[ck]
        invariant forall ck :: ck in evicted <==> ck in idle && ck !in todo
        invariant forall ck :: ck in evicted ==> evicted[ck] == idle[ck]
        invariant forall ck :: ck in work <==> ck in due && ck !in todo
        invariant forall ck :: ck in work ==> work[ck] == due[ck]
      {
        var ck :| ck in todo;
        var e := cache[ck];
        if now - e.lastUsed >= IDLE_EVICT {
          cache := cache - {ck};
          if e.lease != NO_LEASE {
            evicted := evicted[ck := e.lease];
          }
        } else if !(now < e.expires) {
          work := work[ck := Job(e.spec, e.token, e.lease, e.renewable)];
        }
        todo := todo - {ck};
      }
    }

    method Settle(ck: Key, res: ReadResult, newValue: bool, now: Time)
      modifies this`cache
      ensures cache == if ck in old(cache) then old(cache)[ck := SettledEntry(old(cache)[ck], res, newValue, now)]
                       else old(cache)
    {
      if ck !in cache {
        return;
      }
      var e := cache[ck];
      if newValue {
        e := e.(data := res.data);
      }
      e := e.(expires := now + res.until);
      e := e.(lease := res.lease, renewable := res.renewable);
      e := e.(failures := 0);
      if e.staleSince.Some? {
        e := e.(staleSince := None);
      }
      cache := cache[ck := e];
    }

    method Fail(ck: Key, now: Time)
      modifies this`cache
      ensures cache == if ck in old(cache) then old(cache)[ck := FailedEntry(old(cache)[ck], now)] else old(cache)
    {
      if ck !in cache {
        return;
      }
      var e := cache[ck];
      if e.staleSince.None? {
        e := e.(staleSince := Some(now));
      }
      e := e.(failures := e.failures + 1);
      e := e.(expires := now + Min(REFRESH_RETRY_MAX, REFRESH_RETRY_BASE * Pow2(Min(e.failures - 1, 8))));
      cache := cache[ck := e];
    }

    method StaleFor(ck: Key, now: Time) returns (r: Option<int>)
      ensures r.Some? <==> ck in cache && cache[ck].staleSince.Some?
      ensures r.Some? ==> cache[ck].staleSince.value + r.value == now
    {
      if ck !in cache || cache[ck].staleSince.None? {
        return None;
      }
      r := Some(now - cache[ck].staleSince.value);
    }
  }
}
