/** Replacing the socket load balancer's two kernel maps while the datapath reads them.

    Every map operation is one step. The process lives for `lifetime` more steps and then dies, so
    a postcondition that holds for every lifetime holds in every intermediate state, which is
    what a reader or the next process finds. */
module SockLB {

  import opened Wrappers
  import opened Maths
  import opened ServiceTable

  /** The service map, from a service to its number of backends, and the backend map. */
  type Counts = map<Bytes, nat>
  type Entries = map<Bytes, Bytes>

  const MAX_SERVICES: nat := 4096
  const MAX_BACKENDS: nat := 65536

  /** A hash map takes a write when it holds the key already or has room for it. */
  predicate Admits<K, V>(m: map<K, V>, capacity: nat, k: K) {
    k in m || |m.Keys| < capacity
  }

  // ---------------------------------------------------------------------------------------------
  // What a reader may rely on.
  // ---------------------------------------------------------------------------------------------

  /** Every index below a service's count resolves. */
  ghost predicate Coherent(services: Counts, backends: Entries) {
    forall k, i: nat :: k in services && i < services[k] ==> BackendKey(k, i) in backends
  }

  datatype Pick = Untouched | Rewritten(backend: Bytes) | BlackHole

  /** The datapath program: look the service up, pick an index at random, rewrite. */
  function Connect(services: Counts, backends: Entries, key: Bytes, random: nat): Pick {
    if key !in services || services[key] == 0 then Untouched
    else
      var slot := BackendKey(key, random % services[key]);
      if slot in backends then Rewritten(backends[slot]) else BlackHole
  }

  /** Coherence is exactly the absence of a destination no connection can reach. */
  lemma CoherentIffNoBlackHole(services: Counts, backends: Entries)
    ensures Coherent(services, backends)
       <==> forall key, random :: Connect(services, backends, key, random) != BlackHole
  {
    if forall key, random :: Connect(services, backends, key, random) != BlackHole {
      forall k, i: nat | k in services && i < services[k]
        ensures BackendKey(k, i) in backends
      {
        assert i % services[k] == i;
        assert Connect(services, backends, k, i) != BlackHole;
      }
    }
  }

  /** Each count is the service's old one or its new one. */
  ghost predicate CountsOldOrNew(before: Counts, want: Table, services: Counts) {
    forall k :: k in services ==>
                  || (k in before && services[k] == before[k])
                  || (k in want && services[k] == |want[k]|)
  }

  ghost predicate Settled(target: Entries, backends: Entries, key: Bytes) {
    key in target && key in backends && backends[key] == target[key]
  }

  /** Each backend entry holds what that very slot held before or what the request puts there. */
  ghost predicate BackendsOldOrNew(before: Entries, target: Entries, backends: Entries) {
    forall key :: key in backends ==>
                    (key in before && backends[key] == before[key]) || Settled(target, backends, key)
  }

  ghost predicate ServicesFit(services: Counts, want: Table) {
    |services.Keys + want.Keys| <= MAX_SERVICES
  }

  ghost predicate BackendsFit(backends: Entries, target: Entries) {
    |backends.Keys + target.Keys| <= MAX_BACKENDS
  }

  /** The target holds every backend of a service's row at its slot. */
  ghost predicate RealizesRow(target: Entries, key: Bytes, row: seq<Bytes>) {
    forall i: nat :: i < |row| ==> BackendKey(key, i) in target && target[BackendKey(key, i)] == row[i]
  }

  lemma BackendMapRealizes(want: Table)
    requires Encodable(want)
    ensures forall k :: k in want ==> RealizesRow(BackendMap(want), k, want[k])
  {
    forall k, i: nat | k in want && i < |want[k]|
      ensures BackendKey(k, i) in BackendMap(want) && BackendMap(want)[BackendKey(k, i)] == want[k][i]
    {
      BackendMapAt(want, k, i);
    }
  }

  /** The backend map on its way from one state towards the target. */
  ghost predicate Towards(before: Entries, target: Entries, backends: Entries) {
    before.Keys <= backends.Keys <= before.Keys + target.Keys && BackendsOldOrNew(before, target, backends)
  }

  ghost predicate KeepsSettled(target: Entries, from: Entries, to: Entries) {
    from.Keys <= to.Keys && forall slot :: Settled(target, from, slot) ==> Settled(target, to, slot)
  }

  ghost predicate RowSettled(target: Entries, backends: Entries, key: Bytes, n: nat) {
    forall i: nat :: i < n ==> Settled(target, backends, BackendKey(key, i))
  }

  lemma StartOfRow(backends: Entries, target: Entries, key: Bytes)
    ensures Towards(backends, target, backends) && KeepsSettled(target, backends, backends)
    ensures RowSettled(target, backends, key, 0)
  {
  }

  lemma KeepsSettledTransitive(target: Entries, a: Entries, b: Entries, c: Entries)
    requires KeepsSettled(target, a, b) && KeepsSettled(target, b, c)
    ensures KeepsSettled(target, a, c)
  {
  }

  lemma RowExtends(target: Entries, a: Entries, b: Entries, key: Bytes, n: nat)
    requires RowSettled(target, a, key, n) && KeepsSettled(target, a, b)
    ensures RowSettled(target, b, key, n)
    ensures Settled(target, b, BackendKey(key, n)) ==> RowSettled(target, b, key, n + 1)
  {
  }

  lemma RowsStaySettled(target: Entries, a: Entries, b: Entries, want: Table, todo: set<Bytes>)
    requires KeepsSettled(target, a, b) && forall k :: k in want && k !in todo ==> RowSettled(target, a, k, |want[k]|)
    ensures forall k :: k in want && k !in todo ==> RowSettled(target, b, k, |want[k]|)
  {
  }

  /** A count that names only stored entries keeps the tables coherent; so does no count at all. */
  lemma CountAfterRow(services: Counts, a: Entries, target: Entries, b: Entries,
                      key: Bytes, n: nat)
    requires Coherent(services, a) && a.Keys <= b.Keys
    ensures Coherent(services, b)
    ensures RowSettled(target, b, key, n) ==> Coherent(services[key := n], b)
  {
  }

  lemma SettleOne(before: Entries, target: Entries, backends: Entries, slot: Bytes)
    requires Towards(before, target, backends) && slot in target
    ensures Towards(before, target, backends[slot := target[slot]])
    ensures KeepsSettled(target, backends, backends[slot := target[slot]])
    ensures Settled(target, backends[slot := target[slot]], slot)
  {
  }

  /** What holds at every step of the writing half. */
  ghost predicate Underway(want: Table, target: Entries, s0: Counts, b0: Entries,
                           services: Counts, backends: Entries) {
    && Towards(b0, target, backends)
    && s0.Keys <= services.Keys <= s0.Keys + want.Keys
    && CountsOldOrNew(s0, want, services)
    && (BackendsFit(b0, target) ==> NewCountsHaveNewRows(s0, want, target, services, backends))
    && (BackendsFit(b0, target) && Coherent(s0, b0) ==> Coherent(services, backends))
  }

  /** The services outside `todo` are written, or something did not fit. */
  ghost predicate WrittenSoFar(want: Table, target: Entries, s0: Counts, b0: Entries,
                               services: Counts, backends: Entries, todo: set<Bytes>, ok: bool) {
    && (forall k :: k in want && k !in todo && k in services ==> services[k] == |want[k]|)
    && (ok || ServicesFit(s0, want) ==> want.Keys <= services.Keys + todo)
    && (ok ==> forall k :: k in want && k !in todo ==> RowSettled(target, backends, k, |want[k]|))
    && (!ok ==> !BackendsFit(b0, target) || !ServicesFit(s0, want))
  }

  lemma NothingWritten(want: Table, target: Entries, services: Counts, backends: Entries)
    ensures Underway(want, target, services, backends, services, backends)
    ensures WrittenSoFar(want, target, services, backends, services, backends, want.Keys, true)
  {
  }

  lemma UnderwayMeans(want: Table, target: Entries, s0: Counts, b0: Entries,
                      services: Counts, backends: Entries)
    requires Underway(want, target, s0, b0, services, backends)
    ensures Towards(b0, target, backends) && s0.Keys <= services.Keys <= s0.Keys + want.Keys
  {
  }

  lemma StillUnderway(want: Table, target: Entries, s0: Counts, b0: Entries,
                      s1: Counts, b1: Entries, s2: Counts, b2: Entries, key: Bytes)
    requires Underway(want, target, s0, b0, s1, b1) && key in want
    requires Towards(b0, target, b2) && KeepsSettled(target, b1, b2) && (s2 == s1 || s2 == s1[key := |want[key]|])
    requires s2 == s1 || !BackendsFit(b0, target) || RowSettled(target, b2, key, |want[key]|)
    requires BackendsFit(b0, target) && Coherent(s1, b1) ==> Coherent(s2, b2)
    ensures Underway(want, target, s0, b0, s2, b2)
  {
    hide Towards, Coherent, BackendsFit, RowSettled, KeepsSettled;
    if BackendsFit(b0, target) {
      forall k | k in s1 && k in want && RowSettled(target, b1, k, |want[k]|)
        ensures RowSettled(target, b2, k, |want[k]|)
      {
        RowExtends(target, b1, b2, k, |want[k]|);
      }
    }
  }

  lemma OneServiceMore(want: Table, target: Entries, s0: Counts, b0: Entries,
                       s1: Counts, b1: Entries, s2: Counts, b2: Entries, key: Bytes,
                       todo: set<Bytes>, ok: bool, written: bool)
    requires WrittenSoFar(want, target, s0, b0, s1, b1, todo, ok) && key in want && key in todo
    requires KeepsSettled(target, b1, b2) && (s2 == s1 || s2 == s1[key := |want[key]|])
    requires written ==> key in s2 && RowSettled(target, b2, key, |want[key]|)
    requires key in s2 ==> s2[key] == |want[key]|
    requires key !in s2 ==> !ServicesFit(s0, want)
    requires !written ==> !BackendsFit(b0, target) || !ServicesFit(s0, want)
    ensures WrittenSoFar(want, target, s0, b0, s2, b2, todo - {key}, ok && written)
  {
    hide RowSettled, KeepsSettled, BackendsFit, ServicesFit;
    if ok {
      RowsStaySettled(target, b1, b2, want, todo);
    }
  }

  /** A write that is refused proves the union does not fit. */
  lemma RefusedMeansFull<V>(m: map<Bytes, V>, capacity: nat, k: Bytes, union: set<Bytes>)
    requires !Admits(m, capacity, k) && m.Keys <= union && k in union
    ensures |union| > capacity
  {
    assert m.Keys + {k} <= union;
    SubsetSize(m.Keys + {k}, union);
  }

  // ---------------------------------------------------------------------------------------------
  // The table a request means.
  // ---------------------------------------------------------------------------------------------

  function Position(keys: seq<Bytes>, k: Bytes): (i: nat)
    requires k in keys
    ensures i < |keys| && keys[i] == k
  {
    if keys[0] == k then 0 else 1 + Position(keys[1..], k)
  }

  ghost function TableOf(rules: seq<Rule>): Table
    requires ValidRules(rules)
  {
    map k | k in Keys(rules) :: Rows(rules)[Position(Keys(rules), k)]
  }

  lemma TableIsTableOf(rules: seq<Rule>, table: Table)
    requires ValidRules(rules) && Pairs(table, Keys(rules), Rows(rules))
    ensures table == TableOf(rules)
  {
  }

  /** A request is taken when every rule is valid and the table it means fits both maps. */
  ghost predicate Acceptable(rules: seq<Rule>) {
    ValidRules(rules) && |TableOf(rules)| <= MAX_SERVICES && |Slots(TableOf(rules))| <= MAX_BACKENDS
  }

  /** The capacity check is what keeps the 16-bit index from wrapping. */
  lemma CapacityMakesEncodable(table: Table)
    requires |Slots(table)| <= MAX_BACKENDS && forall k :: k in table ==> |k| == SVC_KEY_SIZE
    ensures Encodable(table)
  {
    forall k | k in table
      ensures |table[k]| <= INDEX_LIMIT
    {
      ServiceFitsTotal(table, k);
    }
  }

  // ---------------------------------------------------------------------------------------------
  // The phases of an update, on values.
  // ---------------------------------------------------------------------------------------------

  /** What the kernel refuses: walking a map, or deleting these keys. */
  datatype Faults = Faults(walkServices: bool, services: set<Bytes>, walkBackends: bool, backends: set<Bytes>)

  /** The service map after the stale services are deleted, as far as they can be. */
  ghost function CleanServices(services: Counts, want: Table, faults: Faults): Counts {
    map k | k in services && (k in want || k in faults.services || faults.walkServices) :: services[k]
  }

  /** The backend map after the uncovered entries are deleted, as far as they can be. */
  ghost function CleanBackends(backends: Entries, want: Table, faults: Faults): Entries {
    map key |
      && key in backends
      && (Covers(want, key) || key in faults.backends || faults.walkServices || faults.walkBackends) :: backends[key]
  }

  ghost predicate Between<V(!new)>(least: map<Bytes, V>, now: map<Bytes, V>, most: map<Bytes, V>) {
    least.Keys <= now.Keys <= most.Keys && forall k :: k in now ==> now[k] == most[k]
  }

  /** Nothing that is to go is held back. */
  ghost predicate Unhindered(services: Counts, backends: Entries, want: Table, faults: Faults) {
    && !faults.walkServices && !faults.walkBackends
    && (forall k :: k in services && k in faults.services ==> k in want)
    && (forall key :: key in backends && key in faults.backends ==> Covers(want, key))
  }

  /** No stale service stays. */
  ghost predicate NoneStays(services: Counts, want: Table, faults: Faults) {
    !faults.walkServices && forall k :: k in services && k in faults.services ==> k in want
  }

  /** A stale service that stays keeps all the entries its count names. */
  ghost predicate Spares(services: Counts, want: Table, faults: Faults) {
    || faults.walkServices || faults.walkBackends
    || forall k, i: nat :: k in services && k in faults.services && k !in want && i < services[k] ==>
                             BackendKey(k, i) in faults.backends
  }

  lemma CleanFacts(services: Counts, backends: Entries, want: Table, faults: Faults)
    ensures Between(CleanServices(services, want, faults), services, services)
    ensures Between(CleanBackends(backends, want, faults), backends, backends)
    ensures faults.walkServices ==> CleanServices(services, want, faults) == services
    ensures faults.walkServices || faults.walkBackends ==> CleanBackends(backends, want, faults) == backends
    ensures Between(CleanServices(services, want, faults), CleanServices(services, want, faults), services)
    ensures Between(CleanBackends(backends, want, faults), CleanBackends(backends, want, faults), backends)
    ensures Unhindered(services, backends, want, faults) ==> !faults.walkServices && !faults.walkBackends
  {
  }

  lemma UnhinderedIff(services: Counts, backends: Entries, want: Table, faults: Faults)
    ensures Unhindered(services, backends, want, faults)
       <==> && !faults.walkServices && !faults.walkBackends && (services.Keys - want.Keys) * faults.services == {}
            && forall key :: key in backends && key in faults.backends ==> Covers(want, key)
  {
    hide Covers;
    var held := (services.Keys - want.Keys) * faults.services;
    assert forall k :: k in held <==> k in services && k !in want && k in faults.services;
  }

  /** A count that is not the old one stands over all of its service's new backends. */
  ghost predicate NewCountsHaveNewRows(s0: Counts, want: Table, target: Entries,
                                       services: Counts, backends: Entries) {
    forall k :: k in services && (k !in s0 || services[k] != s0[k]) ==>
                  k in want && services[k] == |want[k]| && RowSettled(target, backends, k, |want[k]|)
  }

  /** What a reader or the next process may find at any step of an update. */
  ghost predicate OnTheWay(s0: Counts, b0: Entries, want: Table, faults: Faults,
                           services: Counts, backends: Entries) {
    && CountsOldOrNew(s0, want, services)
    && BackendsOldOrNew(b0, BackendMap(want), backends)
    && (BackendsFit(b0, BackendMap(want)) ==> NewCountsHaveNewRows(s0, want, BackendMap(want), services, backends))
    && (BackendsFit(b0, BackendMap(want)) && Coherent(s0, b0) && Spares(s0, want, faults) ==>
          Coherent(services, backends))
  }

  lemma FewerServices(before: Counts, want: Table, s1: Counts, s2: Counts, b: Entries)
    requires s2.Keys <= s1.Keys && forall k :: k in s2 ==> s2[k] == s1[k]
    ensures CountsOldOrNew(before, want, s1) ==> CountsOldOrNew(before, want, s2)
    ensures Coherent(s1, b) ==> Coherent(s2, b)
  {
  }

  lemma FewerBackends(before: Entries, target: Entries, b1: Entries, b2: Entries)
    requires BackendsOldOrNew(before, target, b1)
    requires b2.Keys <= b1.Keys && forall k :: k in b2 ==> b2[k] == b1[k]
    ensures BackendsOldOrNew(before, target, b2)
  {
  }

  /** Once every service has its new count or is stale: deleting uncovered entries breaks coherence
      exactly when it takes one a remaining stale service names. */
  lemma CleanCoherentIff(want: Table, s0: Counts, s1: Counts, b1: Entries, faults: Faults)
    requires Encodable(want) && forall k :: k in s1 ==> |k| == SVC_KEY_SIZE && s1[k] <= INDEX_LIMIT
    requires forall k :: k in s1 && k in want ==> s1[k] == |want[k]|
    requires forall k :: k !in want ==> (k in s1 <==> k in s0) && (k in s1 ==> s1[k] == s0[k])
    ensures Coherent(CleanServices(s1, want, faults), CleanBackends(b1, want, faults))
       <==> Coherent(CleanServices(s1, want, faults), b1) && Spares(s0, want, faults)
  {
    hide BackendKey, Covers, ServicePart, IndexPart;
    var s2, b2 := CleanServices(s1, want, faults), CleanBackends(b1, want, faults);
    forall k, i: nat | k in s2 && i < s2[k]
      ensures Covers(want, BackendKey(k, i)) <==> k in want
    {
      CoveredSlot(want, k, i, s2[k]);
    }
  }

  lemma CoveredSlot(want: Table, k: Bytes, i: nat, n: nat)
    requires |k| == SVC_KEY_SIZE && i < n <= INDEX_LIMIT && (k in want ==> n == |want[k]|)
    ensures Covers(want, BackendKey(k, i)) <==> k in want
  {
    hide BackendKey, ServicePart, IndexPart;
    BackendKeyDecodes(k, i);
    assert |BackendKey(k, i)| == BACKEND_KEY_SIZE;
  }

  /** All writes succeeded exactly when the old and the new keys fit together in both maps. */
  lemma WritesSucceedIffFit(want: Table, target: Entries, s0: Counts, b0: Entries,
                            s1: Counts, b1: Entries, ok: bool)
    requires s0.Keys <= s1.Keys <= s0.Keys + want.Keys && |s1.Keys| <= MAX_SERVICES
    requires b0.Keys <= b1.Keys <= b0.Keys + target.Keys && |b1.Keys| <= MAX_BACKENDS
    requires ok ==> want.Keys <= s1.Keys && target.Keys <= b1.Keys
    requires !ok ==> !BackendsFit(b0, target) || !ServicesFit(s0, want)
    ensures ok <==> BackendsFit(b0, target) && ServicesFit(s0, want)
  {
    if ok {
      assert s1.Keys == s0.Keys + want.Keys;
      assert b1.Keys == b0.Keys + target.Keys;
    }
  }

  lemma RowsSettledAreAll(want: Table, backends: Entries)
    requires Encodable(want) && forall k :: k in want ==> RowSettled(BackendMap(want), backends, k, |want[k]|)
    ensures forall slot :: slot in BackendMap(want) ==> Settled(BackendMap(want), backends, slot)
  {
  }

  lemma ExactBackends(want: Table, b1: Entries, b2: Entries)
    requires Encodable(want) && forall slot :: slot in BackendMap(want) ==> Settled(BackendMap(want), b1, slot)
    requires forall key :: key in b1 ==> Canonical(key)
    requires b2.Keys <= b1.Keys && forall key :: key in b2 ==> b2[key] == b1[key]
    requires forall key :: key in b1 && Covers(want, key) ==> key in b2
    requires forall key :: key in b2 ==> Covers(want, key)
    ensures b2 == BackendMap(want)
  {
    BackendMapKeys(want);
    forall key
      ensures key in b2 <==> key in BackendMap(want)
    {
      NamedIffCovered(want, key);
    }
  }

  /** With every service counted, a coherent end state proves every named entry was stored. */
  lemma CoherenceProvesFit(want: Table, services: Counts, b0: Entries, b1: Entries)
    requires Encodable(want) && services == CountMap(want) && Coherent(services, b1)
    requires b0.Keys <= b1.Keys <= b0.Keys + BackendMap(want).Keys && |b1.Keys| <= MAX_BACKENDS
    ensures BackendsFit(b0, BackendMap(want))
  {
    hide BackendKey;
    forall slot | slot in BackendMap(want)
      ensures slot in b1
    {
      var k, i: nat :| k in want && i < |want[k]| && slot == BackendKey(k, i);
      assert k in services && i < services[k];
    }
    assert b1.Keys == b0.Keys + BackendMap(want).Keys;
  }

  lemma BackendMapIsCoherent(want: Table)
    requires Encodable(want)
    ensures Coherent(CountMap(want), BackendMap(want))
  {
    forall k, i: nat | k in CountMap(want) && i < CountMap(want)[k]
      ensures BackendKey(k, i) in BackendMap(want)
    {
      BackendMapAt(want, k, i);
    }
  }

  lemma CountsAreExact(want: Table, services: Counts)
    ensures services.Keys == want.Keys && (forall k :: k in services ==> services[k] == |want[k]|) ==>
              services == CountMap(want)
  {
  }

  lemma WritingIsOnTheWay(want: Table, s0: Counts, b0: Entries, services: Counts,
                          backends: Entries, faults: Faults)
    requires Underway(want, BackendMap(want), s0, b0, services, backends)
    ensures OnTheWay(s0, b0, want, faults, services, backends)
  {
    hide BackendMap, Coherent, BackendsOldOrNew, CountsOldOrNew, NewCountsHaveNewRows, Spares, BackendsFit;
  }

  /** What the writing half leaves of the keys the request does not name: nothing changed. */
  lemma StaleUntouched(want: Table, s0: Counts, b0: Entries, s1: Counts, b1: Entries)
    requires Underway(want, BackendMap(want), s0, b0, s1, b1)
    ensures forall k :: k !in want ==> (k in s1 <==> k in s0) && (k in s1 ==> s1[k] == s0[k])
    ensures forall key :: !Covers(want, key) ==> (key in b1 <==> key in b0)
  {
    hide Coherent, BackendsFit, NewCountsHaveNewRows, BackendsOldOrNew, Covers, BackendKeys;
  }

  lemma RowsSurvive(want: Table, target: Entries, b1: Entries, b2: Entries, faults: Faults, k: Bytes)
    requires Encodable(want) && k in want && RowSettled(target, b1, k, |want[k]|)
    requires Between(CleanBackends(b1, want, faults), b2, b1)
    ensures RowSettled(target, b2, k, |want[k]|)
  {
    hide BackendKey, Covers;
    forall i: nat | i < |want[k]|
      ensures Settled(target, b2, BackendKey(k, i))
    {
      assert Settled(target, b1, BackendKey(k, i));
      CoveredSlot(want, k, i, |want[k]|);
    }
  }

  lemma NewRowsSurvive(want: Table, target: Entries, s0: Counts, s1: Counts, b1: Entries,
                       s2: Counts, b2: Entries, faults: Faults)
    requires Encodable(want) && NewCountsHaveNewRows(s0, want, target, s1, b1)
    requires Between(CleanServices(s1, want, faults), s2, s1) && Between(CleanBackends(b1, want, faults), b2, b1)
    ensures NewCountsHaveNewRows(s0, want, target, s2, b2)
  {
    hide RowSettled, CleanServices, CleanBackends;
    forall k | k in s2 && (k !in s0 || s2[k] != s0[k])
      ensures k in want && s2[k] == |want[k]| && RowSettled(target, b2, k, |want[k]|)
    {
      RowsSurvive(want, target, b1, b2, faults, k);
    }
  }

  lemma MoreBackendsCohere(services: Counts, fewer: Entries, more: Entries)
    requires fewer.Keys <= more.Keys
    ensures Coherent(services, fewer) ==> Coherent(services, more)
  {
    hide BackendKey;
  }

  lemma CleaningIsOnTheWay(want: Table, s0: Counts, b0: Entries, s1: Counts, b1: Entries,
                           s2: Counts, b2: Entries, faults: Faults, ok: bool)
    requires Encodable(want) && forall k :: k in s1 ==> |k| == SVC_KEY_SIZE && s1[k] <= INDEX_LIMIT
    requires Underway(want, BackendMap(want), s0, b0, s1, b1)
    requires WrittenSoFar(want, BackendMap(want), s0, b0, s1, b1, {}, ok)
    requires Between(CleanServices(s1, want, faults), s2, s1) && Between(CleanBackends(b1, want, faults), b2, b1)
    requires b2 == b1 || s2 == CleanServices(s1, want, faults)
    ensures OnTheWay(s0, b0, want, faults, s2, b2)
  {
    hide BackendMap, Coherent, BackendsOldOrNew, CountsOldOrNew, NewCountsHaveNewRows, Spares, BackendsFit,
      CleanServices, CleanBackends, RowSettled, ServicesFit, Encodable;
    var target := BackendMap(want);
    FewerServices(s0, want, s1, s2, b1);
    FewerBackends(b0, target, b1, b2);
    if BackendsFit(b0, target) {
      NewRowsSurvive(want, target, s0, s1, b1, s2, b2, faults);
      if Coherent(s0, b0) && Spares(s0, want, faults) && b2 != b1 {
        StaleUntouched(want, s0, b0, s1, b1);
        CleanCoherentIff(want, s0, s1, b1, faults);
        MoreBackendsCohere(s2, CleanBackends(b1, want, faults), b2);
      }
    }
  }

  /** What a finished update leaves, from what its two halves guarantee. */
  lemma FinishedUpdate(want: Table, s0: Counts, b0: Entries, s1: Counts, b1: Entries,
                       faults: Faults, ok: bool)
    requires Encodable(want) && forall key :: key in b1 ==> Canonical(key)
    requires forall k :: k in s1 ==> |k| == SVC_KEY_SIZE && s1[k] <= INDEX_LIMIT
    requires |s1.Keys| <= MAX_SERVICES && |b1.Keys| <= MAX_BACKENDS
    requires Underway(want, BackendMap(want), s0, b0, s1, b1)
    requires WrittenSoFar(want, BackendMap(want), s0, b0, s1, b1, {}, ok)
    ensures ok <==> BackendsFit(b0, BackendMap(want)) && ServicesFit(s0, want)
    ensures Unhindered(s1, b1, want, faults) <==> Unhindered(s0, b0, want, faults)
    ensures var s2, b2 := CleanServices(s1, want, faults), CleanBackends(b1, want, faults);
            && (ok && Unhindered(s0, b0, want, faults) ==> s2 == CountMap(want) && b2 == BackendMap(want))
            && (ServicesFit(s0, want) && Coherent(s0, b0) ==>
                  (Coherent(s2, b2) <==> BackendsFit(b0, BackendMap(want)) && Spares(s0, want, faults)))
            && (ServicesFit(s0, want) && NoneStays(s0, want, faults) ==>
                  (Coherent(s2, b2) <==> BackendsFit(b0, BackendMap(want))))
  {
    hide BackendMap, CountMap, Coherent, Covers, Canonical, Encodable, NewCountsHaveNewRows, Spares, NoneStays,
      Unhindered, CleanServices, CleanBackends, BackendsFit, ServicesFit, RowSettled, CountsOldOrNew, BackendsOldOrNew;
    var target := BackendMap(want);
    if ok {
      RowsSettledAreAll(want, b1);
    }
    WritesSucceedIffFit(want, target, s0, b0, s1, b1, ok);
    StaleUntouched(want, s0, b0, s1, b1);
    SameHindrance(want, s0, b0, s1, b1, faults);
    CleanCoherentIff(want, s0, s1, b1, faults);
    if ok && Unhindered(s0, b0, want, faults) {
      ExactUpdate(want, s1, b1, faults);
    }
    if ServicesFit(s0, want) {
      WantedCohere(want, s0, b0, s1, b1, faults, ok);
    }
  }

  lemma SameHindrance(want: Table, s0: Counts, b0: Entries, s1: Counts, b1: Entries,
                      faults: Faults)
    requires forall k :: k !in want ==> (k in s1 <==> k in s0)
    requires forall key :: !Covers(want, key) ==> (key in b1 <==> key in b0)
    ensures Unhindered(s1, b1, want, faults) <==> Unhindered(s0, b0, want, faults)
  {
    hide Covers;
  }

  lemma ExactUpdate(want: Table, s1: Counts, b1: Entries, faults: Faults)
    requires Encodable(want) && forall key :: key in b1 ==> Canonical(key)
    requires want.Keys <= s1.Keys && forall k :: k in s1 && k in want ==> s1[k] == |want[k]|
    requires forall slot :: slot in BackendMap(want) ==> Settled(BackendMap(want), b1, slot)
    requires Unhindered(s1, b1, want, faults)
    ensures CleanServices(s1, want, faults) == CountMap(want)
    ensures CleanBackends(b1, want, faults) == BackendMap(want)
  {
    hide BackendMap, Covers, Canonical, Settled;
    ExactBackends(want, b1, CleanBackends(b1, want, faults));
    CountsAreExact(want, CleanServices(s1, want, faults));
  }

  /** With every wanted service counted, the services that stay cohere over the written backends
      exactly when those fitted. */
  lemma WantedCohere(want: Table, s0: Counts, b0: Entries, s1: Counts, b1: Entries,
                     faults: Faults, ok: bool)
    requires Encodable(want) && |b1.Keys| <= MAX_BACKENDS && ServicesFit(s0, want)
    requires Underway(want, BackendMap(want), s0, b0, s1, b1)
    requires WrittenSoFar(want, BackendMap(want), s0, b0, s1, b1, {}, ok)
    ensures var s2 := CleanServices(s1, want, faults);
            && (Coherent(s0, b0) ==> (Coherent(s2, b1) <==> BackendsFit(b0, BackendMap(want))))
            && (NoneStays(s0, want, faults) ==> (Coherent(s2, b1) <==> BackendsFit(b0, BackendMap(want))))
            && (NoneStays(s0, want, faults) ==> Spares(s0, want, faults))
  {
    hide BackendKey, BackendMap, Coherent, Encodable, NewCountsHaveNewRows, BackendsFit, RowSettled, CountsOldOrNew,
      BackendsOldOrNew, ServicesFit, CountMap, CleanServices, Spares, NoneStays;
    var s2 := CleanServices(s1, want, faults);
    StaleUntouched(want, s0, b0, s1, b1);
    CleanCounts(want, s0, s1, faults);
    FewerServices(s0, want, s1, s2, b1);
    FewerServices(s0, want, s2, CountMap(want), b1);
    if Coherent(s2, b1) {
      CoherenceProvesFit(want, CountMap(want), b0, b1);
    }
    if BackendsFit(b0, BackendMap(want)) {
      SettledCohere(want, BackendMap(want), b1);
    }
  }

  lemma CleanCounts(want: Table, s0: Counts, s1: Counts, faults: Faults)
    requires want.Keys <= s1.Keys && forall k :: k in s1 && k in want ==> s1[k] == |want[k]|
    requires forall k :: k !in want ==> (k in s1 <==> k in s0)
    ensures var s2 := CleanServices(s1, want, faults);
            && Between(CountMap(want), CountMap(want), s2) && Between(s2, s2, s1)
            && (NoneStays(s0, want, faults) ==> s2 == CountMap(want))
    ensures NoneStays(s0, want, faults) ==> Spares(s0, want, faults)
  {
    hide BackendKey;
    CountsAreExact(want, CleanServices(s1, want, faults));
  }

  lemma SettledCohere(want: Table, target: Entries, b: Entries)
    requires forall k :: k in want ==> RowSettled(target, b, k, |want[k]|)
    ensures Coherent(CountMap(want), b)
  {
    hide BackendKey;
    forall k, i: nat | k in CountMap(want) && i < CountMap(want)[k]
      ensures BackendKey(k, i) in b
    {
      assert RowSettled(target, b, k, |want[k]|);
      assert Settled(target, b, BackendKey(k, i));
    }
  }

  // ---------------------------------------------------------------------------------------------
  // The updater.
  // ---------------------------------------------------------------------------------------------

  datatype Outcome = Refused | Died | Errors | Done

  class Updater {
    var services: Counts
    var backends: Entries
    var lifetime: nat

    /** What every step keeps: key sizes, canonical pads, representable counts, capacities. */
    ghost predicate Valid()
      reads this
    {
      && (forall k :: k in services ==> |k| == SVC_KEY_SIZE && services[k] <= INDEX_LIMIT)
      && (forall key :: key in backends ==> Canonical(key))
      && |services.Keys| <= MAX_SERVICES && |backends.Keys| <= MAX_BACKENDS
    }

    constructor (steps: nat)
      ensures Valid() && services == map[] && backends == map[] && lifetime == steps
    {
      services, backends, lifetime := map[], map[], steps;
    }

    method PutBackend(key: Bytes, value: Bytes) returns (alive: bool, ok: bool)
      requires Valid() && Canonical(key)
      modifies this`backends, this`lifetime
      ensures Valid() && alive == (old(lifetime) > 0) && (ok ==> alive) && (!alive ==> lifetime == 0)
      ensures alive ==> (ok <==> Admits(old(backends), MAX_BACKENDS, key))
      ensures backends == if ok then old(backends)[key := value] else old(backends)
    {
      alive, ok := lifetime > 0, false;
      if alive {
        lifetime := lifetime - 1;
        ok := Admits(backends, MAX_BACKENDS, key);
        if ok {
          assert backends[key := value].Keys == backends.Keys + {key};
          backends := backends[key := value];
        }
      }
    }

    method PutCount(key: Bytes, count: nat) returns (alive: bool, ok: bool)
      requires Valid() && |key| == SVC_KEY_SIZE && count <= INDEX_LIMIT
      modifies this`services, this`lifetime
      ensures Valid() && alive == (old(lifetime) > 0) && (ok ==> alive) && (!alive ==> lifetime == 0)
      ensures alive ==> (ok <==> Admits(old(services), MAX_SERVICES, key))
      ensures services == if ok then old(services)[key := count] else old(services)
    {
      alive, ok := lifetime > 0, false;
      if alive {
        lifetime := lifetime - 1;
        ok := Admits(services, MAX_SERVICES, key);
        if ok {
          assert services[key := count].Keys == services.Keys + {key};
          services := services[key := count];
        }
      }
    }

    method DeleteService(key: Bytes, refused: bool) returns (alive: bool)
      requires Valid()
      modifies this`services, this`lifetime
      ensures Valid() && alive == (old(lifetime) > 0) && (!alive ==> lifetime == 0)
      ensures services == if alive && !refused then old(services) - {key} else old(services)
    {
      alive := lifetime > 0;
      if alive {
        lifetime := lifetime - 1;
      }
      if alive && !refused {
        SubsetSize((services - {key}).Keys, services.Keys);
        services := services - {key};
      }
    }

    method DeleteBackend(key: Bytes, refused: bool) returns (alive: bool)
      requires Valid()
      modifies this`backends, this`lifetime
      ensures Valid() && alive == (old(lifetime) > 0) && (!alive ==> lifetime == 0)
      ensures backends == if alive && !refused then old(backends) - {key} else old(backends)
    {
      alive := lifetime > 0;
      if alive {
        lifetime := lifetime - 1;
      }
      if alive && !refused {
        SubsetSize((backends - {key}).Keys, backends.Keys);
        backends := backends - {key};
      }
    }

    /** Writes one backend of a service. */
    method WriteSlot(key: Bytes, i: nat, value: Bytes, ghost before: Entries, ghost target: Entries)
      returns (alive: bool, taken: bool)
      requires Valid() && |key| == SVC_KEY_SIZE && Towards(before, target, backends)
      requires BackendKey(key, i) in target && target[BackendKey(key, i)] == value
      modifies this`backends, this`lifetime
      ensures Valid() && Towards(before, target, backends) && KeepsSettled(target, old(backends), backends)
      ensures alive && taken ==> Settled(target, backends, BackendKey(key, i))
      ensures alive && !taken ==> !BackendsFit(before, target)
      ensures !alive ==> lifetime == 0
    {
      hide BackendKey, KeepsSettled, Settled, BackendsOldOrNew;
      var slot := BackendKey(key, i);
      BackendKeyDecodes(key, i);
      SettleOne(before, target, backends, slot);
      StartOfRow(backends, target, key);
      alive, taken := PutBackend(slot, value);
      if alive && !taken {
        RefusedMeansFull(backends, MAX_BACKENDS, slot, before.Keys + target.Keys);
      }
    }

    /** Writes one service's backends, without its count. */
    method WriteBackends(key: Bytes, row: seq<Bytes>, ghost before: Entries, ghost target: Entries)
      returns (alive: bool, ok: bool)
      requires Valid() && |key| == SVC_KEY_SIZE && Towards(before, target, backends)
      requires RealizesRow(target, key, row)
      modifies this`backends, this`lifetime
      ensures Valid() && Towards(before, target, backends) && KeepsSettled(target, old(backends), backends)
      ensures alive && ok ==> RowSettled(target, backends, key, |row|)
      ensures alive && !ok ==> !BackendsFit(before, target)
      ensures !alive ==> lifetime == 0
    {
      hide BackendKey, KeepsSettled, RowSettled, Settled, Towards, BackendsFit, Valid;
      alive, ok := true, true;
      var i := 0;
      StartOfRow(backends, target, key);
      while i < |row|
        invariant i <= |row| && alive && Valid()
        invariant Towards(before, target, backends) && KeepsSettled(target, old(backends), backends)
        invariant ok ==> RowSettled(target, backends, key, i)
        invariant !ok ==> !BackendsFit(before, target)
      {
        ghost var held := backends;
        var taken: bool;
        alive, taken := WriteSlot(key, i, row[i], before, target);
        KeepsSettledTransitive(target, old(backends), held, backends);
        if !alive {
          return;
        }
        if ok && taken {
          RowExtends(target, held, backends, key, i);
        }
        ok := ok && taken;
        i := i + 1;
      }
    }

    /** One service: every backend entry first, then the count that names them. */
    method WriteService(key: Bytes, row: seq<Bytes>, ghost wanted: set<Bytes>, ghost counts: set<Bytes>,
                        ghost before: Entries, ghost target: Entries)
      returns (alive: bool, ok: bool)
      requires Valid() && |key| == SVC_KEY_SIZE && |row| <= INDEX_LIMIT && key in wanted
      requires RealizesRow(target, key, row)
      requires Towards(before, target, backends) && counts <= services.Keys <= counts + wanted
      modifies this
      ensures Valid() && Towards(before, target, backends) && KeepsSettled(target, old(backends), backends)
      ensures services == old(services) || services == old(services)[key := |row|]
      ensures services == old(services) || !BackendsFit(before, target) || RowSettled(target, backends, key, |row|)
      ensures alive && ok ==> key in services && RowSettled(target, backends, key, |row|)
      ensures alive && key in services ==> services[key] == |row|
      ensures alive && key !in services ==> |counts + wanted| > MAX_SERVICES
      ensures alive && !ok ==> !BackendsFit(before, target) || |counts + wanted| > MAX_SERVICES
      ensures BackendsFit(before, target) && old(Coherent(services, backends)) ==> Coherent(services, backends)
      ensures !alive ==> lifetime == 0
    {
      hide BackendKey, RowSettled, Coherent, Towards, BackendsFit, RealizesRow;
      alive, ok := WriteBackends(key, row, before, target);
      if old(Coherent(services, backends)) {
        CountAfterRow(services, old(backends), target, backends, key, |row|);
      }
      if !alive {
        return;
      }
      var counted: bool;
      alive, counted := PutCount(key, |row|);
      if alive && !counted {
        RefusedMeansFull(services, MAX_SERVICES, key, counts + wanted);
      }
      ok := ok && counted;
    }

    /** The first half of the update: everything the request names is written. */
    method WriteAll(want: Table, ghost target: Entries) returns (alive: bool, ok: bool)
      requires Valid() && Encodable(want) && forall k :: k in want ==> RealizesRow(target, k, want[k])
      modifies this
      ensures Valid() && Underway(want, target, old(services), old(backends), services, backends)
      ensures alive ==> WrittenSoFar(want, target, old(services), old(backends), services, backends, {}, ok)
      ensures !alive ==> lifetime == 0
    {
      hide BackendKey, RealizesRow, Valid, Underway, WrittenSoFar, RowSettled, KeepsSettled, Coherent;
      alive, ok := true, true;
      var todo := want.Keys;
      NothingWritten(want, target, services, backends);
      while todo != {}
        invariant alive && Valid() && todo <= want.Keys
        invariant Underway(want, target, old(services), old(backends), services, backends)
        invariant WrittenSoFar(want, target, old(services), old(backends), services, backends, todo, ok)
      {
        var key :| key in todo;
        ghost var s1, b1 := services, backends;
        UnderwayMeans(want, target, old(services), old(backends), s1, b1);
        var written: bool;
        alive, written := WriteService(key, want[key], want.Keys, old(services).Keys, old(backends), target);
        StillUnderway(want, target, old(services), old(backends), s1, b1, services, backends, key);
        if !alive {
          return;
        }
        OneServiceMore(want, target, old(services), old(backends), s1, b1, services, backends, key, todo, ok, written);
        ok := ok && written;
        todo := todo - {key};
      }
    }

    /** Every key in the service map the request does not name, read from the map itself. */
    method StaleServices(want: Table) returns (out: set<Bytes>)
      ensures out == services.Keys - want.Keys
    {
      out := {};
      var todo := services.Keys;
      while todo != {}
        invariant todo <= services.Keys && out == services.Keys - want.Keys - todo
      {
        var key :| key in todo;
        if key !in want {
          out := out + {key};
        }
        todo := todo - {key};
      }
    }

    /** Deletes the stale services: collected first, then deleted; a refused one is passed over. */
    method RemoveStaleServices(want: Table, faults: Faults) returns (alive: bool, ok: bool)
      requires Valid() && !faults.walkServices
      modifies this`services, this`lifetime
      ensures Valid() && Between(CleanServices(old(services), want, faults), services, old(services))
      ensures if alive then services == CleanServices(old(services), want, faults) else lifetime == 0
      ensures ok <==> (old(services).Keys - want.Keys) * faults.services == {}
    {
      alive := true;
      var stale := StaleServices(want);
      ok := stale * faults.services == {};
      while stale != {}
        invariant alive && Valid() && stale !! want.Keys
        invariant Between(CleanServices(old(services), want, faults), services, old(services))
        invariant forall k :: k in services && k !in want && k !in faults.services ==> k in stale
      {
        var key :| key in stale;
        alive := DeleteService(key, key in faults.services);
        if !alive {
          return;
        }
        stale := stale - {key};
      }
    }

    /** Every backend key whose decoded service or index the request does not cover. */
    method StaleBackends(want: Table) returns (out: set<Bytes>)
      requires Valid()
      ensures forall key :: key in out <==> key in backends && !Covers(want, key)
    {
      out := {};
      var todo := backends.Keys;
      while todo != {}
        invariant todo <= backends.Keys
        invariant forall key :: key in out <==> key in backends && key !in todo && !Covers(want, key)
      {
        var key :| key in todo;
        if ServicePart(key) !in want || IndexPart(key) >= |want[ServicePart(key)]| {
          out := out + {key};
        }
        todo := todo - {key};
      }
    }

    /** Deletes the uncovered backend entries: collected first, then deleted; a refused one is
        passed over. */
    method ReclaimBackends(want: Table, faults: Faults) returns (alive: bool, ok: bool)
      requires Valid() && !faults.walkServices && !faults.walkBackends
      modifies this`backends, this`lifetime
      ensures Valid() && Between(CleanBackends(old(backends), want, faults), backends, old(backends))
      ensures if alive then backends == CleanBackends(old(backends), want, faults) else lifetime == 0
      ensures ok <==> forall key :: key in old(backends) && key in faults.backends ==> Covers(want, key)
    {
      hide Covers, Valid;
      alive := true;
      var stale := StaleBackends(want);
      ok := stale * faults.backends == {};
      assert forall key :: key in stale * faults.backends <==> key in stale && key in faults.backends;
      while stale != {}
        invariant alive && Valid()
        invariant Between(CleanBackends(old(backends), want, faults), backends, old(backends))
        invariant forall key :: key in stale ==> !Covers(want, key)
        invariant forall key :: key in backends && !Covers(want, key) && key !in faults.backends ==> key in stale
      {
        var key :| key in stale;
        alive := DeleteBackend(key, key in faults.backends);
        if !alive {
          return;
        }
        stale := stale - {key};
      }
    }

    /** The second half: services first, so nothing picks an index out of a set being emptied. At
        every step the backends are untouched or the services are as clean as they get. */
    method Clean(want: Table, faults: Faults) returns (alive: bool, ok: bool)
      requires Valid()
      modifies this
      ensures Valid() && Between(CleanServices(old(services), want, faults), services, old(services))
      ensures Between(CleanBackends(old(backends), want, faults), backends, old(backends))
      ensures backends == old(backends) || services == CleanServices(old(services), want, faults)
      ensures alive ==> services == CleanServices(old(services), want, faults)
      ensures alive ==> backends == CleanBackends(old(backends), want, faults)
      ensures alive ==> (ok <==> Unhindered(old(services), old(backends), want, faults))
      ensures !alive ==> lifetime == 0
    {
      hide Covers, CleanServices, CleanBackends, Between, Unhindered, Canonical;
      CleanFacts(services, backends, want, faults);
      if faults.walkServices {
        return true, false;
      }
      UnhinderedIff(services, backends, want, faults);
      alive, ok := RemoveStaleServices(want, faults);
      if !alive {
        return false, false;
      }
      if faults.walkBackends {
        return true, false;
      }
      var reclaimed: bool;
      alive, reclaimed := ReclaimBackends(want, faults);
      ok := ok && reclaimed;
    }

    /** Both halves over an encodable table. */
    method Replace(want: Table, faults: Faults) returns (r: Outcome)
      requires Valid() && Encodable(want)
      modifies this
      ensures Valid() && !r.Refused?
      ensures OnTheWay(old(services), old(backends), want, faults, services, backends)
      ensures r.Done? || r.Errors? ==>
                (r.Done? <==> && BackendsFit(old(backends), BackendMap(want)) && ServicesFit(old(services), want)
                              && Unhindered(old(services), old(backends), want, faults))
      ensures r.Done? ==> services == CountMap(want) && backends == BackendMap(want)
      ensures (r.Done? || r.Errors?) && ServicesFit(old(services), want) && old(Coherent(services, backends)) ==>
                (Coherent(services, backends) <==>
                 BackendsFit(old(backends), BackendMap(want)) && Spares(old(services), want, faults))
      ensures (r.Done? || r.Errors?) && ServicesFit(old(services), want) && NoneStays(old(services), want, faults) ==>
                (Coherent(services, backends) <==> BackendsFit(old(backends), BackendMap(want)))
      ensures r.Died? ==> lifetime == 0
    {
      hide BackendKey, BackendMap, Coherent, RealizesRow, BackendsFit, CountMap, ServicesFit, Covers, Encodable,
        Canonical, Underway, WrittenSoFar, OnTheWay, Unhindered, Spares, NoneStays, Between, CleanServices,
        CleanBackends;
      ghost var s0, b0, target := services, backends, BackendMap(want);
      BackendMapRealizes(want);
      var alive, ok := WriteAll(want, target);
      WritingIsOnTheWay(want, s0, b0, services, backends, faults);
      if !alive {
        return Died;
      }
      ghost var s1, b1 := services, backends;
      var clean: bool;
      alive, clean := Clean(want, faults);
      CleaningIsOnTheWay(want, s0, b0, s1, b1, services, backends, faults, ok);
      if !alive {
        return Died;
      }
      FinishedUpdate(want, s0, b0, s1, b1, faults, ok);
      r := if ok && clean then Done else Errors;
    }

    /** Services: validate the request whole, then make both maps equal to it. */
    method Services(rules: seq<Rule>, faults: Faults) returns (r: Outcome)
      requires Valid()
      modifies this
      ensures Valid()
      ensures r.Refused? <==> !Acceptable(rules)
      ensures r.Refused? ==> services == old(services) && backends == old(backends)
      ensures !r.Refused? ==> OnTheWay(old(services), old(backends), TableOf(rules), faults, services, backends)
      ensures r.Done? || r.Errors? ==>
                (r.Done? <==> && BackendsFit(old(backends), BackendMap(TableOf(rules)))
                              && ServicesFit(old(services), TableOf(rules))
                              && Unhindered(old(services), old(backends), TableOf(rules), faults))
      ensures r.Done? ==> services == CountMap(TableOf(rules)) && backends == BackendMap(TableOf(rules))
      ensures (&& (r.Done? || r.Errors?) && ServicesFit(old(services), TableOf(rules))
               && old(Coherent(services, backends)))
              ==> (Coherent(services, backends) <==>
                   && BackendsFit(old(backends), BackendMap(TableOf(rules)))
                   && Spares(old(services), TableOf(rules), faults))
      ensures (&& (r.Done? || r.Errors?) && ServicesFit(old(services), TableOf(rules))
               && NoneStays(old(services), TableOf(rules), faults))
              ==> (Coherent(services, backends) <==> BackendsFit(old(backends), BackendMap(TableOf(rules))))
      ensures r.Died? ==> lifetime == 0
    {
      var table := BuildTable(rules);
      if table.None? {
        return Refused;
      }
      var want := table.value;
      TableIsTableOf(rules, want);
      if |want| > MAX_SERVICES {
        return Refused;
      }
      var total := CountBackends(want);
      if total > MAX_BACKENDS {
        return Refused;
      }
      CapacityMakesEncodable(want);
      r := Replace(want, faults);
    }
  }

  // ---------------------------------------------------------------------------------------------
  // Whole histories.
  // ---------------------------------------------------------------------------------------------

  /** What a connection is rewritten to, in any state of an update: that service's own backend at
      that index, the old one or the new one; and the new one wherever the count is no longer the
      old one. */
  lemma ReaderSeesOldOrNew(s0: Counts, b0: Entries, want: Table, faults: Faults,
                           services: Counts, backends: Entries, key: Bytes, random: nat)
    requires Encodable(want) && Coherent(services, backends) && OnTheWay(s0, b0, want, faults, services, backends)
    requires key in services ==> |key| == SVC_KEY_SIZE && services[key] <= INDEX_LIMIT
    ensures var pick := Connect(services, backends, key, random);
            || (pick == Untouched && (key in services ==> services[key] == 0))
            || (&& pick.Rewritten? && key in services && services[key] > 0
                && var i := random % services[key];
                   || (BackendKey(key, i) in b0 && pick.backend == b0[BackendKey(key, i)])
                   || (key in want && i < |want[key]| && pick.backend == want[key][i]))
    ensures var pick := Connect(services, backends, key, random);
            (&& BackendsFit(b0, BackendMap(want)) && pick.Rewritten?
             && (key !in s0 || services[key] != s0[key]))
            ==> key in want && services[key] == |want[key]| && pick.backend == want[key][random % services[key]]
  {
    hide BackendKey, BackendMap, BackendsFit, Spares, Encodable, NewCountsHaveNewRows;
    if key in services && services[key] > 0 {
      var i := random % services[key];
      var slot := BackendKey(key, i);
      assert slot in backends;
      if slot !in b0 || backends[slot] != b0[slot] {
        SettledSlotIsWanted(want, backends, key, i);
      }
      if BackendsFit(b0, BackendMap(want)) && (key !in s0 || services[key] != s0[key]) {
        NewCountReadsNew(s0, want, services, backends, key, i);
      }
    }
  }

  lemma NewCountReadsNew(s0: Counts, want: Table, services: Counts, backends: Entries,
                         key: Bytes, i: nat)
    requires NewCountsHaveNewRows(s0, want, BackendMap(want), services, backends)
    requires key in services && i < services[key] <= INDEX_LIMIT && |key| == SVC_KEY_SIZE
    requires key !in s0 || services[key] != s0[key]
    ensures key in want && services[key] == |want[key]|
    ensures BackendKey(key, i) in backends && backends[BackendKey(key, i)] == want[key][i]
  {
    hide BackendKey, BackendMap;
    assert Settled(BackendMap(want), backends, BackendKey(key, i));
    SettledSlotIsWanted(want, backends, key, i);
  }

  lemma SettledSlotIsWanted(want: Table, backends: Entries, key: Bytes, i: nat)
    requires |key| == SVC_KEY_SIZE && i < INDEX_LIMIT && Settled(BackendMap(want), backends, BackendKey(key, i))
    ensures key in want && i < |want[key]| && backends[BackendKey(key, i)] == want[key][i]
  {
  }

  /** One process: the request it is given and the number of map operations it survives. */
  datatype Life = Life(rules: seq<Rule>, faults: Faults, steps: nat)

  /** Both maps are exactly what an acceptable request means. */
  ghost predicate Exactly(services: Counts, backends: Entries, rules: seq<Rule>) {
    Acceptable(rules) && services == CountMap(TableOf(rules)) && backends == BackendMap(TableOf(rules))
  }

  /** Whenever a service's deletion is refused, so is that of every entry it could name. */
  ghost predicate Harmless(faults: Faults) {
    forall k, i: nat :: k in faults.services && i < INDEX_LIMIT ==> BackendKey(k, i) in faults.backends
  }

  lemma HarmlessSpares(services: Counts, want: Table, faults: Faults)
    requires Harmless(faults) && forall k :: k in services ==> services[k] <= INDEX_LIMIT
    ensures Spares(services, want, faults)
  {
    hide BackendKey;
  }

  /** Everything the request names is among the given keys. */
  ghost predicate Within(rules: seq<Rule>, slots: set<Bytes>, names: set<Bytes>) {
    Acceptable(rules) ==> BackendMap(TableOf(rules)).Keys <= slots && TableOf(rules).Keys <= names
  }

  lemma StaysWithin(s0: Counts, b0: Entries, want: Table, target: Entries,
                    services: Counts, backends: Entries, slots: set<Bytes>, names: set<Bytes>)
    requires s0.Keys <= names && want.Keys <= names && CountsOldOrNew(s0, want, services)
    requires b0.Keys <= slots && target.Keys <= slots && BackendsOldOrNew(b0, target, backends)
    ensures services.Keys <= names && backends.Keys <= slots
  {
  }

  method LiveOnce(u: Updater, life: Life, ghost slots: set<Bytes>, ghost names: set<Bytes>) returns (r: Outcome)
    requires u.Valid() && Coherent(u.services, u.backends) && Within(life.rules, slots, names) && Harmless(life.faults)
    requires |slots| <= MAX_BACKENDS && u.backends.Keys <= slots
    requires |names| <= MAX_SERVICES && u.services.Keys <= names
    modifies u
    ensures u.Valid() && Coherent(u.services, u.backends)
    ensures u.backends.Keys <= slots && u.services.Keys <= names
    ensures r.Done? ==> Exactly(u.services, u.backends, life.rules)
    ensures r.Refused? <==> !Acceptable(life.rules)
    ensures r.Errors? ==> !Unhindered(old(u.services), old(u.backends), TableOf(life.rules), life.faults)
    ensures r.Died? ==> u.lifetime == 0
  {
    hide BackendMap, BackendKey, CountMap, TableOf, ValidRules, Coherent, CountsOldOrNew, BackendsOldOrNew, Harmless,
      Spares, Unhindered, NoneStays, NewCountsHaveNewRows, Canonical;
    ghost var s0, b0 := u.services, u.backends;
    u.lifetime := life.steps;
    r := u.Services(life.rules, life.faults);
    if r != Refused {
      ghost var want := TableOf(life.rules);
      HarmlessSpares(s0, want, life.faults);
      UnionFits(b0.Keys, BackendMap(want).Keys, slots);
      UnionFits(s0.Keys, want.Keys, names);
      StaysWithin(s0, b0, want, BackendMap(want), u.services, u.backends, slots, names);
    }
  }

  /** Any number of processes, each dying wherever it dies and refused deletions, over maps large
      enough for every key ever named: no reader ever meets a black hole, as long as a refused
      service keeps its entries, and a process that finishes without an error leaves exactly its
      request, whatever the ones before it left. */
  method Live(u: Updater, lives: seq<Life>, ghost slots: set<Bytes>, ghost names: set<Bytes>) returns (r: Outcome)
    requires u.Valid() && Coherent(u.services, u.backends)
    requires forall l :: l in lives ==> Within(l.rules, slots, names) && Harmless(l.faults)
    requires |slots| <= MAX_BACKENDS && u.backends.Keys <= slots
    requires |names| <= MAX_SERVICES && u.services.Keys <= names
    modifies u
    ensures u.Valid() && Coherent(u.services, u.backends)
    ensures lives != [] && r.Done? ==> Exactly(u.services, u.backends, lives[|lives| - 1].rules)
    ensures lives != [] ==> (r.Refused? <==> !Acceptable(lives[|lives| - 1].rules))
    ensures r.Died? ==> u.lifetime == 0
  {
    hide Coherent, Exactly, Within, Updater.Valid, Harmless, Unhindered, Acceptable;
    r := Refused;
    for i := 0 to |lives|
      invariant u.Valid() && Coherent(u.services, u.backends)
      invariant u.backends.Keys <= slots && u.services.Keys <= names
      invariant i > 0 && r.Done? ==> Exactly(u.services, u.backends, lives[i - 1].rules)
      invariant i > 0 ==> (r.Refused? <==> !Acceptable(lives[i - 1].rules))
      invariant r.Died? ==> u.lifetime == 0
    {
      r := LiveOnce(u, lives[i], slots, names);
    }
  }

  lemma UnionFits(a: set<Bytes>, b: set<Bytes>, all: set<Bytes>)
    requires a <= all && b <= all
    ensures |a + b| <= |all|
  {
    SubsetSize(a + b, all);
  }

  /** From any coherent maps, with room for the request: a service that is to go and cannot be deleted
      loses every entry whose deletion is granted, and one such entry is enough. The update that
      finishes reports errors and leaves the service with a backend that is not there. */
  method RefusedServiceLosesItsBackend(u: Updater, want: Table, faults: Faults, ghost k: Bytes, ghost i: nat)
    returns (r: Outcome)
    requires u.Valid() && Encodable(want) && Coherent(u.services, u.backends) && ServicesFit(u.services, want)
    requires k in u.services && k !in want && i < u.services[k]
    requires !faults.walkServices && !faults.walkBackends
    requires k in faults.services && BackendKey(k, i) !in faults.backends
    modifies u
    ensures !r.Refused? && !r.Done?
    ensures r.Errors? ==> !Coherent(u.services, u.backends)
  {
    hide BackendKey, Coherent, BackendMap, BackendsFit, ServicesFit, CountMap, OnTheWay, NoneStays, Covers;
    assert !Spares(u.services, want, faults) && !Unhindered(u.services, u.backends, want, faults);
    r := u.Replace(want, faults);
  }

  // ---------------------------------------------------------------------------------------------
  // That the new table fits is not enough.
  // ---------------------------------------------------------------------------------------------

  lemma {:induction false} RowKeysSize(k: Bytes, n: nat)
    requires |k| == SVC_KEY_SIZE && n <= INDEX_LIMIT
    ensures |set i: nat | i < n :: BackendKey(k, i)| == n
  {
    var row := set i: nat | i < n :: BackendKey(k, i);
    if n == 0 {
      assert row == {};
    } else {
      var shorter := set i: nat | i < n - 1 :: BackendKey(k, i);
      assert row == shorter + {BackendKey(k, n - 1)};
      forall i: nat | i < n - 1
        ensures BackendKey(k, i) != BackendKey(k, n - 1)
      {
        BackendKeyDecodes(k, i);
        BackendKeyDecodes(k, n - 1);
      }
      RowKeysSize(k, n - 1);
    }
  }

  /** One service can fill the backend map, and the result is coherent. */
  lemma OneServiceFills(a: Bytes, v: Bytes, full: Table)
    requires |a| == SVC_KEY_SIZE && full == map[a := seq(MAX_BACKENDS, _ => v)]
    ensures Encodable(full) && Coherent(CountMap(full), BackendMap(full))
    ensures |BackendMap(full).Keys| == MAX_BACKENDS
  {
    BackendMapIsCoherent(full);
    BackendMapKeys(full);
    hide BackendKey, Coherent, BackendMap;
    assert BackendKeys(full) == set i: nat | i < MAX_BACKENDS :: BackendKey(a, i);
    RowKeysSize(a, MAX_BACKENDS);
  }

  lemma ForeignSlotIsNew(full: Table, b: Bytes, v: Bytes)
    requires Encodable(full) && |b| == SVC_KEY_SIZE && b !in full
    ensures BackendKey(b, 0) !in BackendMap(full) && BackendKey(b, 0) in BackendMap(map[b := [v]])
  {
    BackendKeyDecodes(b, 0);
    NamedIffCovered(full, BackendKey(b, 0));
    BackendMapAt(map[b := [v]], b, 0);
  }

  /** A coherent pair of maps filled by one service, and a request for one backend of another:
      the request passes both capacity checks, yet its entry cannot be stored, so by the last
      clause of Replace the finished update leaves a service whose index resolves to nothing. */
  lemma NewTableFittingIsNotEnough(a: Bytes, b: Bytes, v: Bytes)
    returns (services: Counts, backends: Entries, want: Table)
    requires |a| == |b| == SVC_KEY_SIZE && a != b
    ensures Encodable(want) && |want| <= MAX_SERVICES && |Slots(want)| <= MAX_BACKENDS
    ensures Coherent(services, backends) && |backends.Keys| == MAX_BACKENDS
    ensures ServicesFit(services, want) && !BackendsFit(backends, BackendMap(want))
  {
    hide BackendKey, Coherent, BackendMap;
    var full: Table := map[a := seq(MAX_BACKENDS, _ => v)];
    services, backends, want := CountMap(full), BackendMap(full), map[b := [v]];
    OneServiceFills(a, v, full);
    ForeignSlotIsNew(full, b, v);
    assert Slots(want) == {(b, 0)};
    assert services.Keys + want.Keys == {a, b};
    SubsetSize(backends.Keys + {BackendKey(b, 0)}, backends.Keys + BackendMap(want).Keys);
  }
}
