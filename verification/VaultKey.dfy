/** From a secret's annotations to what a read needs and the key its value is cached under. */
module VaultKey {

  import opened Wrappers
  import opened Text
  import opened VaultCache

  /** The annotations of a vault secret, as written. */
  datatype Secret = Secret(namespace: string, store: string, path: string, staticRole: string,
                           dynamicRole: string, keys: string)

  datatype ResolveError = NoStoreNamed | SeveralSources | NoSource | StoreUnavailable

  const NUL: char := '\0'

  function Named(source: string): nat {
    if source != "" then 1 else 0
  }

  function Fields(spec: FetchSpec): (r: seq<string>)
    ensures |r| == 8
  {
    [spec.store.namespace, spec.store.name, spec.store.server, spec.store.mount,
     spec.path, spec.staticRole, spec.dynamicRole, spec.keys]
  }

  function CacheKey(spec: FetchSpec): Key {
    Join(Fields(spec), NUL)
  }

  /** The index of the first store the secret's namespace offers under the name. */
  ghost predicate IsFirstStore(sec: Secret, stores: seq<SecretStore>, i: nat) {
    && i < |stores| && stores[i].namespace == sec.namespace && stores[i].name == sec.store
    && forall j :: 0 <= j < i ==> !(stores[j].namespace == sec.namespace && stores[j].name == sec.store)
  }

  function Sources(sec: Secret): nat {
    Named(TrimChar(sec.path, '/')) + Named(TrimSpace(sec.staticRole)) + Named(TrimSpace(sec.dynamicRole))
  }

  /** resolveFetch. */
  method ResolveFetch(sec: Secret, stores: seq<SecretStore>) returns (r: Result<(FetchSpec, Key), ResolveError>)
    ensures r.Success? <==> sec.store != "" && Sources(sec) == 1 && exists i: nat :: IsFirstStore(sec, stores, i)
    ensures r.Success? ==>
              var (spec, ck) := r.value;
              && (exists i: nat :: IsFirstStore(sec, stores, i) && spec.store == stores[i])
              && spec.path == TrimChar(sec.path, '/') && spec.keys == sec.keys
              && spec.staticRole == TrimSpace(sec.staticRole) && spec.dynamicRole == TrimSpace(sec.dynamicRole)
              && ck == CacheKey(spec)
    ensures r == Failure(NoStoreNamed) <==> sec.store == ""
    ensures r == Failure(SeveralSources) <==> sec.store != "" && Sources(sec) > 1
    ensures r == Failure(NoSource) <==> sec.store != "" && Sources(sec) == 0
  {
    var path := TrimChar(sec.path, '/');
    var staticRole := TrimSpace(sec.staticRole);
    var dynamicRole := TrimSpace(sec.dynamicRole);
    var named := 0;
    if path != "" { named := named + 1; }
    if staticRole != "" { named := named + 1; }
    if dynamicRole != "" { named := named + 1; }
    if sec.store == "" {
      return Failure(NoStoreNamed);
    }
    if named > 1 {
      return Failure(SeveralSources);
    }
    if named == 0 {
      return Failure(NoSource);
    }
    for i := 0 to |stores|
      invariant forall j :: 0 <= j < i ==> !(stores[j].namespace == sec.namespace && stores[j].name == sec.store)
    {
      if stores[i].namespace == sec.namespace && stores[i].name == sec.store {
        var spec := FetchSpec(stores[i], path, staticRole, dynamicRole, sec.keys);
        assert IsFirstStore(sec, stores, i);
        return Success((spec, CacheKey(spec)));
      }
    }
    r := Failure(StoreUnavailable);
  }

  /** Two reads that differ at most in how their store is reached. */
  predicate SameButConfig(a: FetchSpec, b: FetchSpec) {
    a == b.(store := b.store.(config := a.store.config))
  }

  /** Two reads without a NUL share a cache key exactly when they agree on everything but the
      store's configuration. */
  lemma ShareKeyIff(a: FetchSpec, b: FetchSpec)
    requires Plain(Fields(a), NUL)
    ensures CacheKey(a) == CacheKey(b) <==> SameButConfig(a, b)
  {
    if CacheKey(a) == CacheKey(b) {
      PlainJoinIsUnique(Fields(a), Fields(b), NUL);
      SameFields(a, b);
    }
  }

  /** Only reads of the same namespace, store, server, mount, path or role and key list share this
      one's cache key. */
  ghost predicate Exclusive(spec: FetchSpec) {
    forall other :: CacheKey(other) == CacheKey(spec) ==> SameButConfig(other, spec)
  }

  /** That is so exactly when none of the eight parts holds a NUL. */
  lemma KeyIsPerReadIff(spec: FetchSpec)
    ensures Exclusive(spec) <==> Plain(Fields(spec), NUL)
  {
    if Plain(Fields(spec), NUL) {
      forall other | CacheKey(other) == CacheKey(spec)
        ensures SameButConfig(other, spec)
      {
        ShareKeyIff(spec, other);
      }
    } else {
      var p :| p in Fields(spec) && NUL in p;
      var i :| 0 <= i < 8 && Fields(spec)[i] == p;
      var fields := Shifted(Fields(spec), i);
      var other := FromFields(fields, spec.store.config);
      assert CacheKey(other) == CacheKey(spec);
    }
  }

  /** The configuration is never part of the key: a store edited in place keeps the key of every
      value read through it, whatever the edit. */
  lemma EditedStoreSharesKey(spec: FetchSpec, config: StoreConfig)
    ensures CacheKey(spec.(store := spec.store.(config := config))) == CacheKey(spec)
  {
  }

  lemma SameFields(a: FetchSpec, b: FetchSpec)
    requires Fields(a) == Fields(b)
    ensures SameButConfig(a, b)
  {
    var fa, fb := Fields(a), Fields(b);
    assert fa[0] == fb[0] && fa[1] == fb[1] && fa[2] == fb[2] && fa[3] == fb[3];
    assert fa[4] == fb[4] && fa[5] == fb[5] && fa[6] == fb[6] && fa[7] == fb[7];
  }

  function FromFields(f: seq<string>, config: StoreConfig): (spec: FetchSpec)
    requires |f| == 8
    ensures Fields(spec) == f
  {
    FetchSpec(SecretStore(f[0], f[1], f[2], f[3], config), f[4], f[5], f[6], f[7])
  }

  /** A NUL inside a field lets the boundary to its neighbour move. */
  lemma Shifted(f: seq<string>, i: nat) returns (g: seq<string>)
    requires |f| == 8 && i < 8 && NUL in f[i]
    ensures |g| == 8 && g != f && Join(g, NUL) == Join(f, NUL)
  {
    var k :| 0 <= k < |f[i]| && f[i][k] == NUL;
    var before, after := f[i][..k], f[i][k + 1..];
    assert f[i] == before + [NUL] + after;
    if i < 7 {
      var y := after + [NUL] + f[i + 1];
      assert f[i] + [NUL] + f[i + 1] == before + [NUL] + y;
      JoinNeighbours(f, i, before, y, NUL);
      g := f[i := before][i + 1 := y];
      assert |g[i]| < |f[i]|;
    } else {
      var x := f[6] + [NUL] + before;
      assert f[6] + [NUL] + f[7] == x + [NUL] + after;
      JoinNeighbours(f, 6, x, after, NUL);
      g := f[6 := x][7 := after];
      assert |g[7]| < |f[7]|;
    }
  }
}
