/** The node's image store: per-tenant bindings over a shared, digest-named index.

    Every file, index or blob operation is one step and the process may die before any of them; a
    lock keeps the operations from interleaving. */
module ImageStore {

  import opened Wrappers
  import opened Text

  type Digest = nat
  type Blob = nat

  const NUL: char := '\0'

  /** A file of the binding directory. SHA-256 is taken as injective: a binding's file name stands
      for the bytes that were hashed. */
  datatype FileName = Hashed(preimage: string) | Temp(n: nat)

  datatype ImageRef = ImageRef(namespace: string, source: string, digest: Digest)

  /** What reading a file gives: a binding with a well-formed digest, or an error. */
  datatype Content = Readable(ref: ImageRef) | Corrupt

  datatype EntryName = Unnamed | ByDigest(digest: Digest) | Tag(tag: string)
  datatype IndexEntry = IndexEntry(name: EntryName, digest: Digest)

  function StoreKey(namespace: string, source: string): FileName {
    Hashed(namespace + [NUL] + source)
  }

  lemma JoinOfTwo(a: string, b: string)
    ensures Join([a, b], NUL) == a + [NUL] + b
  {
  }

  lemma ShiftedSeparator(a: string, b: string, c: string)
    ensures StoreKey(a + [NUL] + b, c) == StoreKey(a, b + [NUL] + c)
  {
  }

  ghost predicate Exclusive(ns: string, src: string) {
    forall ns', src' :: StoreKey(ns', src') == StoreKey(ns, src) ==> ns' == ns && src' == src
  }

  /** A file belongs to one (namespace, source) pair exactly when neither part holds a NUL. */
  lemma KeyIsPerPairIff(ns: string, src: string)
    ensures Exclusive(ns, src) <==> NUL !in ns && NUL !in src
  {
    if NUL in ns {
      var i :| 0 <= i < |ns| && ns[i] == NUL;
      var a, b := ns[..i], ns[i + 1..];
      assert ns == a + [NUL] + b;
      ShiftedSeparator(a, b, src);
      assert |a| != |ns|;
    } else if NUL in src {
      var i :| 0 <= i < |src| && src[i] == NUL;
      var b, c := src[..i], src[i + 1..];
      assert src == b + [NUL] + c;
      ShiftedSeparator(ns, b, c);
      assert |c| != |src|;
    } else {
      forall ns', src' | StoreKey(ns', src') == StoreKey(ns, src)
        ensures ns' == ns && src' == src
      {
        JoinOfTwo(ns, src);
        JoinOfTwo(ns', src');
        PlainJoinIsUnique([ns, src], [ns', src'], NUL);
        assert [ns, src][0] == [ns', src'][0] && [ns, src][1] == [ns', src'][1];
      }
    }
  }

  type Refs = map<FileName, Content>
  type Index = set<IndexEntry>

  /** The file holds the binding its own name stands for. */
  predicate Filed(f: FileName, ref: ImageRef) {
    f == StoreKey(ref.namespace, ref.source)
  }

  ghost predicate AllReadable(refs: Refs) {
    forall f :: f in refs ==> refs[f].Readable?
  }

  /** The digests the bindings refer to. */
  function Referenced(refs: Refs): set<Digest> {
    set f | f in refs && refs[f].Readable? :: refs[f].ref.digest
  }

  /** The entry the name stands for is in use by a binding. */
  predicate InUse(name: EntryName, referenced: set<Digest>) {
    name.ByDigest? && name.digest in referenced
  }

  /** An entry the sweep does not try to drop. */
  predicate StaysNamed(e: IndexEntry, referenced: set<Digest>) {
    e.name.Unnamed? || InUse(e.name, referenced)
  }

  predicate Listed(index: Index, d: Digest) {
    IndexEntry(ByDigest(d), d) in index
  }

  /** What the pair filed under `key` resolves to: its binding's digest, if the index has it. */
  function Resolve(refs: Refs, index: Index, key: FileName): Option<Digest> {
    if key in refs && refs[key].Readable? && Listed(index, refs[key].ref.digest)
    then Some(refs[key].ref.digest)
    else None
  }

  /** No readable binding dangles, and a digest-named entry holds that digest. */
  ghost predicate Bound(refs: Refs, index: Index) {
    && (forall f :: f in refs && refs[f].Readable? ==> Listed(index, refs[f].ref.digest))
    && (forall e :: e in index && e.name.ByDigest? ==> e.name.digest == e.digest)
  }

  /** Every file is as it was, apart from new temporary ones. */
  ghost predicate OnlyTempsAdded(before: Refs, after: Refs) {
    && (forall f :: f in before ==> f in after && after[f] == before[f])
    && (forall f :: f in after && f !in before ==> f.Temp?)
  }

  /** One new temporary file, with this content. */
  ghost predicate TempLeft(before: Refs, after: Refs, content: Content) {
    exists n: nat :: Temp(n) !in before && after == before[Temp(n) := content]
  }

  /** A binding that `pull` wrote halfway stays where it is: nothing rewrites a temporary file. */
  ghost predicate Stuck(refs: Refs) {
    exists n: nat :: Temp(n) in refs && refs[Temp(n)].Corrupt?
  }

  function Without(index: Index, name: EntryName): Index {
    set e | e in index && e.name != name
  }

  ghost predicate UniqueNames(index: Index) {
    forall d, e :: d in index && e in index && d.name == e.name ==> d == e
  }

  /** The bindings an error-free purge leaves. */
  function Purged(refs: Refs, keep: set<string>): Refs {
    map f | f in refs && refs[f].Readable? && refs[f].ref.source in keep && Filed(f, refs[f].ref) :: refs[f]
  }

  /** The index entries a purge leaves: unnamed ones, those in use and those it cannot drop. */
  function Swept(index: Index, referenced: set<Digest>, refused: set<EntryName>): Index {
    set e | e in index && (StaysNamed(e, referenced) || e.name in refused)
  }

  /** `key`'s entry, which no remaining binding refers to, is gone and nothing else is. */
  ghost predicate EntryDropped(before: Refs, after: Refs, index: Index, index': Index, key: FileName) {
    && key in before && before[key].Readable?
    && before[key].ref.digest !in Referenced(after)
    && index' == Without(index, ByDigest(before[key].ref.digest))
  }

  /** Which operations the file system refuses during a call: removing a binding's file; writing,
      closing, removing and renaming the temporary file; writing the index without an entry; removing
      a blob; and reading the manifest or the config of an image. */
  datatype Faults = Faults(files: set<FileName>, tempWrite: bool, tempClose: bool, tempRemove: bool, rename: bool,
                           indexWrite: set<EntryName>, blobs: set<Blob>, images: set<Digest>)

  const NO_FAULTS := Faults({}, false, false, false, false, {}, {}, {})

  /** Some entry that nothing uses cannot be dropped. */
  ghost predicate HeldBack(index: Index, referenced: set<Digest>, refused: set<EntryName>) {
    exists e :: e in index && !StaysNamed(e, referenced) && e.name in refused
  }

  /** Some image of the index cannot be read. */
  predicate Unread(index: Index, faults: Faults) {
    exists e :: e in index && e.digest in faults.images
  }

  datatype Outcome = Done | Failed | Died

  datatype Call =
    | Pull(namespace: string, source: string, answer: Option<Digest>)
    | Remove(namespace: string, source: string)
    | Purge(keep: set<string>, indexExists: bool)

  /** One call, the faults it meets and how many steps the process survives. */
  datatype Op = Op(call: Call, faults: Faults, lifetime: nat)

  /** The call is not about `key`'s binding. */
  predicate Spares(op: Op, key: FileName, content: Content) {
    match op.call
    case Pull(namespace, source, _) => StoreKey(namespace, source) != key
    case Remove(namespace, source) => StoreKey(namespace, source) != key
    case Purge(keep, _) => content.Readable? && content.ref.source in keep && Filed(key, content.ref)
  }

  ghost predicate Spared(refs: Refs, ops: seq<Op>, key: FileName) {
    && key in refs && refs[key].Readable?
    && forall i :: 0 <= i < |ops| ==> Spares(ops[i], key, refs[key])
  }

  class Store {
    var refs: Refs
    var index: Index
    var blobs: set<Blob>
    var lifetime: nat

    /** The blobs an image needs: its manifest, its config and its layers. */
    const needs: Digest -> set<Blob>

    ghost predicate Complete()
      reads this`index, this`blobs
    {
      forall e :: e in index ==> needs(e.digest) <= blobs
    }

    /** What every step of every operation keeps. */
    ghost predicate Sound()
      reads this`refs, this`index, this`blobs
    {
      Bound(refs, index) && Complete()
    }

    constructor (needs: Digest -> set<Blob>)
      ensures Sound() && refs == map[] && index == {} && blobs == {} && this.needs == needs
    {
      refs, index, blobs, lifetime := map[], {}, {}, 0;
      this.needs := needs;
    }

    method Step() returns (alive: bool)
      modifies this`lifetime
      ensures alive == (old(lifetime) > 0)
      ensures lifetime == if alive then old(lifetime) - 1 else 0
    {
      alive := lifetime > 0;
      if alive {
        lifetime := lifetime - 1;
      }
    }

    /** Every blob first, the index entry last. */
    method Fetch(d: Digest) returns (alive: bool)
      requires Sound()
      modifies this`index, this`blobs, this`lifetime
      ensures Sound()
      ensures index == old(index) || index == old(index) + {IndexEntry(ByDigest(d), d)}
      ensures alive <==> old(lifetime) > |needs(d)|
      ensures if alive then Listed(index, d) && lifetime == old(lifetime) - |needs(d)| - 1 else lifetime == 0
      ensures old(blobs) <= blobs <= old(blobs) + needs(d)
    {
      hide Bound;
      var todo := needs(d);
      while todo != {}
        invariant index == old(index) && lifetime + |needs(d)| == old(lifetime) + |todo|
        invariant Sound() && todo <= needs(d) <= blobs + todo && old(blobs) <= blobs <= old(blobs) + needs(d)
      {
        var b :| b in todo;
        alive := Step();
        if !alive {
          return;
        }
        blobs := blobs + {b};
        todo := todo - {b};
      }
      alive := Step();
      if alive {
        EntryKeepsBound(refs, index, d);
        index := index + {IndexEntry(ByDigest(d), d)};
      }
    }

    /** A temporary file, its content, then a rename onto the binding's name. A temporary file that
        was not written or closed is removed, unless that is refused too. */
    method WriteRef(namespace: string, source: string, d: Digest, faults: Faults) returns (r: Outcome)
      requires Sound() && Listed(index, d)
      modifies this`refs, this`lifetime
      ensures Sound()
      ensures !r.Done? ==> OnlyTempsAdded(old(refs), refs)
      ensures (r.Died? <==> old(lifetime) < 3) && (r.Died? ==> lifetime == 0)
      ensures var whole := Readable(ImageRef(namespace, source, d));
              var left := if faults.tempWrite then Corrupt else whole;
              if old(lifetime) == 0 then refs == old(refs)
              else if old(lifetime) == 1 then TempLeft(old(refs), refs, Corrupt)
              else if old(lifetime) == 2 then TempLeft(old(refs), refs, left)
              else if faults.tempWrite || faults.tempClose then
                r.Failed? && if faults.tempRemove then TempLeft(old(refs), refs, left) else refs == old(refs)
              else if faults.rename then r.Failed? && TempLeft(old(refs), refs, whole)
              else r.Done? && refs == old(refs)[StoreKey(namespace, source) := whole]
    {
      hide StoreKey, TempLeft, OnlyTempsAdded;
      var n := FreshTemp();
      var tmp, whole := Temp(n), Readable(ImageRef(namespace, source, d));
      TempAdded(refs, n, Corrupt);
      TempAdded(refs, n, whole);
      var alive := Step();
      if !alive {
        return Died;
      }
      refs := refs[tmp := Corrupt];
      alive := Step();
      if !alive {
        return Died;
      }
      if !faults.tempWrite {
        refs := refs[tmp := whole];
      }
      assert refs == old(refs)[tmp := if faults.tempWrite then Corrupt else whole];
      alive := Step();
      if !alive {
        return Died;
      }
      if faults.tempWrite || faults.tempClose {
        if !faults.tempRemove {
          refs := refs - {tmp};
          assert refs == old(refs);
        }
        return Failed;
      }
      if faults.rename {
        return Failed;
      }
      var key := StoreKey(namespace, source);
      KeyIsHashed(namespace, source);
      refs := (refs - {tmp})[key := whole];
      assert refs == old(refs)[key := whole];
      r := Done;
    }

    /** Only this pair's binding and the pulled image's entry change, whatever the outcome. */
    method Pull(namespace: string, source: string, answer: Option<Digest>, faults: Faults) returns (r: Outcome)
      requires Sound()
      modifies this
      ensures Sound()
      ensures r.Done? ==> answer.Some? && Resolve(refs, index, StoreKey(namespace, source)) == answer
      ensures forall key: FileName :: key.Hashed? && (key != StoreKey(namespace, source) || !r.Done?) ==>
                Resolve(refs, index, key) == Resolve(old(refs), old(index), key)
      ensures forall key: FileName :: key.Hashed? && (key != StoreKey(namespace, source) || !r.Done?) ==>
                key in old(refs) ==> key in refs && refs[key] == old(refs)[key]
      ensures old(index) <= index && old(blobs) <= blobs
      ensures r.Failed? ==>
                || answer.None? || answer.value in faults.images
                || faults.tempWrite || faults.tempClose || faults.rename
      ensures (r.Died? ==> lifetime == 0) && (Stuck(old(refs)) ==> Stuck(refs))
      ensures answer.Some? && old(lifetime) > |needs(answer.value)| ==> Listed(index, answer.value)
      ensures answer.Some? && answer.value !in faults.images && old(lifetime) == |needs(answer.value)| + 2 ==>
                r.Died? && Stuck(refs)
      ensures answer.Some? && answer.value !in faults.images && old(lifetime) > |needs(answer.value)| + 3 ==>
                faults.tempWrite && faults.tempRemove ==> r.Failed? && Stuck(refs)
    {
      hide StoreKey, Complete, Bound, TempLeft;
      if answer.None? {
        return Failed;
      }
      var alive := Fetch(answer.value);
      if !alive {
        ResolveGrows(refs, old(index), index);
        return Died;
      }
      if answer.value in faults.images {
        ResolveGrows(refs, old(index), index);
        return Failed;
      }
      r := WriteRef(namespace, source, answer.value, faults);
      TornTempSticks(old(refs), refs);
      KeyIsHashed(namespace, source);
      TempsStay(old(refs), refs);
      ResolveGrows(old(refs), old(index), index);
    }

    /** Every file is read; one unreadable file fails the whole listing. */
    method ListRefs() returns (found: Option<map<FileName, ImageRef>>)
      ensures found.Some? <==> AllReadable(refs)
      ensures found.Some? ==> found.value.Keys == refs.Keys
      ensures found.Some? ==> forall f :: f in refs ==> refs[f] == Readable(found.value[f])
    {
      var todo := refs.Keys;
      var list: map<FileName, ImageRef> := map[];
      while todo != {}
        invariant todo <= refs.Keys && list.Keys == refs.Keys - todo
        invariant forall f :: f in list ==> refs[f] == Readable(list[f])
      {
        var f :| f in todo;
        if refs[f].Corrupt? {
          return None;
        }
        list := list[f := refs[f].ref];
        todo := todo - {f};
      }
      found := Some(list);
    }

    /** Blobs that no entry of the index reaches go, one at a time, until one cannot be removed; none
        goes when some image cannot be read. */
    method Reclaim(faults: Faults) returns (r: Outcome)
      requires Sound()
      modifies this`blobs, this`lifetime
      ensures Sound()
      ensures blobs <= old(blobs)
      ensures r.Done? ==> blobs == old(blobs) * Reachable(index)
      ensures Unread(index, faults) ==> r.Failed? && blobs == old(blobs)
      ensures r.Failed? ==> Unread(index, faults) || exists b :: b in faults.blobs && b in blobs - Reachable(index)
      ensures r.Died? ==> lifetime == 0
    {
      hide Bound;
      if Unread(index, faults) {
        return Failed;
      }
      var garbage := blobs - Reachable(index);
      ghost var all := garbage;
      while garbage != {}
        invariant garbage <= all && blobs == old(blobs) - (all - garbage) && Complete()
      {
        var b :| b in garbage;
        if b in faults.blobs {
          return Failed;
        }
        var alive := Step();
        if !alive {
          return Died;
        }
        blobs := blobs - {b};
        garbage := garbage - {b};
      }
      r := Done;
    }

    function Reachable(index: Index): set<Blob> {
      set e, b | e in index && b in needs(e.digest) :: b
    }

    /** os.ErrNotExist when no entry has the name. */
    method DropEntry(name: EntryName, faults: Faults) returns (r: Outcome, missing: bool)
      requires Sound() && !InUse(name, Referenced(refs))
      modifies this`index, this`lifetime
      ensures Sound()
      ensures missing == (Without(old(index), name) == old(index))
      ensures index == if r.Done? then Without(old(index), name) else old(index)
      ensures r.Done? ==> name !in faults.indexWrite
      ensures (r.Failed? ==> missing || name in faults.indexWrite) && (r.Died? ==> lifetime == 0)
    {
      hide Bound, Referenced;
      missing := Without(index, name) == index;
      if missing || name in faults.indexWrite {
        return Failed, missing;
      }
      var alive := Step();
      if !alive {
        return Died, missing;
      }
      DropKeepsBound(refs, index, name);
      index := Without(index, name);
      r := Done;
    }

    /** The binding goes; the entry follows only when every file is readable and none refers to it. */
    method Remove(namespace: string, source: string, faults: Faults) returns (r: Outcome)
      requires Sound()
      modifies this
      ensures Sound()
      ensures refs == old(refs) || refs == old(refs) - {StoreKey(namespace, source)}
      ensures || index == old(index)
              || (&& AllReadable(refs)
                  && EntryDropped(old(refs), refs, old(index), index, StoreKey(namespace, source)))
      ensures r.Done? ==> StoreKey(namespace, source) in old(refs) && old(refs)[StoreKey(namespace, source)].Readable?
      ensures r.Done? ==> StoreKey(namespace, source) !in refs && AllReadable(refs)
      ensures r.Done? && old(refs)[StoreKey(namespace, source)].ref.digest !in Referenced(refs) ==>
                && EntryDropped(old(refs), refs, old(index), index, StoreKey(namespace, source))
                && blobs == old(blobs) * Reachable(index)
      ensures Stuck(old(refs)) ==> Stuck(refs) && index == old(index) && blobs == old(blobs)
      ensures r.Failed? ==>
                || StoreKey(namespace, source) !in old(refs) || old(refs)[StoreKey(namespace, source)].Corrupt?
                || !AllReadable(old(refs)) || faults != NO_FAULTS
      ensures r.Died? ==> lifetime == 0
      ensures forall key: FileName :: key != StoreKey(namespace, source) ==>
                Resolve(refs, index, key) == Resolve(old(refs), old(index), key)
    {
      hide StoreKey, Bound, Referenced;
      var key := StoreKey(namespace, source);
      if key !in refs || refs[key].Corrupt? || key in faults.files {
        return Failed;
      }
      var alive := Step();
      if !alive {
        return Died;
      }
      var d := refs[key].ref.digest;
      FewerKeepBound(refs, refs - {key}, index);
      KeyIsHashed(namespace, source);
      TempsStay(refs, refs - {key});
      refs := refs - {key};
      var list := ListRefs();
      if list.None? {
        return Failed;
      }
      if exists f :: f in list.value && list.value[f].digest == d {
        ReferencedByList(refs, list.value);
        return Done;
      }
      ReferencedByList(refs, list.value);
      DropUnreferenced(refs, index, d);
      var missing;
      r, missing := DropEntry(ByDigest(d), faults);
      if r.Died? || (r.Failed? && !missing) {
        return;
      }
      r := Reclaim(faults);
    }

    /** Every binding that is not a correctly filed one with a kept source goes, unless it cannot. */
    method DropBindings(keep: set<string>, list: map<FileName, ImageRef>, faults: Faults) returns (r: Outcome)
      requires Sound() && list.Keys == refs.Keys && forall f :: f in refs ==> refs[f] == Readable(list[f])
      modifies this`refs, this`lifetime
      ensures Sound() && AllReadable(refs)
      ensures forall f :: f in refs ==> f in old(refs) && refs[f] == old(refs)[f]
      ensures forall f :: f in Purged(old(refs), keep) ==> f in refs
      ensures r.Done? ==> refs == Purged(old(refs), keep)
      ensures !r.Died? ==>
                forall f :: f in refs <==> f in Purged(old(refs), keep) || (f in old(refs) && f in faults.files)
      ensures (r.Failed? ==> faults.files != {}) && (r.Died? ==> lifetime == 0)
    {
      hide StoreKey, Complete, Bound;
      var todo := list.Keys;
      r := Done;
      while todo != {}
        invariant !r.Died? && todo <= list.Keys && Complete() && Bound(refs, index)
        invariant forall f :: f in refs ==> f in old(refs) && refs[f] == old(refs)[f]
        invariant forall f :: f in old(refs) && (f in todo || f in Purged(old(refs), keep)) ==> f in refs
        invariant forall f :: f in old(refs) && f in faults.files ==> f in refs
        invariant forall f :: f in refs && f !in todo ==>
                                f in Purged(old(refs), keep) || (r.Failed? && f in faults.files)
        invariant r.Failed? ==> faults.files != {}
      {
        var f :| f in todo;
        todo := todo - {f};
        if !(list[f].source in keep && Filed(f, list[f])) {
          if f in faults.files {
            r := Failed;
          } else {
            var alive := Step();
            if !alive {
              return Died;
            }
            FewerKeepBound(refs, refs - {f}, index);
            refs := refs - {f};
          }
        }
      }
    }

    /** Every named entry no binding refers to goes, unless it cannot; none goes when some image
        cannot be read. */
    method SweepIndex(faults: Faults) returns (r: Outcome)
      requires Sound()
      modifies this`index, this`lifetime
      ensures Sound()
      ensures Swept(old(index), Referenced(refs), faults.indexWrite) <= index <= old(index)
      ensures Unread(old(index), faults) ==> r.Failed? && index == old(index)
      ensures !r.Died? && !Unread(old(index), faults) ==>
                index == Swept(old(index), Referenced(refs), faults.indexWrite)
      ensures r.Done? ==> index == Swept(old(index), Referenced(refs), {})
      ensures r.Failed? ==>
                || Unread(old(index), faults) || !UniqueNames(old(index))
                || HeldBack(index, Referenced(refs), faults.indexWrite)
      ensures r.Died? ==> lifetime == 0
    {
      hide Complete, Bound, Referenced;
      if Unread(index, faults) {
        return Failed;
      }
      var kept := Referenced(refs);
      var todo := index;
      r := Done;
      while todo != {}
        invariant !r.Died? && Sound()
        invariant todo <= old(index) && Swept(old(index), kept, faults.indexWrite) <= index <= old(index)
        invariant index <= Swept(old(index), kept, faults.indexWrite) + todo
        invariant r.Done? ==> index <= Swept(old(index), kept, {}) + todo
        invariant UniqueNames(old(index)) ==> todo <= index
        invariant r.Failed? ==> !UniqueNames(old(index)) || HeldBack(index, kept, faults.indexWrite)
      {
        var e :| e in todo;
        todo := todo - {e};
        if !StaysNamed(e, kept) {
          var d, _ := DropEntry(e.name, faults);
          if d.Died? {
            return Died;
          }
          if d.Failed? {
            r := Failed;
          }
        }
      }
    }

    /** Exactly the correctly filed bindings of kept sources and the entries they refer to, when
        nothing failed; and no more than the rest is ever removed. */
    method Purge(keep: set<string>, indexExists: bool, faults: Faults) returns (r: Outcome)
      requires Sound()
      modifies this
      ensures Sound()
      ensures !AllReadable(old(refs)) ==> refs == old(refs) && index == old(index) && blobs == old(blobs) && r.Failed?
      ensures r.Done? ==>
                && refs == Purged(old(refs), keep)
                && index == Swept(old(index), Referenced(refs), {})
                && blobs == if index == old(index) then old(blobs) else old(blobs) * Reachable(index)
      ensures forall f :: f in refs ==> f in old(refs) && refs[f] == old(refs)[f]
      ensures forall f :: f in Purged(old(refs), keep) ==> f in refs
      ensures Swept(old(index), Referenced(refs), faults.indexWrite) <= index <= old(index)
      ensures !r.Died? && indexExists && AllReadable(old(refs)) ==>
                && (forall f :: f in refs <==> f in Purged(old(refs), keep) || (f in old(refs) && f in faults.files))
                && index == if Unread(old(index), faults) then old(index)
                            else Swept(old(index), Referenced(refs), faults.indexWrite)
      ensures forall f :: f in refs ==> Resolve(refs, index, f) == Resolve(old(refs), old(index), f)
      ensures r.Failed? ==> !indexExists || !AllReadable(old(refs)) || !UniqueNames(old(index)) || faults != NO_FAULTS
      ensures r.Died? ==> lifetime == 0
    {
      hide StoreKey, Complete, Bound, Referenced;
      if !indexExists {
        return Failed;
      }
      var list := ListRefs();
      if list.None? {
        return Failed;
      }
      r := DropBindings(keep, list.value, faults);
      SurvivorsResolve(old(refs), refs, old(index), index);
      if r.Died? {
        return;
      }
      var before := index;
      var swept := SweepIndex(faults);
      SurvivorsResolve(old(refs), refs, old(index), index);
      if swept.Died? {
        return Died;
      }
      if swept.Failed? {
        r := Failed;
      }
      if index != before {
        var reclaimed := Reclaim(faults);
        r := if reclaimed.Done? then r else reclaimed;
      }
    }

    /** Any sequence of operations, each cut short anywhere, keeps the store sound. A binding that
        no operation is about survives and still resolves; and once a half-written temporary file is
        left behind, no index entry and no blob is ever reclaimed again. */
    method AnyHistory(ops: seq<Op>, ghost key: FileName)
      requires Sound() && key.Hashed?
      modifies this
      ensures Sound()
      ensures Spared(old(refs), ops, key) ==> key in refs && refs[key] == old(refs)[key]
      ensures Spared(old(refs), ops, key) ==> Resolve(refs, index, key) == Some(old(refs)[key].ref.digest)
      ensures Stuck(old(refs)) ==> Stuck(refs) && old(index) <= index && old(blobs) <= blobs
    {
      hide StoreKey, Complete, Bound, AllReadable;
      for i := 0 to |ops|
        invariant Sound()
        invariant Spared(old(refs), ops, key) ==> key in refs && refs[key] == old(refs)[key]
        invariant Stuck(old(refs)) ==> Stuck(refs) && old(index) <= index && old(blobs) <= blobs
      {
        Once(ops[i], key);
      }
      BoundResolves(refs, index, key);
    }

    /** One such death, or one write refused together with the removal after it, is enough: whatever
        is called afterwards, nothing is reclaimed any more. */
    method TornPullStopsReclaiming(namespace: string, source: string, d: Digest, faults: Faults, dies: bool, more: nat,
                                   ops: seq<Op>)
      returns (ghost kept: Index, ghost stored: set<Blob>)
      requires Sound()
      modifies this
      ensures Sound() && Stuck(refs) && kept <= index && stored <= blobs
      ensures old(index) <= kept && Listed(kept, d) && needs(d) <= stored
    {
      hide Bound, StoreKey;
      lifetime := |needs(d)| + if dies then 2 else 4 + more;
      var torn := faults.(images := faults.images - {d});
      if !dies {
        torn := torn.(tempWrite := true, tempRemove := true);
      }
      var r := Pull(namespace, source, Some(d), torn);
      kept, stored := index, blobs;
      assert Complete() && IndexEntry(ByDigest(d), d) in index;
      KeyIsHashed(namespace, source);
      AnyHistory(ops, StoreKey(namespace, source));
    }

    method Once(op: Op, ghost key: FileName)
      requires Sound() && key.Hashed?
      modifies this
      ensures Sound()
      ensures key in old(refs) && Spares(op, key, old(refs)[key]) ==> key in refs && refs[key] == old(refs)[key]
      ensures Stuck(old(refs)) ==> Stuck(refs) && old(index) <= index && old(blobs) <= blobs
    {
      hide StoreKey, Complete, Bound, Filed;
      lifetime := op.lifetime;
      match op.call
      case Pull(namespace, source, answer) =>
        var _ := Pull(namespace, source, answer, op.faults);
      case Remove(namespace, source) =>
        var _ := Remove(namespace, source, op.faults);
      case Purge(keep, indexExists) =>
        var _ := Purge(keep, indexExists, op.faults);
    }

    /** os.CreateTemp picks a name that is not there. */
    method FreshTemp() returns (n: nat)
      ensures Temp(n) !in refs
    {
      var used := refs.Keys;
      n := 0;
      while Temp(n) in used
        invariant used <= refs.Keys
        invariant forall m: nat :: n <= m && Temp(m) in refs ==> Temp(m) in used
        decreases |used|
      {
        used := used - {Temp(n)};
        n := n + 1;
      }
    }
  }

  /** An index that only grows resolves every bound pair as before. */
  lemma ResolveGrows(refs: Refs, index: Index, index': Index)
    requires Bound(refs, index) && index <= index'
    ensures forall key: FileName :: Resolve(refs, index', key) == Resolve(refs, index, key)
  {
  }

  lemma TempsStay(before: Refs, after: Refs)
    requires forall n: nat :: Temp(n) in before ==> Temp(n) in after && after[Temp(n)] == before[Temp(n)]
    ensures Stuck(before) ==> Stuck(after)
  {
  }

  lemma FewerKeepBound(refs: Refs, fewer: Refs, index: Index)
    requires Bound(refs, index)
    requires forall f :: f in fewer ==> f in refs && fewer[f] == refs[f]
    ensures Bound(fewer, index)
  {
  }

  lemma DropKeepsBound(refs: Refs, index: Index, name: EntryName)
    requires Bound(refs, index) && !InUse(name, Referenced(refs))
    ensures Bound(refs, Without(index, name))
  {
  }

  lemma ReferencedByList(refs: Refs, list: map<FileName, ImageRef>)
    requires list.Keys == refs.Keys && forall f :: f in refs ==> refs[f] == Readable(list[f])
    ensures forall d :: d in Referenced(refs) <==> exists f :: f in list && list[f].digest == d
  {
  }

  /** Dropping an entry no binding refers to leaves every pair's resolution alone. */
  lemma DropUnreferenced(refs: Refs, index: Index, d: Digest)
    requires d !in Referenced(refs)
    ensures forall key: FileName :: Resolve(refs, Without(index, ByDigest(d)), key) == Resolve(refs, index, key)
  {
  }

  lemma SurvivorsResolve(before: Refs, after: Refs, index: Index, index': Index)
    requires Bound(before, index) && Bound(after, index')
    requires forall f :: f in after ==> f in before && after[f] == before[f]
    ensures forall f :: f in after ==> Resolve(after, index', f) == Resolve(before, index, f)
  {
  }

  lemma BoundResolves(refs: Refs, index: Index, key: FileName)
    requires Bound(refs, index)
    ensures key in refs && refs[key].Readable? ==> Resolve(refs, index, key) == Some(refs[key].ref.digest)
  {
  }

  lemma TempAdded(refs: Refs, n: nat, content: Content)
    requires Temp(n) !in refs
    ensures TempLeft(refs, refs[Temp(n) := content], content)
    ensures OnlyTempsAdded(refs, refs) && OnlyTempsAdded(refs, refs[Temp(n) := content])
  {
  }

  lemma TornTempSticks(before: Refs, after: Refs)
    ensures TempLeft(before, after, Corrupt) ==> Stuck(after)
  {
  }

  lemma KeyIsHashed(namespace: string, source: string)
    ensures StoreKey(namespace, source).Hashed?
  {
  }

  lemma EntryKeepsBound(refs: Refs, index: Index, d: Digest)
    requires Bound(refs, index)
    ensures Bound(refs, index + {IndexEntry(ByDigest(d), d)})
  {
  }
}
