/** The directory a workload has its secret mounted from, rewritten in place while the workload
    reads it. Every file-system call is one step and the process may die before any of them. */
module SecretDir {

  import opened Wrappers
  import opened Text

  type Bytes = seq<bv8>

  /** A file with its bytes, and whether its mode and its owner are settled; or a subdirectory. */
  datatype Entry = File(data: Bytes, mode: bool, owner: bool) | Subdir(empty: bool)

  type Entries = map<string, Entry>
  type Content = map<string, Bytes>

  /** The names os.CreateTemp tries for each key, in turn. */
  type Random = string -> seq<string>

  const TEMP: string := ".tmp-"

  predicate PlainName(name: string) {
    '/' !in name && name != "" && name != "." && name != ".."
  }

  function Settled(data: Bytes): Entry {
    File(data, true, true)
  }

  /** A name os.CreateTemp could choose: the prefix and a 32-bit number in decimal. */
  ghost predicate TempLike(name: string) {
    exists n: nat :: n < 0x1_0000_0000 && name == TEMP + Decimal(n)
  }

  predicate Unremovable(e: Entry) {
    e.Subdir? && !e.empty
  }

  /** The name is untouched, or holds its whole new bytes with mode and owner settled. */
  ghost predicate OldOrNew(before: Entries, now: Entries, name: string, data: Bytes) {
    || (name in now && now[name] == Settled(data))
    || (name in before && name in now && now[name] == before[name])
  }

  /** What a reader of the directory can meet at any step. */
  ghost predicate Intermediate(before: Entries, now: Entries, content: Content) {
    // A key of the old and the new content is never absent and never partial.
    && (forall k :: k in content && k in before ==> OldOrNew(before, now, k, content[k]))
    // A new key is absent or whole, unless its name is one a temporary file can have.
    && (forall k :: k in content && k !in before && k in now && !TempLike(k) ==> now[k] == Settled(content[k]))
    // Nothing else is written, apart from temporary files.
    && (forall k :: k in now && k !in content ==> TempLike(k) || (k in before && now[k] == before[k]))
  }

  /** What replacing one file can leave behind. */
  ghost predicate Between(before: Entries, now: Entries, path: string, data: Bytes) {
    && (forall k :: k in before && k != path ==> k in now && now[k] == before[k])
    && (forall k :: k in now && k !in before && k != path ==> TempLike(k))
    && (path in before ==> OldOrNew(before, now, path, data))
    && (path !in before && path in now && !TempLike(path) ==> now[path] == Settled(data))
  }

  datatype Outcome = Done | Failed | Died

  /** The call that is refused while a file is replaced, if any. */
  datatype Stage = Never | AtWrite | AtMode | AtOwner | AtRename

  /** What the file system refuses: to make the directory writable, a call of each key's
      replacement, the removal of some names, and to list the directory. */
  datatype Refusals = Refusals(open: bool, write: string -> Stage, stuck: set<string>, list: bool)

  class Directory {
    var entries: Entries
    var lifetime: nat

    method Step() returns (alive: bool)
      modifies this`lifetime
      ensures alive == (old(lifetime) > 0)
      ensures lifetime == if alive then old(lifetime) - 1 else 0
    {
      alive := lifetime > 0;
      if alive {
        lifetime := lifetime - 1;
      }
    }

    /** os.CreateTemp: the first candidate that is not there. */
    method CreateTemp(candidates: seq<string>) returns (tmp: Option<string>)
      requires forall c :: c in candidates ==> TempLike(c)
      ensures tmp == FirstFresh(candidates, entries.Keys)
      ensures tmp.Some? ==> TempLike(tmp.value) && tmp.value !in entries
    {
      for i := 0 to |candidates|
        invariant FirstFresh(candidates, entries.Keys) == FirstFresh(candidates[i..], entries.Keys)
      {
        if candidates[i] !in entries {
          return Some(candidates[i]);
        }
        assert candidates[i..][1..] == candidates[i + 1..];
      }
      tmp := None;
    }

    /** A temporary file is filled, settled and renamed onto the path; whatever is left under the
        temporary name is removed at the end, unless that is refused too. */
    method ReplaceFile(path: string, data: Bytes, candidates: seq<string>, refused: Stage, stuck: set<string>)
      returns (r: Outcome)
      requires forall c :: c in candidates ==> TempLike(c)
      modifies this
      ensures Between(old(entries), entries, path, data)
      ensures r.Done? ==> entries == Replaced(old(entries), path, data, candidates, stuck)
      ensures r.Done? ==> CanReplace(old(entries), path, candidates)
      ensures r.Failed? ==> LeftOver(old(entries), entries, FirstFresh(candidates, old(entries).Keys), stuck)
      ensures r.Failed? ==> !refused.Never? || !CanReplace(old(entries), path, candidates)
      ensures r.Died? ==> lifetime == 0
    {
      hide TempLike, Between, Replaced, WithTemp;
      var created := CreateTemp(candidates);
      UntouchedBetween(entries, path, data);
      if created.None? {
        return Failed;
      }
      var tmp := created.value;
      var alive := Step();
      if !alive {
        return Died;
      }
      entries := entries[tmp := File([], false, false)];
      TempAdded(old(entries), entries, tmp);
      r := Fill(tmp, data, refused, old(entries));
      TempBetween(old(entries), entries, path, data, tmp);
      if r.Died? {
        return;
      }
      if r.Failed? || refused.AtRename? || (path in entries && entries[path].Subdir?) {
        PathUnchanged(old(entries), entries, path, tmp);
        UndoneTemp(old(entries), entries, tmp);
        r := RemoveTemp(tmp, stuck);
        return if r.Done? then Failed else Died;
      }
      alive := Step();
      if !alive {
        return Died;
      }
      PathUnchanged(old(entries), entries, path, tmp);
      RenamedBetween(old(entries), entries, path, data, tmp, candidates, stuck);
      entries := (entries - {tmp})[path := Settled(data)];
      r := RemoveTemp(tmp, stuck);
    }

    /** The bytes, then the mode, then the owner, all under the temporary name. */
    method Fill(tmp: string, data: Bytes, refused: Stage, ghost before: Entries) returns (r: Outcome)
      requires WithTemp(before, entries, tmp)
      modifies this
      ensures WithTemp(before, entries, tmp)
      ensures r.Done? ==> entries[tmp] == Settled(data)
      ensures (r.Failed? ==> !refused.Never? && !refused.AtRename?) && (r.Died? ==> lifetime == 0)
    {
      hide WithTemp;
      Refilled(before, entries, tmp);
      if refused.AtWrite? {
        return Failed;
      }
      var alive := Step();
      if !alive {
        return Died;
      }
      entries := entries[tmp := File(data, false, false)];
      Refilled(before, entries, tmp);
      if refused.AtMode? {
        return Failed;
      }
      alive := Step();
      if !alive {
        return Died;
      }
      entries := entries[tmp := File(data, true, false)];
      Refilled(before, entries, tmp);
      if refused.AtOwner? {
        return Failed;
      }
      alive := Step();
      if !alive {
        return Died;
      }
      entries := entries[tmp := Settled(data)];
      r := Done;
    }

    /** The deferred removal: a name that is already gone is not an error, and neither is a refusal. */
    method RemoveTemp(tmp: string, stuck: set<string>) returns (r: Outcome)
      modifies this
      ensures entries == if r.Done? && tmp !in stuck then old(entries) - {tmp} else old(entries)
      ensures !r.Failed? && (r.Died? ==> lifetime == 0)
    {
      var alive := Step();
      if !alive {
        return Died;
      }
      if tmp !in stuck {
        entries := entries - {tmp};
      }
      r := Done;
    }

    /** Every key gets its bytes, in any order; a key already holding them is left alone. */
    method WriteFiles(content: Content, random: Random, refusals: Refusals)
      returns (r: Outcome, ghost order: seq<string>)
      requires Legal(random, content)
      modifies this
      ensures Intermediate(old(entries), entries, content)
      ensures r.Done? ==> Orders(order, content) && Completes(old(entries), content, random, refusals.stuck, order)
      ensures r.Done? ==> entries == Landed(old(entries), content, random, refusals.stuck, order)
      ensures r.Failed? ==> exists k :: k in content && Refused(k, old(entries), content, refusals, random)
      ensures r.Died? ==> lifetime == 0
    {
      hide TempLike, PlainName, Between, Intermediate, Written, Landed, Completes, Lost, Legal, Orders, Holds, Replaced;
      var todo, stuck := content.Keys, refusals.stuck;
      order := [];
      r := Done;
      StartsLanded(entries, content, random, stuck);
      while todo != {}
        invariant todo <= content.Keys && r.Done? && OrderOf(order, content, todo)
        invariant Completes(old(entries), content, random, stuck, order)
        invariant entries == Landed(old(entries), content, random, stuck, order)
        invariant Written(old(entries), entries, content, todo, Lost(old(entries), content, random, stuck, order))
      {
        var k :| k in todo;
        ghost var lost := Lost(old(entries), content, random, stuck, order);
        if !PlainName(k) {
          WrittenIsIntermediate(old(entries), entries, content, todo, lost);
          return Failed, order;
        }
        if !Holds(entries, k, content[k]) {
          r := Replace(content, random, refusals, k, old(entries), todo, lost);
          if !r.Done? {
            return;
          }
        }
        LandsNext(old(entries), content, random, stuck, order, todo, k);
        order, todo := order + [k], todo - {k};
      }
      WrittenIsIntermediate(old(entries), entries, content, {}, Lost(old(entries), content, random, stuck, order));
      OrderComplete(order, content);
    }

    /** One key of the write. */
    method Replace(content: Content, random: Random, refusals: Refusals, k: string,
                   ghost before: Entries, ghost todo: set<string>, ghost lost: set<string>)
      returns (r: Outcome)
      requires Legal(random, content) && k in content && k in todo && Written(before, entries, content, todo, lost)
      modifies this
      ensures Intermediate(before, entries, content)
      ensures r.Done? ==> entries == Replaced(old(entries), k, content[k], random(k), refusals.stuck)
      ensures r.Done? ==> CanReplace(old(entries), k, random(k))
      ensures r.Failed? ==> Refused(k, before, content, refusals, random)
      ensures r.Died? ==> lifetime == 0
    {
      hide TempLike, Between, Intermediate, Written, Replaced, Refused, LeftOver;
      ghost var mid := entries;
      r := ReplaceFile(k, content[k], random(k), refusals.write(k), refusals.stuck);
      BetweenIsIntermediate(before, mid, entries, content, todo, lost, k);
      FreshIs(random(k), mid.Keys);
      RefusedWhy(before, mid, content, todo, lost, k, refusals, random);
    }

    /** Whatever is not a key goes, except what os.Remove refuses; the refusals are discarded. */
    method Sweep(content: Content, stuck: set<string>) returns (r: Outcome)
      modifies this
      ensures forall k :: k in entries ==> k in old(entries) && entries[k] == old(entries)[k]
      ensures forall k :: k in old(entries) && Stays(old(entries), content, stuck, k) ==> k in entries
      ensures r.Done? ==> entries == Swept(old(entries), content, stuck)
      ensures !r.Failed? && (r.Died? ==> lifetime == 0)
    {
      var todo := entries.Keys;
      while todo != {}
        invariant forall k :: k in entries ==> k in old(entries) && entries[k] == old(entries)[k]
        invariant forall k :: k in old(entries) && Stays(old(entries), content, stuck, k) ==> k in entries
        invariant forall k :: k in entries && k !in todo ==> Stays(entries, content, stuck, k)
      {
        var k :| k in todo;
        if k in entries && !Stays(entries, content, stuck, k) {
          var alive := Step();
          if !alive {
            return Died;
          }
          entries := entries - {k};
        }
        todo := todo - {k};
      }
      r := Done;
    }

    /** At every step a reader meets whole old or whole new bytes. Success is one of the outcomes the
        order of the keys and the choice of temporary names allow; whatever they are, it is exactly
        the new content when nothing obstructs the directory and no new key looks like a temporary
        file. */
    method WriteSecretDir(content: Content, random: Random, refusals: Refusals)
      returns (r: Outcome, ghost order: seq<string>)
      requires Legal(random, content)
      modifies this
      ensures Intermediate(old(entries), entries, content)
      ensures r.Done? ==> Orders(order, content) && Completes(old(entries), content, random, refusals.stuck, order)
      ensures r.Done? ==> entries == Final(old(entries), content, random, refusals.stuck, order)
      ensures r.Done? && Unhindered(old(entries), content, refusals.stuck) ==> Exactly(entries, content)
      ensures r.Failed? ==>
                || (refusals.open && entries == old(entries)) || refusals.list
                || exists k :: k in content && Refused(k, old(entries), content, refusals, random)
      ensures r.Died? ==> lifetime == 0
    {
      hide TempLike, PlainName, Intermediate, Refused, Legal, Orders, Completes, Landed, Unhindered, Exactly, Swept;
      order := [];
      UntouchedIsIntermediate(entries, content);
      if refusals.open {
        return Failed, order;
      }
      r, order := WriteFiles(content, random, refusals);
      if !r.Done? {
        return;
      }
      if refusals.list {
        return Failed, order;
      }
      ghost var written := entries;
      r := Sweep(content, refusals.stuck);
      SweptIsIntermediate(old(entries), written, entries, content);
      if r.Done? && Unhindered(old(entries), content, refusals.stuck) {
        FinalIsExact(old(entries), content, random, refusals.stuck, order);
      }
    }
  }

  /** The path holds the new bytes, unless the temporary name was the path's own and its removal was
      granted. */
  function Replaced(before: Entries, path: string, data: Bytes, candidates: seq<string>, stuck: set<string>): Entries {
    if FirstFresh(candidates, before.Keys) == Some(path) && path !in stuck then before
    else before[path := Settled(data)]
  }

  /** A temporary name is free and no directory is in the place of the file. */
  predicate CanReplace(entries: Entries, path: string, candidates: seq<string>) {
    FirstFresh(candidates, entries.Keys).Some? && !(path in entries && entries[path].Subdir?)
  }

  /** A failure leaves the temporary file if its removal is refused, and nothing otherwise. */
  ghost predicate LeftOver(before: Entries, now: Entries, created: Option<string>, stuck: set<string>) {
    if created.Some? && created.value in stuck then WithTemp(before, now, created.value) else now == before
  }

  /** Why a key cannot be written. */
  ghost predicate Refused(k: string, before: Entries, content: Content, refusals: Refusals, random: Random) {
    || !PlainName(k)
    || !refusals.write(k).Never?
    || (k in before && before[k].Subdir?)
    || forall c :: c in random(k) ==> c in before || c in content
  }

  /** The keys outside `todo` hold their bytes, apart from the lost ones; the rest is as it was. */
  ghost predicate Written(before: Entries, now: Entries, content: Content, todo: set<string>, lost: set<string>) {
    && (forall k :: k in content && k !in todo && k !in lost ==> k in now && now[k].File? && now[k].data == content[k])
    && (forall k :: k in content && k !in todo && k !in lost ==> OldOrNew(before, now, k, content[k]))
    && (forall k :: k in lost ==> k in content && TempLike(k) && k !in before && k !in now)
    && (forall k :: k !in content || k in todo ==> (k in now <==> k in before))
    && (forall k :: k in now && (k !in content || k in todo) ==> now[k] == before[k])
    && lost !! todo
  }

  // ---------------------------------------------------------------------------------------------
  // What the order of the keys and the temporary names make of a directory.
  // ---------------------------------------------------------------------------------------------

  ghost predicate Legal(random: Random, content: Content) {
    forall k, c :: k in content && c in random(k) ==> TempLike(c)
  }

  /** The keys outside `todo`, each once. */
  ghost predicate OrderOf(order: seq<string>, content: Content, todo: set<string>) {
    && (forall k :: k in order <==> k in content && k !in todo)
    && (forall i, j :: 0 <= i < j < |order| ==> order[i] != order[j])
  }

  ghost predicate Orders(order: seq<string>, content: Content) {
    OrderOf(order, content, {})
  }

  predicate Holds(entries: Entries, k: string, data: Bytes) {
    k in entries && entries[k].File? && entries[k].data == data
  }

  function Put(entries: Entries, k: string, data: Bytes, candidates: seq<string>, stuck: set<string>): Entries {
    if Holds(entries, k, data) then entries else Replaced(entries, k, data, candidates, stuck)
  }

  /** The temporary file of the key has the key's own name, and goes in the end. */
  predicate OwnName(entries: Entries, k: string, candidates: seq<string>, stuck: set<string>) {
    FirstFresh(candidates, entries.Keys) == Some(k) && k !in stuck
  }

  /** The directory after the keys have been written in this order. */
  ghost function Landed(before: Entries, content: Content, random: Random, stuck: set<string>, order: seq<string>):
    Entries
  {
    if order == [] then before
    else
      var k, cur := order[|order| - 1], Landed(before, content, random, stuck, order[..|order| - 1]);
      if k in content then Put(cur, k, content[k], random(k), stuck) else cur
  }

  /** The keys whose temporary file had their own name. */
  ghost function Lost(before: Entries, content: Content, random: Random, stuck: set<string>, order: seq<string>):
    (lost: set<string>)
    ensures lost !! stuck
  {
    if order == [] then {}
    else
      var k, rest := order[|order| - 1], order[..|order| - 1];
      var cur := Landed(before, content, random, stuck, rest);
      Lost(before, content, random, stuck, rest)
      + if k in content && !Holds(cur, k, content[k]) && OwnName(cur, k, random(k), stuck) then {k} else {}
  }

  /** No key on the way is refused. */
  ghost predicate Completes(before: Entries, content: Content, random: Random, stuck: set<string>, order: seq<string>) {
    order == [] ||
    var k, rest := order[|order| - 1], order[..|order| - 1];
    var cur := Landed(before, content, random, stuck, rest);
    && Completes(before, content, random, stuck, rest)
    && k in content && PlainName(k)
    && (Holds(cur, k, content[k]) || CanReplace(cur, k, random(k)))
  }

  /** A key of the content, or something that cannot be removed. */
  predicate Stays(entries: Entries, content: Content, stuck: set<string>, k: string)
    requires k in entries
  {
    k in content || k in stuck || Unremovable(entries[k])
  }

  function Swept(entries: Entries, content: Content, stuck: set<string>): Entries {
    map k | k in entries && Stays(entries, content, stuck, k) :: entries[k]
  }

  ghost function Final(before: Entries, content: Content, random: Random, stuck: set<string>, order: seq<string>):
    Entries
  {
    Swept(Landed(before, content, random, stuck, order), content, stuck)
  }

  /** A new key has a name a temporary file could get, and that can be removed. */
  ghost predicate Ambiguous(before: Entries, content: Content, stuck: set<string>) {
    exists k :: k in content && k !in before && k !in stuck && TempLike(k)
  }

  /** Something outside the content cannot be removed. */
  ghost predicate Obstructed(before: Entries, content: Content, stuck: set<string>) {
    exists k :: k in before && !(k in content) && Stays(before, content, stuck, k)
  }

  ghost predicate Unhindered(before: Entries, content: Content, stuck: set<string>) {
    !Obstructed(before, content, stuck) && !Ambiguous(before, content, stuck)
  }

  lemma StartsLanded(entries: Entries, content: Content, random: Random, stuck: set<string>)
    ensures Landed(entries, content, random, stuck, []) == entries && Completes(entries, content, random, stuck, [])
    ensures OrderOf([], content, content.Keys)
    ensures Written(entries, entries, content, content.Keys, Lost(entries, content, random, stuck, []))
  {
    hide Written;
    NothingWritten(entries, content);
  }

  lemma OneMore(before: Entries, content: Content, random: Random, stuck: set<string>, order: seq<string>, k: string)
    requires k in content
    ensures var cur, lost := Landed(before, content, random, stuck, order), Lost(before, content, random, stuck, order);
            && Landed(before, content, random, stuck, order + [k]) == Put(cur, k, content[k], random(k), stuck)
            && Lost(before, content, random, stuck, order + [k])
               == (if !Holds(cur, k, content[k]) && OwnName(cur, k, random(k), stuck) then lost + {k} else lost)
            && (Completes(before, content, random, stuck, order + [k]) <==>
                && Completes(before, content, random, stuck, order) && PlainName(k)
                && (Holds(cur, k, content[k]) || CanReplace(cur, k, random(k))))
  {
    hide Put, Holds, PlainName, OwnName, CanReplace;
    assert (order + [k])[..|order|] == order;
  }

  /** Writing the next key. */
  lemma LandsNext(before: Entries, content: Content, random: Random, stuck: set<string>, order: seq<string>,
                  todo: set<string>, k: string)
    requires Legal(random, content) && OrderOf(order, content, todo) && k in todo && k in content && PlainName(k)
    requires Completes(before, content, random, stuck, order)
    requires var cur := Landed(before, content, random, stuck, order);
             && Written(before, cur, content, todo, Lost(before, content, random, stuck, order))
             && (Holds(cur, k, content[k]) || CanReplace(cur, k, random(k)))
    ensures var cur := Landed(before, content, random, stuck, order);
            var next := Landed(before, content, random, stuck, order + [k]);
            && next == Put(cur, k, content[k], random(k), stuck)
            && Completes(before, content, random, stuck, order + [k]) && OrderOf(order + [k], content, todo - {k})
            && Written(before, next, content, todo - {k}, Lost(before, content, random, stuck, order + [k]))
    ensures Lost(before, content, random, stuck, order) <= Lost(before, content, random, stuck, order + [k])
  {
    hide Written, TempLike, PlainName, Replaced, Landed, Lost, Completes;
    var cur := Landed(before, content, random, stuck, order);
    OneMore(before, content, random, stuck, order, k);
    if Holds(cur, k, content[k]) {
      SkippedKey(before, cur, content, todo, Lost(before, content, random, stuck, order), k);
    } else {
      FreshIs(random(k), cur.Keys);
      ReplacedKey(before, cur, content, todo, Lost(before, content, random, stuck, order), k, random(k), stuck);
    }
  }

  lemma OrderComplete(order: seq<string>, content: Content)
    requires OrderOf(order, content, {})
    ensures Orders(order, content)
  {
  }

  /** Whatever completes leaves every key written, apart from the lost ones. */
  lemma {:induction false} LandedIsWritten(before: Entries, content: Content, random: Random, stuck: set<string>,
                                           order: seq<string>, todo: set<string>)
    requires Legal(random, content) && Completes(before, content, random, stuck, order) && OrderOf(order, content, todo)
    requires todo <= content.Keys
    ensures Written(before, Landed(before, content, random, stuck, order), content, todo,
                    Lost(before, content, random, stuck, order))
    decreases |order|
  {
    hide Written, TempLike, PlainName, Put, Holds;
    if order == [] {
      assert todo == content.Keys;
      StartsLanded(before, content, random, stuck);
    } else {
      var k, rest := order[|order| - 1], order[..|order| - 1];
      assert order == rest + [k];
      ShorterOrder(rest, k, content, todo);
      LandedIsWritten(before, content, random, stuck, rest, todo + {k});
      LandsNext(before, content, random, stuck, rest, todo + {k}, k);
      assert todo + {k} - {k} == todo;
    }
  }

  lemma ShorterOrder(rest: seq<string>, k: string, content: Content, todo: set<string>)
    requires OrderOf(rest + [k], content, todo)
    ensures OrderOf(rest, content, todo + {k}) && k in content && k !in todo
  {
    var order := rest + [k];
    assert order[|rest|] == k && k in order;
    forall x
      ensures x in rest <==> x in content && x !in todo + {k}
    {
      if x in rest {
        var i :| 0 <= i < |rest| && rest[i] == x;
        assert order[i] == x && x in order;
      }
    }
    assert forall i, j :: 0 <= i < j < |rest| ==> rest[i] == order[i] && rest[j] == order[j];
  }

  /** A write that completes is exact if and only if it lost no key and nothing obstructs it. */
  lemma FinalIsExactIff(before: Entries, content: Content, random: Random, stuck: set<string>, order: seq<string>)
    requires Legal(random, content) && Orders(order, content) && Completes(before, content, random, stuck, order)
    ensures Exactly(Final(before, content, random, stuck, order), content)
       <==> Lost(before, content, random, stuck, order) == {} && !Obstructed(before, content, stuck)
    ensures forall k :: k in Lost(before, content, random, stuck, order) ==> k in content && TempLike(k) && k !in before
  {
    hide Written, Completes, Landed, Lost, Legal, Obstructed, TempLike, Exactly, Swept;
    LandedIsWritten(before, content, random, stuck, order, {});
    SweptIsExactIff(before, Landed(before, content, random, stuck, order), content,
                    Lost(before, content, random, stuck, order), stuck);
  }

  /** Without an obstruction and without an ambiguous key every outcome is exact. */
  lemma FinalIsExact(before: Entries, content: Content, random: Random, stuck: set<string>, order: seq<string>)
    requires Legal(random, content) && Orders(order, content) && Completes(before, content, random, stuck, order)
    requires Unhindered(before, content, stuck)
    ensures Exactly(Final(before, content, random, stuck, order), content)
  {
    hide Completes, Legal, Obstructed, TempLike, Orders, Final, Exactly;
    FinalIsExactIff(before, content, random, stuck, order);
    assert forall k :: k !in Lost(before, content, random, stuck, order);
  }

  // ---------------------------------------------------------------------------------------------
  // When every choice of temporary names gives the exact content.
  // ---------------------------------------------------------------------------------------------

  /** No key is refused for its name or for a directory in its place, and unless there is nothing to
      write some temporary name is free. */
  ghost predicate Writable(before: Entries, content: Content) {
    && (forall k :: k in content ==> PlainName(k) && !(k in before && before[k].Subdir?))
    && (AllHeld(before, content) || exists t :: TempLike(t) && t !in before)
  }

  predicate AllHeld(before: Entries, content: Content) {
    forall k :: k in content ==> Holds(before, k, content[k])
  }

  /** Every choice of names and order that completes leaves exactly the content. */
  ghost predicate AlwaysExact(before: Entries, content: Content, stuck: set<string>) {
    forall random, order ::
      Legal(random, content) && Orders(order, content) && Completes(before, content, random, stuck, order) ==>
        Exactly(Final(before, content, random, stuck, order), content)
  }

  /** A successful write is exact for every choice of temporary names if and only if none can
      succeed, or nothing outside the content is there that cannot be removed and no key that is not
      there yet has a name a temporary file could get. */
  lemma AlwaysExactIff(before: Entries, content: Content, stuck: set<string>)
    ensures AlwaysExact(before, content, stuck) <==> !Writable(before, content) || Unhindered(before, content, stuck)
  {
    hide Legal, Orders, Completes, Final, Exactly, Writable;
    if !Writable(before, content) || Unhindered(before, content, stuck) {
      forall random, order |
        Legal(random, content) && Orders(order, content) && Completes(before, content, random, stuck, order)
        ensures Exactly(Final(before, content, random, stuck, order), content)
      {
        CompletesOnlyIfWritable(before, content, random, stuck, order);
        FinalIsExact(before, content, random, stuck, order);
      }
    } else if Ambiguous(before, content, stuck) {
      var k :| k in content && k !in before && k !in stuck && TempLike(k);
      AmbiguousKeyCanBeLost(before, content, stuck, k);
    } else {
      ObstructionStays(before, content, stuck);
    }
  }

  lemma CompletesOnlyIfWritable(before: Entries, content: Content, random: Random, stuck: set<string>,
                                order: seq<string>)
    requires Legal(random, content) && Orders(order, content) && Completes(before, content, random, stuck, order)
    ensures Writable(before, content)
  {
    hide Legal, Completes, PlainName, TempLike, Holds, Landed;
    OrderedKeysAreWritable(before, content, random, stuck, order, {});
    FirstWriteFindsName(before, content, random, stuck, order);
  }

  /** Nothing was written so far, or some temporary name was free. */
  lemma {:induction false} FirstWriteFindsName(before: Entries, content: Content, random: Random, stuck: set<string>,
                                               order: seq<string>)
    requires Legal(random, content) && Completes(before, content, random, stuck, order)
    ensures || (exists t :: TempLike(t) && t !in before)
            || (&& Landed(before, content, random, stuck, order) == before
                && forall k :: k in order ==> k in content && Holds(before, k, content[k]))
  {
    hide TempLike, PlainName, Holds, FirstFresh;
    if order != [] {
      var k, rest := order[|order| - 1], order[..|order| - 1];
      FirstWriteFindsName(before, content, random, stuck, rest);
      FreshIs(random(k), before.Keys);
      assert order == rest + [k];
    }
  }

  lemma {:induction false} OrderedKeysAreWritable(before: Entries, content: Content, random: Random, stuck: set<string>,
                                                  order: seq<string>, todo: set<string>)
    requires Legal(random, content) && Completes(before, content, random, stuck, order)
    requires OrderOf(order, content, todo) && todo <= content.Keys
    ensures forall k :: k in order ==> PlainName(k) && !(k in before && before[k].Subdir?)
    decreases |order|
  {
    hide Written, Lost, TempLike, PlainName, Put, Landed;
    if order != [] {
      var k, rest := order[|order| - 1], order[..|order| - 1];
      assert order == rest + [k];
      ShorterOrder(rest, k, content, todo);
      OrderedKeysAreWritable(before, content, random, stuck, rest, todo + {k});
      LandedIsWritten(before, content, random, stuck, rest, todo + {k});
      if k in before {
        StillThere(before, Landed(before, content, random, stuck, rest), content, todo + {k},
                   Lost(before, content, random, stuck, rest), k);
      }
    }
  }

  lemma StillThere(before: Entries, now: Entries, content: Content, todo: set<string>, lost: set<string>, k: string)
    requires Written(before, now, content, todo, lost) && k in todo && k in before
    ensures k in now && now[k] == before[k]
  {
  }

  /** Every key is tried with the same temporary name. */
  ghost function Always(t: string): Random {
    (x: string) => [t]
  }

  /** One free name serves every key, if the key of that name comes last. */
  lemma {:induction false} OneNameCompletes(before: Entries, content: Content, t: string, stuck: set<string>,
                                            order: seq<string>, todo: set<string>)
    requires Writable(before, content) && TempLike(t) && t !in before
    requires OrderOf(order, content, todo) && todo <= content.Keys
    requires forall i :: 0 <= i < |order| - 1 ==> order[i] != t
    ensures Legal(Always(t), content) && Completes(before, content, Always(t), stuck, order)
    decreases |order|
  {
    hide Written, Lost, TempLike, PlainName, Put, Landed, Holds;
    if order != [] {
      var k, rest := order[|order| - 1], order[..|order| - 1];
      assert order == rest + [k];
      ShorterOrder(rest, k, content, todo);
      OneNameCompletes(before, content, t, stuck, rest, todo + {k});
      LandedIsWritten(before, content, Always(t), stuck, rest, todo + {k});
      assert t !in content || t in todo + {k};
      FreeAtItsTurn(before, Landed(before, content, Always(t), stuck, rest), content, todo + {k},
                    Lost(before, content, Always(t), stuck, rest), k, t);
    }
  }

  lemma FreeAtItsTurn(before: Entries, now: Entries, content: Content, todo: set<string>, lost: set<string>,
                      k: string, c: string)
    requires Written(before, now, content, todo, lost) && k in todo && k in content
    requires c !in before && (c in todo || c !in content)
    ensures c !in now && (k in now <==> k in before) && (k in now ==> now[k] == before[k])
  {
    hide TempLike;
  }

  lemma {:induction false} NothingToWrite(before: Entries, content: Content, random: Random, stuck: set<string>,
                                          order: seq<string>)
    requires AllHeld(before, content) && forall k :: k in order ==> k in content && PlainName(k)
    ensures Completes(before, content, random, stuck, order) && Landed(before, content, random, stuck, order) == before
  {
    hide PlainName, Holds;
    if order != [] {
      var k, rest := order[|order| - 1], order[..|order| - 1];
      assert order == rest + [k];
      NothingToWrite(before, content, random, stuck, rest);
    }
  }

  /** A key that is its own temporary name is gone after the write. */
  lemma {:induction false} OwnNameIsLost(before: Entries, content: Content, random: Random, stuck: set<string>,
                                         order: seq<string>, todo: set<string>, k: string)
    requires Legal(random, content) && Completes(before, content, random, stuck, order)
    requires OrderOf(order, content, todo) && todo <= content.Keys
    requires k in order && k !in before && k !in stuck && random(k) == [k]
    ensures k in Lost(before, content, random, stuck, order)
    decreases |order|
  {
    hide Written, TempLike, PlainName, Put;
    var last, rest := order[|order| - 1], order[..|order| - 1];
    assert order == rest + [last];
    ShorterOrder(rest, last, content, todo);
    if last == k {
      LandedIsWritten(before, content, random, stuck, rest, todo + {k});
      FreeAtItsTurn(before, Landed(before, content, random, stuck, rest), content, todo + {k},
                    Lost(before, content, random, stuck, rest), k, k);
    } else {
      assert k in rest;
      OwnNameIsLost(before, content, random, stuck, rest, todo + {last}, k);
    }
  }

  /** Every key uses that name, and the key of that name comes last. */
  lemma AmbiguousKeyCanBeLost(before: Entries, content: Content, stuck: set<string>, k: string)
    requires Writable(before, content) && k in content && k !in before && k !in stuck && TempLike(k)
    ensures !AlwaysExact(before, content, stuck)
  {
    hide TempLike, Landed, Lost, Completes, Exactly, Final, Obstructed, Writable, Legal;
    var order := ListKeys(content.Keys, k);
    OneNameCompletes(before, content, k, stuck, order, {});
    OwnNameIsLost(before, content, Always(k), stuck, order, {}, k);
    FinalIsExactIff(before, content, Always(k), stuck, order);
    assert Orders(order, content) && !Exactly(Final(before, content, Always(k), stuck, order), content);
  }

  lemma ObstructionStays(before: Entries, content: Content, stuck: set<string>)
    requires Writable(before, content) && Obstructed(before, content, stuck)
    ensures !AlwaysExact(before, content, stuck)
  {
    hide TempLike, Landed, Lost, Completes, Exactly, Final, Obstructed, PlainName;
    var t: string :| AllHeld(before, content) || (TempLike(t) && t !in before);
    var order := ListKeys(content.Keys, t);
    var random := if AllHeld(before, content) then (x: string) => [] else Always(t);
    if AllHeld(before, content) {
      NothingToWrite(before, content, random, stuck, order);
    } else {
      OneNameCompletes(before, content, t, stuck, order, {});
    }
    FinalIsExactIff(before, content, random, stuck, order);
    assert Orders(order, content) && !Exactly(Final(before, content, random, stuck, order), content);
  }

  /** The keys in some order, this one last. */
  lemma {:induction false} ListKeys(keys: set<string>, last: string) returns (order: seq<string>)
    ensures forall k :: k in order <==> k in keys
    ensures forall i, j :: 0 <= i < j < |order| ==> order[i] != order[j]
    ensures forall i :: 0 <= i < |order| - 1 ==> order[i] != last
    decreases |keys|
  {
    if keys == {} {
      order := [];
    } else if last in keys {
      order := ListKeys(keys - {last}, last);
      order := order + [last];
    } else {
      var k :| k in keys;
      order := ListKeys(keys - {k}, last);
      order := order + [k];
    }
  }

  lemma NothingWritten(entries: Entries, content: Content)
    ensures Written(entries, entries, content, content.Keys, {})
  {
  }

  lemma WrittenIsIntermediate(before: Entries, now: Entries, content: Content, todo: set<string>, lost: set<string>)
    requires Written(before, now, content, todo, lost)
    ensures Intermediate(before, now, content)
  {
  }

  lemma SkippedKey(before: Entries, now: Entries, content: Content, todo: set<string>, lost: set<string>, k: string)
    requires Written(before, now, content, todo, lost) && k in todo && k in content
    requires k in now && now[k].File? && now[k].data == content[k]
    ensures Written(before, now, content, todo - {k}, lost)
  {
  }

  lemma {:induction false} FreshIs(candidates: seq<string>, used: set<string>)
    ensures var f := FirstFresh(candidates, used);
            if f.Some? then f.value in candidates && f.value !in used else forall c :: c in candidates ==> c in used
  {
    if candidates != [] {
      FreshIs(candidates[1..], used);
    }
  }

  lemma BetweenIsIntermediate(before: Entries, mid: Entries, now: Entries, content: Content, todo: set<string>,
                              lost: set<string>, k: string)
    requires Written(before, mid, content, todo, lost) && k in todo && k in content
    requires Between(mid, now, k, content[k])
    ensures Intermediate(before, now, content)
  {
  }

  lemma RefusedWhy(before: Entries, mid: Entries, content: Content, todo: set<string>, lost: set<string>, k: string,
                   refusals: Refusals, random: Random)
    requires Written(before, mid, content, todo, lost) && k in todo && k in content
    ensures !refusals.write(k).Never? || !CanReplace(mid, k, random(k)) ==>
              Refused(k, before, content, refusals, random)
  {
    hide TempLike;
    FreshIs(random(k), mid.Keys);
  }

  lemma ReplacedKey(before: Entries, mid: Entries, content: Content, todo: set<string>, lost: set<string>,
                    k: string, candidates: seq<string>, stuck: set<string>)
    requires Written(before, mid, content, todo, lost) && k in todo && k in content
    requires FirstFresh(candidates, mid.Keys) == Some(k) ==> k !in mid && TempLike(k)
    ensures Written(before, Replaced(mid, k, content[k], candidates, stuck), content, todo - {k},
                    if OwnName(mid, k, candidates, stuck) then lost + {k} else lost)
  {
    hide TempLike, FirstFresh;
  }

  ghost predicate Exactly(now: Entries, content: Content) {
    now.Keys == content.Keys && forall k :: k in content ==> now[k].File? && now[k].data == content[k]
  }

  lemma UntouchedIsIntermediate(entries: Entries, content: Content)
    ensures Intermediate(entries, entries, content)
  {
  }

  lemma SweptIsIntermediate(before: Entries, written: Entries, now: Entries, content: Content)
    requires Intermediate(before, written, content)
    requires forall k :: k in now ==> k in written && now[k] == written[k]
    requires forall k :: k in written && k in content ==> k in now
    ensures Intermediate(before, now, content)
  {
    hide TempLike;
  }

  lemma SweptIsExactIff(before: Entries, written: Entries, content: Content, lost: set<string>, stuck: set<string>)
    requires Written(before, written, content, {}, lost)
    ensures Exactly(Swept(written, content, stuck), content) <==> lost == {} && !Obstructed(before, content, stuck)
    ensures forall k :: k in lost ==> k in content && TempLike(k) && k !in before
  {
    hide TempLike;
    var now := Swept(written, content, stuck);
    if lost != {} {
      var k :| k in lost;
      assert k !in now && k in content;
    } else if Obstructed(before, content, stuck) {
      var k :| k in before && !(k in content) && Stays(before, content, stuck, k);
      assert k in now;
    }
  }

  /** The directory with one more file, under the temporary name. */
  ghost predicate WithTemp(before: Entries, now: Entries, tmp: string) {
    && tmp !in before && tmp in now && TempLike(tmp) && now[tmp].File?
    && (forall k :: k in now <==> k in before || k == tmp)
    && (forall k :: k in before ==> now[k] == before[k])
  }

  lemma UntouchedBetween(entries: Entries, path: string, data: Bytes)
    ensures Between(entries, entries, path, data)
  {
  }

  lemma TempBetween(before: Entries, now: Entries, path: string, data: Bytes, tmp: string)
    requires WithTemp(before, now, tmp)
    ensures Between(before, now, path, data)
  {
  }

  lemma TempAdded(before: Entries, now: Entries, tmp: string)
    requires tmp !in before && TempLike(tmp) && now == before[tmp := File([], false, false)]
    ensures WithTemp(before, now, tmp)
  {
  }

  /** Whatever its bytes, mode and owner. */
  lemma Refilled(before: Entries, now: Entries, tmp: string)
    requires WithTemp(before, now, tmp)
    ensures tmp in now && forall data, mode, owner :: WithTemp(before, now[tmp := File(data, mode, owner)], tmp)
  {
    hide TempLike;
  }

  lemma PathUnchanged(before: Entries, now: Entries, path: string, tmp: string)
    requires WithTemp(before, now, tmp)
    ensures path in now && now[path].Subdir? <==> path in before && before[path].Subdir?
  {
  }

  lemma UndoneTemp(before: Entries, now: Entries, tmp: string)
    requires WithTemp(before, now, tmp)
    ensures now - {tmp} == before
  {
  }

  lemma RenamedBetween(before: Entries, full: Entries, path: string, data: Bytes, tmp: string, candidates: seq<string>,
                       stuck: set<string>)
    requires WithTemp(before, full, tmp) && FirstFresh(candidates, before.Keys) == Some(tmp)
    ensures var now := (full - {tmp})[path := Settled(data)];
            && Between(before, now, path, data)
            && Between(before, now - {tmp}, path, data)
            && (if tmp in stuck then now else now - {tmp}) == Replaced(before, path, data, candidates, stuck)
  {
    hide TempLike;
  }

  function FirstFresh(candidates: seq<string>, used: set<string>): Option<string> {
    if candidates == [] then None
    else if candidates[0] !in used then Some(candidates[0])
    else FirstFresh(candidates[1..], used)
  }
}
