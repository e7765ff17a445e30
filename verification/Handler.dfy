/** The helper's calls as sequences of table, attachment and interface steps. */
module Handler {

  import opened Wrappers
  import opened Maths
  import opened Forward
  import A = Attachments

  type Iface = A.Iface

  /** What the linker reads back: an interface, its index and the address routed to it, if any. */
  datatype Wiring = Wiring(iface: Iface, index: nat, address: Option<Addr>)

  function Indices(devices: map<Iface, nat>): set<nat> {
    set n | n in devices :: devices[n]
  }

  /** No local entry points at an interface the node does not have. */
  ghost predicate Delivers(table: Table, devices: map<Iface, nat>) {
    forall a :: a in table && IsLocal(table[a]) ==> table[a].ifindex in Indices(devices)
  }

  /** Deleting entries one at a time, in any order and stopping anywhere, keeps that. */
  lemma DeletionKeepsDelivery(table: Table, part: Table, may: set<Addr>, devices: map<Iface, nat>)
    requires Delivers(table, devices) && Shrunk(table, part, may)
    ensures Delivers(part, devices)
  {
  }

  /** Removing an interface keeps it exactly when no local entry is left behind it. */
  lemma DeviceMayGoIff(table: Table, devices: map<Iface, nat>, iface: Iface)
    requires Delivers(table, devices) && iface in devices
    requires forall n :: n in devices && devices[n] == devices[iface] ==> n == iface
    ensures Delivers(table, devices - {iface}) <==> OnInterface(table, devices[iface]) == {}
  {
    if OnInterface(table, devices[iface]) == {} {
      forall a | a in table && IsLocal(table[a])
        ensures table[a].ifindex in Indices(devices - {iface})
      {
        assert a !in OnInterface(table, devices[iface]);
        var n :| n in devices && devices[n] == table[a].ifindex;
        assert n in devices - {iface};
      }
    } else {
      var a :| a in OnInterface(table, devices[iface]);
      assert table[a].ifindex !in Indices(devices - {iface});
    }
  }

  /** The local entries of an interface that the kernel lets go. */
  function LetGo(t: Table, ifindex: nat, faults: Faults): set<Addr> {
    if faults.iterate then {} else OnInterface(t, ifindex) - faults.deletes
  }

  /** The local entries of an interface that forgetting it does not remove. */
  function HeldBack(t: Table, ifindex: nat, faults: Faults): set<Addr> {
    if faults.iterate then OnInterface(t, ifindex) else OnInterface(t, ifindex) * faults.deletes
  }

  lemma ForgottenLeaves(t: Table, ifindex: nat, faults: Faults)
    ensures OnInterface(t - LetGo(t, ifindex, faults), ifindex) == HeldBack(t, ifindex, faults)
  {
  }

  // ---------------------------------------------------------------------------------------------
  // Rebuilding the table.
  // ---------------------------------------------------------------------------------------------

  /** Recording each wired address in turn. */
  function Recorded(t: Table, wired: seq<Wiring>): Table {
    if wired == [] then t
    else
      var w := wired[|wired| - 1];
      var before := Recorded(t, wired[..|wired| - 1]);
      if w.address.Some? then WithLocal(before, w.address.value, w.index) else before
  }

  function WiredIndices(wired: seq<Wiring>): set<nat> {
    set w | w in wired :: w.index
  }

  /** What Rewire leaves: stale local entries dropped, every wired address recorded. */
  function Rewired(t: Table, wired: seq<Wiring>): Table {
    Recorded(WithLiveOnly(t, WiredIndices(wired)), wired)
  }

  /** The addresses wired are pairwise distinct. */
  predicate DistinctAddresses(wired: seq<Wiring>) {
    forall i, j :: 0 <= i < j < |wired| && wired[i].address.Some? ==> wired[i].address != wired[j].address
  }

  predicate Wires(wired: seq<Wiring>, a: Addr) {
    exists i :: 0 <= i < |wired| && wired[i].address == Some(a)
  }

  lemma {:induction false} RecordedAt(t: Table, wired: seq<Wiring>, a: Addr)
    ensures !Wires(wired, a) ==> (a in Recorded(t, wired) <==> a in t)
    ensures !Wires(wired, a) && a in t ==> Recorded(t, wired)[a] == t[a]
    ensures Wires(wired, a) ==>
              && a in Recorded(t, wired)
              && exists i :: && 0 <= i < |wired| && wired[i].address == Some(a)
                             && Recorded(t, wired)[a] == Entry(0, wired[i].index, 0)
  {
    if wired != [] {
      var before := wired[..|wired| - 1];
      RecordedAt(t, before, a);
      if wired[|wired| - 1].address != Some(a) {
        assert Wires(wired, a) ==> Wires(before, a) by {
          if Wires(wired, a) {
            var i :| 0 <= i < |wired| && wired[i].address == Some(a);
            assert before[i].address == Some(a);
          }
        }
        if Wires(before, a) {
          var i :| 0 <= i < |before| && before[i].address == Some(a)
                   && a in Recorded(t, before) && Recorded(t, before)[a] == Entry(0, before[i].index, 0);
          assert wired[i].address == Some(a);
        }
      }
    }
  }

  ghost predicate Meets(wired: seq<Wiring>, want: Table) {
    exists a :: a in want && Wires(wired, a)
  }

  lemma {:induction false} RecordingOverlays(t: Table, wired: seq<Wiring>, a: Addr)
    requires Wires(wired, a)
    ensures a in Recorded(t, wired) && a in Recorded(map[], wired)
    ensures Recorded(t, wired)[a] == Recorded(map[], wired)[a] && IsLocal(Recorded(t, wired)[a])
  {
    var before := wired[..|wired| - 1];
    if wired[|wired| - 1].address != Some(a) {
      var i :| 0 <= i < |wired| && wired[i].address == Some(a);
      assert before[i].address == Some(a);
      RecordingOverlays(t, before, a);
    }
  }

  /** The push agrees with the wiring on this address: not wired and not a local entry of a dead
      interface, or exactly what is recorded. */
  ghost predicate AgreesOn(wired: seq<Wiring>, a: Addr, e: Entry) {
    if Wires(wired, a) then a in Recorded(map[], wired) && Recorded(map[], wired)[a] == e
    else IsLocal(e) ==> e.ifindex in WiredIndices(wired)
  }

  /** After a restart with an empty table, rewiring and the next push give the same table in either
      order if and only if the push agrees with the wiring on every address it names. */
  lemma RestartOrderIrrelevantIff(wired: seq<Wiring>, want: Table)
    ensures WithRemote(Rewired(map[], wired), want) == Rewired(WithRemote(map[], want), wired)
       <==> forall a :: a in want ==> AgreesOn(wired, a, want[a])
  {
    hide Wires, Recorded, Rewired, AgreesOn;
    var first, second := WithRemote(Rewired(map[], wired), want), Rewired(WithRemote(map[], want), wired);
    forall a: Addr
      ensures a !in want ==> (a in first <==> a in second) && (a in first ==> first[a] == second[a])
      ensures a in want ==> (a in first && a in second && first[a] == second[a] <==> AgreesOn(wired, a, want[a]))
    {
      OrdersAgreeAt(wired, want, a);
    }
    if first == second {
      forall a | a in want
        ensures AgreesOn(wired, a, want[a])
      {
        assert a in first;
      }
    }
  }

  lemma OrdersAgreeAt(wired: seq<Wiring>, want: Table, a: Addr)
    ensures var first, second := WithRemote(Rewired(map[], wired), want), Rewired(WithRemote(map[], want), wired);
            && (a !in want ==> (a in first <==> a in second) && (a in first ==> first[a] == second[a]))
            && (a in want ==> (a in first && a in second && first[a] == second[a] <==> AgreesOn(wired, a, want[a])))
  {
    hide Wires, Recorded;
    var empty: Table := map[];
    var live := WiredIndices(wired);
    assert WithRemote(empty, want) == want && WithLiveOnly(empty, live) == empty;
    RecordedAt(empty, wired, a);
    RecordedAt(WithLiveOnly(want, live), wired, a);
    if Wires(wired, a) {
      RecordingOverlays(WithLiveOnly(want, live), wired, a);
      RecordingOverlays(empty, wired, a);
    }
  }

  /** So a push of real nodes commutes with rewiring exactly when it names no wired address. */
  lemma RealPushAgreesIff(wired: seq<Wiring>, want: Table)
    requires forall a :: a in want ==> !IsLocal(want[a])
    ensures (forall a :: a in want ==> AgreesOn(wired, a, want[a])) <==> !Meets(wired, want)
  {
    hide Wires, Recorded;
    forall a | a in want
      ensures AgreesOn(wired, a, want[a]) <==> !Wires(wired, a)
    {
      if Wires(wired, a) {
        RecordingOverlays(map[], wired, a);
      }
    }
  }

  /** The wiring puts the address where the local half of the table has it. */
  ghost predicate SameLocally(wired: seq<Wiring>, local: map<Addr, nat>, a: Addr) {
    && (Wires(wired, a) <==> a in local)
    && forall i :: 0 <= i < |wired| && wired[i].address == Some(a) ==> a in local && local[a] == wired[i].index
  }

  /** After any run of sets, drops, prunes and pushes, an empty table that is rewired and then pushed
      the last push again is the table before the restart, if and only if the wiring agrees with the
      local operations on every address outside that push. If it agrees on all addresses, the other
      order gives the same table. */
  lemma RestartRebuildsIff(h: Halves, ops: seq<Op>, wired: seq<Wiring>)
    requires ApartThroughout(h, ops) && DistinctAddresses(wired)
    ensures var local, push := DoAllHalves(h, LocalOps(ops)).local, LastPush(ops, h.remote);
            && (WithRemote(Rewired(map[], wired), push) == DoAll(Merge(h), ops)
                <==> forall a :: a !in push ==> SameLocally(wired, local, a))
            && ((forall a :: SameLocally(wired, local, a)) ==>
                  Rewired(WithRemote(map[], push), wired) == DoAll(Merge(h), ops))
  {
    hide Wires, Recorded, Rewired, SameLocally, Merge, DoAll, DoAllHalves, LocalOps, LastPush, AgreesOn, Meets, Apart;
    var local, push := DoAllHalves(h, LocalOps(ops)).local, LastPush(ops, h.remote);
    TableIsLocalPlusLastPush(h, ops);
    RunsStayApart(h, ops);
    RemoteIsLastPush(h, ops);
    LocalIgnoresPushes(h, ops);
    assert DoAllHalves(h, ops) == Halves(local, push);
    RebuiltIff(wired, Halves(local, push));
    if forall a :: SameLocally(wired, local, a) {
      NotMet(wired, Halves(local, push));
      RealPushAgreesIff(wired, push);
      RestartOrderIrrelevantIff(wired, push);
    }
  }

  lemma NotMet(wired: seq<Wiring>, h: Halves)
    requires Apart(h) && forall a :: SameLocally(wired, h.local, a)
    ensures !Meets(wired, h.remote) && forall a :: a in h.remote ==> !IsLocal(h.remote[a])
  {
    hide Wires;
    forall a | a in h.remote
      ensures !Wires(wired, a)
    {
      assert SameLocally(wired, h.local, a);
    }
  }

  lemma RebuiltIff(wired: seq<Wiring>, h: Halves)
    requires Apart(h) && DistinctAddresses(wired)
    ensures WithRemote(Rewired(map[], wired), h.remote) == Merge(h)
       <==> forall a :: a !in h.remote ==> SameLocally(wired, h.local, a)
  {
    hide Wires, Recorded, Rewired, SameLocally, Apart;
    var t := WithRemote(Rewired(map[], wired), h.remote);
    forall a
      ensures a in h.remote ==> a in t && t[a] == h.remote[a]
      ensures a !in h.remote ==> (SameLocally(wired, h.local, a) <==>
                                    (a in t <==> a in Merge(h)) && (a in t && a in Merge(h) ==> t[a] == Merge(h)[a]))
    {
      RebuiltAt(wired, h, a);
    }
    if forall a :: a !in h.remote ==> SameLocally(wired, h.local, a) {
      assert t.Keys == Merge(h).Keys;
    }
  }

  lemma RebuiltAt(wired: seq<Wiring>, h: Halves, a: Addr)
    requires Apart(h) && DistinctAddresses(wired)
    ensures var t := WithRemote(Rewired(map[], wired), h.remote);
            && (a in h.remote ==> a in t && t[a] == h.remote[a])
            && (a !in h.remote ==>
                  (SameLocally(wired, h.local, a) <==>
                     (a in t <==> a in Merge(h)) && (a in t && a in Merge(h) ==> t[a] == Merge(h)[a])))
  {
    hide Recorded;
    var empty: Table := map[];
    assert WithLiveOnly(empty, WiredIndices(wired)) == empty;
    RecordedAt(empty, wired, a);
  }

  // ---------------------------------------------------------------------------------------------
  // The calls.
  // ---------------------------------------------------------------------------------------------

  class Helper {
    const fwd: Forwarder
    const node: A.Node

    ghost predicate Valid()
      reads this, fwd, node
    {
      fwd.Valid() && node.Valid()
    }

    ghost predicate Sound()
      reads this, fwd, node
    {
      Valid() && Delivers(fwd.table, node.devices)
    }

    constructor (fwd: Forwarder, node: A.Node)
      requires fwd.Valid() && node.Valid()
      ensures Valid() && this.fwd == fwd && this.node == node
    {
      this.fwd, this.node := fwd, node;
    }

    /** The table's own deletions, each a step of this process. */
    method ForgetEntries(index: nat, faults: Faults) returns (alive: bool)
      requires Valid()
      modifies fwd, node`held, node`open, node`lifetime
      ensures Valid() && Shrunk(old(fwd.table), fwd.table, LetGo(old(fwd.table), index, faults))
      ensures if alive then
                fwd.table == old(fwd.table) - LetGo(old(fwd.table), index, faults) && node.held == old(node.held)
              else node.lifetime == 0
    {
      hide A.Node.HeldMatch, A.Node.Kernel;
      var left;
      alive, left := fwd.Forget(index, faults, node.lifetime);
      node.lifetime := left;
      if !alive {
        node.Close();
      }
    }

    /** forget: the address entries first, while the interface can still be named, then the
        attachment; an error of either is passed over. */
    method Forget(iface: Iface, faults: LinkFaults) returns (alive: bool)
      requires Valid()
      modifies fwd, node`pins, node`held, node`open, node`lifetime
      ensures Valid() && A.OnlyAt(old(node.pins), node.pins, iface)
      ensures if iface in node.devices
              then Shrunk(old(fwd.table), fwd.table, LetGo(old(fwd.table), node.devices[iface], faults.entries))
              else fwd.table == old(fwd.table)
      ensures alive && iface in node.devices ==>
                fwd.table == old(fwd.table) - LetGo(old(fwd.table), node.devices[iface], faults.entries)
      ensures alive && faults.unpin && (faults.load || iface in old(node.held)) ==> iface !in node.pins
      ensures !alive ==> node.lifetime == 0
    {
      hide A.Node.HeldMatch, A.Node.Kernel, LetGo, OnInterface;
      if iface in node.devices {
        Unshrunk(fwd.table, LetGo(fwd.table, node.devices[iface], faults.entries));
      }
      alive := node.Step();
      if !alive {
        Unshrunk(fwd.table, {});
        return;
      }
      if iface in node.devices {
        alive := ForgetEntries(node.devices[iface], faults.entries);
        if !alive {
          return;
        }
      }
      alive := node.Unpin(iface, faults.load, faults.unpin);
    }

    /** Deletes one interface, if the process lives to do it and the kernel lets it. */
    method DeleteLink(iface: Iface, granted: bool) returns (alive: bool)
      requires Valid()
      modifies node`devices, node`links, node`held, node`open, node`lifetime
      ensures Valid() && node.devices == if alive && granted then old(node.devices) - {iface} else old(node.devices)
      ensures !alive ==> node.lifetime == 0
    {
      hide A.Node.HeldMatch, A.Node.Kernel;
      alive := node.Step();
      if alive && granted && iface in node.devices {
        node.DeleteDevice(iface);
      }
    }

    /** TeardownWorkloadNetwork. From a table that delivers, every step leaves one that delivers,
        with one exception, exactly: the interface was deleted while an entry of it was held back
        by the kernel, whose error is discarded. */
    method Teardown(iface: Iface, faults: LinkFaults) returns (alive: bool)
      requires Valid()
      modifies fwd, node`devices, node`links, node`pins, node`held, node`open, node`lifetime
      ensures Valid()
      ensures old(Sound()) ==>
                (Sound() <==> !(&& alive && faults.delete && iface in old(node.devices)
                                && HeldBack(old(fwd.table), old(node.devices)[iface], faults.entries) != {}))
      ensures node.devices == if alive && faults.delete then old(node.devices) - {iface} else old(node.devices)
      ensures alive && iface in old(node.devices) ==>
                fwd.table == old(fwd.table) - LetGo(old(fwd.table), old(node.devices)[iface], faults.entries)
      ensures !alive ==> node.lifetime == 0
    {
      hide A.Node.HeldMatch, Delivers, LetGo, OnInterface, HeldBack, Shrunk, A.OnlyAt;
      alive := Forget(iface, faults);
      ghost var table, devices := fwd.table, node.devices;
      if old(Sound()) && iface in devices {
        DeletionKeepsDelivery(old(fwd.table), table, LetGo(old(fwd.table), devices[iface], faults.entries), devices);
        DeviceMayGoIff(table, devices, iface);
        ForgottenLeaves(old(fwd.table), devices[iface], faults.entries);
      }
      if alive {
        alive := DeleteLink(iface, faults.delete);
        assert iface !in devices ==> devices - {iface} == devices;
      }
    }

    /** The first half of GC: every interface not kept leaves the datapath, as far as it can. */
    method ForgetAll(gone: set<Iface>, faults: Iface -> LinkFaults) returns (alive: bool)
      requires Valid() && gone <= node.devices.Keys
      modifies fwd, node`pins, node`held, node`open, node`lifetime
      ensures Valid() && Shrunk(old(fwd.table), fwd.table, Removable(old(fwd.table), node.devices, gone, faults))
      ensures alive ==> fwd.table == old(fwd.table) - Removable(old(fwd.table), node.devices, gone, faults)
      ensures !alive ==> node.lifetime == 0
    {
      hide A.Node.Valid, Forwarder.Valid, Shrunk, Removable, LetGo, A.OnlyAt;
      alive := true;
      var todo := gone;
      ghost var t0, devices := fwd.table, node.devices;
      NothingRemovable(t0, devices, faults);
      Unshrunk(t0, Removable(t0, devices, gone, faults));
      assert gone - todo == {};
      while todo != {}
        invariant Valid() && alive && todo <= gone
        invariant fwd.table == t0 - Removable(t0, devices, gone - todo, faults)
        invariant Shrunk(t0, fwd.table, Removable(t0, devices, gone, faults))
      {
        var n :| n in todo;
        ghost var before := fwd.table;
        alive := Forget(n, faults(n));
        ForgottenInTurn(t0, devices, gone, todo, faults, n, before, fwd.table);
        if !alive {
          return;
        }
        assert gone - (todo - {n}) == gone - todo + {n};
        todo := todo - {n};
      }
      assert gone - {} == gone;
    }

    /** The second half of GC: the interfaces themselves, each if the kernel lets it. */
    method DeleteAll(gone: set<Iface>, faults: Iface -> LinkFaults) returns (alive: bool)
      requires Valid()
      modifies node`devices, node`links, node`held, node`open, node`lifetime
      ensures Valid()
      ensures forall n :: n in node.devices ==> n in old(node.devices) && node.devices[n] == old(node.devices)[n]
      ensures forall n :: n in old(node.devices) && n !in Deletable(gone, faults) ==> n in node.devices
      ensures alive ==> node.devices == old(node.devices) - Deletable(gone, faults)
      ensures !alive ==> node.lifetime == 0
    {
      hide A.Node.HeldMatch, A.Node.Kernel;
      alive := true;
      var todo := gone;
      while todo != {}
        invariant Valid() && alive && todo <= gone
        invariant node.devices.Keys <= old(node.devices).Keys
        invariant forall n :: n in node.devices ==> node.devices[n] == old(node.devices)[n]
        invariant forall n :: n in old(node.devices) && n !in Deletable(gone, faults) ==> n in node.devices
        invariant forall n :: n in node.devices && n in Deletable(gone, faults) ==> n in todo
      {
        var n :| n in todo;
        alive := DeleteLink(n, faults(n).delete);
        if !alive {
          return;
        }
        todo := todo - {n};
      }
    }

    /** GC: everything this helper wired and the agent does not name, out of the datapath first and
        then off the node. A finished collection delivers if and only if no entry was held back
        behind an interface that went; if none is, every step delivers. */
    method GC(keep: set<nat>, readWired: bool, readPresent: bool, faults: Iface -> LinkFaults) returns (alive: bool)
      requires Valid()
      modifies fwd, node`devices, node`links, node`pins, node`held, node`open, node`lifetime
      ensures Valid()
      ensures var gone := Unwanted(old(node.devices), keep);
              && Shrunk(old(fwd.table), fwd.table, Removable(old(fwd.table), old(node.devices), gone, faults))
              && (old(Sound()) && NoneHeldBack(old(fwd.table), old(node.devices), gone, faults) ==> Sound())
              && (alive && readWired && readPresent ==>
                    && node.devices == old(node.devices) - Deletable(gone, faults)
                    && fwd.table == old(fwd.table) - Removable(old(fwd.table), old(node.devices), gone, faults)
                    && (old(Sound()) ==>
                          (Sound() <==> NoneHeldBack(old(fwd.table), old(node.devices), gone, faults))))
      ensures !alive ==> node.lifetime == 0
    {
      hide A.Node.HeldMatch, A.Node.Kernel, Delivers, Removable, Shrunk, NoneHeldBack, A.OnlyAt, DistinctIndices;
      var gone := Unwanted(node.devices, keep);
      Unshrunk(fwd.table, Removable(fwd.table, node.devices, gone, faults));
      if !readWired {
        return true;
      }
      KernelDistinct();
      alive := ForgetAll(gone, faults);
      if old(Sound()) {
        DeletionKeepsDelivery(old(fwd.table), fwd.table, Removable(old(fwd.table), node.devices, gone, faults),
                              node.devices);
        CollectedDeliversIff(old(fwd.table), node.devices, gone, faults);
      }
      if !alive || !readPresent {
        return;
      }
      alive := DeleteAll(gone, faults);
      if old(Sound()) {
        MoreDevicesDeliver(fwd.table, old(node.devices) - Deletable(gone, faults), node.devices);
      }
    }

    lemma KernelDistinct()
      requires Valid()
      ensures DistinctIndices(node.devices)
    {
    }

    /** The wiring list is what the node has: every entry names a present interface by its index. */
    ghost predicate Describes(wired: seq<Wiring>)
      reads this, node
    {
      forall i :: 0 <= i < |wired| ==> wired[i].iface in node.devices && node.devices[wired[i].iface] == wired[i].index
    }

    /** Puts one wired interface back: its program, then its address. */
    method RestoreOne(w: Wiring, answers: A.Answers) returns (alive: bool, ok: bool)
      requires Valid() && w.iface in node.devices && node.devices[w.iface] == w.index
      modifies fwd, node`links, node`pins, node`nextLink, node`held, node`open, node`lifetime
      ensures Valid() && (ok ==> alive && node.WellAttached(w.iface))
      ensures A.OnlyAt(old(node.pins), node.pins, w.iface)
      ensures A.LinksKept(old(node.links), node.links, A.Pinned(old(node.pins), w.iface))
      ensures old(Delivers(fwd.table, node.devices)) ==> Delivers(fwd.table, node.devices)
      ensures ok ==> fwd.table == Recorded(old(fwd.table), [w])
      ensures old(fwd.table).Keys <= fwd.table.Keys && (!alive ==> node.lifetime == 0)
      ensures alive && !ok ==> !A.Granted(answers) || |fwd.table.Keys| == MAX_WORKLOADS
    {
      hide A.Node.HeldMatch, A.Node.Kernel, A.OnlyAt, A.LinksKept, A.Granted, A.Pinned, Delivers;
      RecordOneDelivers(fwd.table, w, node.devices);
      ok := false;
      assert Recorded(fwd.table, [w][..0]) == fwd.table;
      var attached := node.Attach(w.iface, answers);
      alive := attached != A.Died;
      if attached != A.Attached {
        return;
      }
      if w.address.None? {
        return true, true;
      }
      alive := AliveStep(w.iface);
      if alive {
        ok := fwd.Local(w.address.value, w.index);
      }
    }

    /** A step that leaves an attachment as it is. */
    method AliveStep(iface: Iface) returns (alive: bool)
      requires Valid() && node.WellAttached(iface)
      modifies node`held, node`open, node`lifetime
      ensures Valid() && node.WellAttached(iface) && (!alive ==> node.lifetime == 0)
    {
      hide A.Node.HeldMatch, A.Node.Kernel;
      alive := node.Step();
      node.PinnedIsAlone(iface);
    }

    /** Whether each interface of the list is attached as it should be. */
    ghost predicate AllAttached(wired: seq<Wiring>)
      reads this, node
    {
      forall i :: 0 <= i < |wired| ==> node.WellAttached(wired[i].iface)
    }

    /** Attaching one interface leaves every other well attached. */
    twostate lemma AttachmentKept(new wired: seq<Wiring>, iface: Iface)
      requires old(Valid()) && Valid() && old(AllAttached(wired)) && node.WellAttached(iface)
      requires node.devices == old(node.devices) && A.OnlyAt(old(node.pins), node.pins, iface)
      requires A.LinksKept(old(node.links), node.links, A.Pinned(old(node.pins), iface))
      requires node.program == old(node.program) && node.programL3 == old(node.programL3)
      requires node.tunnelL3 == old(node.tunnelL3)
      ensures AllAttached(wired)
    {
      forall i | 0 <= i < |wired|
        ensures node.WellAttached(wired[i].iface)
      {
        var n := wired[i].iface;
        assert old(node.WellAttached(n));
        if n != iface {
          node.PinnedIsAlone(n);
        }
      }
    }

    /** The last loop of Rewire. */
    method RestoreAll(wired: seq<Wiring>, answers: Iface -> A.Answers) returns (alive: bool, ok: bool)
      requires Valid() && Describes(wired)
      modifies fwd, node`links, node`pins, node`nextLink, node`held, node`open, node`lifetime
      ensures Valid() && (ok ==> alive)
      ensures old(Delivers(fwd.table, node.devices)) ==> Delivers(fwd.table, node.devices)
      ensures ok ==> fwd.table == Recorded(old(fwd.table), wired) && AllAttached(wired)
      ensures !alive ==> node.lifetime == 0
      ensures alive && !ok ==> !AllGranted(wired, answers) || |fwd.table.Keys| == MAX_WORKLOADS
    {
      hide A.Node.WellAttached, A.OnlyAt, A.LinksKept, A.Node.Valid, Delivers, A.Granted, A.Pinned;
      alive, ok := true, true;
      for i := 0 to |wired|
        invariant Valid() && alive
        invariant old(Delivers(fwd.table, node.devices)) ==> Delivers(fwd.table, node.devices)
        invariant ok ==> fwd.table == Recorded(old(fwd.table), wired[..i]) && AllAttached(wired[..i])
        invariant !ok ==> !AllGranted(wired, answers) || |fwd.table.Keys| == MAX_WORKLOADS
      {
        label before:
        var done: bool;
        ghost var keys := fwd.table.Keys;
        alive, done := RestoreOne(wired[i], answers(wired[i].iface));
        SubsetSize(keys, fwd.table.Keys);
        if !alive {
          return false, false;
        }
        ok := ok && done;
        if ok {
          AttachmentKept@before(wired[..i], wired[i].iface);
          RecordedLast(old(fwd.table), wired, i);
          assert wired[..i + 1] == wired[..i] + [wired[i]];
        }
      }
      assert wired[..|wired|] == wired;
    }

    method ReclaimEntries(wired: seq<Wiring>, faults: Faults) returns (alive: bool, ok: bool)
      requires Valid()
      modifies fwd, node`held, node`open, node`lifetime
      ensures Valid() && Shrunk(old(fwd.table), fwd.table, StaleEntries(old(fwd.table), wired))
      ensures if alive then fwd.table == Reclaimed(old(fwd.table), wired, faults) else node.lifetime == 0
      ensures alive ==> (ok <==> !faults.iterate && StaleHeldBack(old(fwd.table), wired, faults) == {})
      ensures ok ==> fwd.table == WithLiveOnly(old(fwd.table), WiredIndices(wired))
    {
      hide A.Node.HeldMatch, A.Node.Kernel, OffLive, WithLiveOnly, Shrunk, WiredIndices, Reclaimed, StaleHeldBack;
      var left;
      StaleAre(fwd.table, wired, faults);
      alive, left, ok := fwd.ReclaimLocal(WiredIndices(wired), faults, node.lifetime);
      node.lifetime := left;
      if !alive {
        node.Close();
      }
      ghost var stale := StaleEntries(old(fwd.table), wired);
      MayShrinkMore(old(fwd.table), fwd.table, stale - faults.deletes, stale);
    }

    /** Rewire: reclaim what the node no longer has, then restore what it has. From any table it
        finishes with one that delivers if the stale entries could be removed; when every call is
        granted it is exactly the rebuilt one, and when only removals were refused it is the rebuilt
        one over what was held back. */
    method Rewire(wired: seq<Wiring>, answers: Iface -> A.Answers, tunnel: bool, faults: RewireFaults)
      returns (alive: bool, restored: bool, ok: bool)
      requires Valid() && Describes(wired)
      modifies fwd, node`links, node`pins, node`nextLink, node`held, node`open, node`lifetime
      ensures Valid() && (old(Sound()) ==> Sound()) && (ok ==> restored) && (restored ==> alive)
      ensures alive && StaleHeldBack(old(fwd.table), wired, faults.entries) == {} ==> Sound()
      ensures restored ==>
                && fwd.table == Recorded(Reclaimed(old(fwd.table), wired, faults.entries), wired)
                && AllAttached(wired)
                && (Sound() <==> HarmlesslyHeldBack(old(fwd.table), wired, faults.entries, node.devices))
      ensures ok ==> fwd.table == Rewired(old(fwd.table), wired)
      ensures alive && !ok ==>
                || !AllGranted(wired, answers) || |fwd.table.Keys| == MAX_WORKLOADS || !faults.readDir
                || faults.entries.iterate || StaleHeldBack(old(fwd.table), wired, faults.entries) != {}
      ensures !alive ==> node.lifetime == 0
    {
      hide A.Node.WellAttached, A.Node.HeldMatch, A.Node.Kernel, Recorded, Delivers, Shrunk, AllGranted, StaleHeldBack,
        Reclaimed, HarmlesslyHeldBack;
      restored, ok := false, false;
      var names := set w | w in wired :: w.iface;
      alive := node.ReclaimPins(names, A.Uplink, if tunnel then Some(A.Tunnel) else None, faults.readDir,
        faults.unloadable, faults.stuck);
      if !alive {
        return;
      }
      var whole: bool;
      alive, whole := ReclaimEntries(wired, faults.entries);
      if old(Sound()) {
        DeletionKeepsDelivery(old(fwd.table), fwd.table, StaleEntries(old(fwd.table), wired), node.devices);
      }
      if !alive {
        return;
      }
      ReclaimedDelivers(old(fwd.table), wired, faults.entries, node.devices);
      RewiredDeliversIff(old(fwd.table), wired, faults.entries, node.devices);
      alive, restored := RestoreAll(wired, answers);
      ok := restored && faults.readDir && whole;
    }
  }

  /** The kernel grants every call an attachment of a wired interface makes. */
  predicate AllGranted(wired: seq<Wiring>, answers: Iface -> A.Answers) {
    forall w :: w in wired ==> A.Granted(answers(w.iface))
  }

  /** The local entries of interfaces that are not wired. */
  function StaleEntries(t: Table, wired: seq<Wiring>): set<Addr> {
    OffLive(t, WiredIndices(wired))
  }

  /** The table after reclaiming them, with what the kernel refuses, and those that stay. */
  function Reclaimed(t: Table, wired: seq<Wiring>, faults: Faults): Table {
    if faults.iterate then t else t - (StaleEntries(t, wired) - faults.deletes)
  }

  function StaleHeldBack(t: Table, wired: seq<Wiring>, faults: Faults): set<Addr> {
    if faults.iterate then StaleEntries(t, wired) else StaleEntries(t, wired) * faults.deletes
  }

  lemma StaleAre(t: Table, wired: seq<Wiring>, faults: Faults)
    ensures var stale := OffLive(t, WiredIndices(wired));
            && stale == StaleEntries(t, wired)
            && Reclaimed(t, wired, faults) == (if faults.iterate then t else t - (stale - faults.deletes))
            && (!faults.iterate ==> (StaleHeldBack(t, wired, faults) == {} <==> stale !! faults.deletes))
            && (!faults.iterate && stale !! faults.deletes ==>
                  Reclaimed(t, wired, faults) == WithLiveOnly(t, WiredIndices(wired)))
  {
    hide OffLive, WiredIndices, WithLiveOnly;
    var stale := OffLive(t, WiredIndices(wired));
    RemovalsAre(t, 0, WiredIndices(wired));
    if stale !! faults.deletes {
      assert stale * faults.deletes == {} && stale - faults.deletes == stale;
    } else {
      var a :| a in stale && a in faults.deletes;
      assert a in stale * faults.deletes;
    }
  }

  lemma MayShrinkMore(t: Table, now: Table, less: set<Addr>, more: set<Addr>)
    requires Shrunk(t, now, less) && less <= more
    ensures Shrunk(t, now, more)
  {
  }

  lemma ReclaimedDelivers(t: Table, wired: seq<Wiring>, faults: Faults, devices: map<Iface, nat>)
    requires forall i :: 0 <= i < |wired| ==> wired[i].iface in devices && devices[wired[i].iface] == wired[i].index
    ensures StaleHeldBack(t, wired, faults) == {} ==> Delivers(Reclaimed(t, wired, faults), devices)
  {
    if StaleHeldBack(t, wired, faults) == {} {
      var left := Reclaimed(t, wired, faults);
      forall a | a in left && IsLocal(left[a])
        ensures left[a].ifindex in Indices(devices)
      {
        assert a !in StaleHeldBack(t, wired, faults);
        assert a !in StaleEntries(t, wired);
        var w :| w in wired && w.index == left[a].ifindex;
        var i :| 0 <= i < |wired| && wired[i] == w;
      }
    }
  }

  /** Recording over entries that were held back delivers if and only if each of them is on a
      present interface or is overwritten. */
  lemma RecordedDeliversIff(t: Table, wired: seq<Wiring>, devices: map<Iface, nat>)
    requires forall i :: 0 <= i < |wired| ==> wired[i].iface in devices && devices[wired[i].iface] == wired[i].index
    ensures Delivers(Recorded(t, wired), devices)
       <==> forall a :: a in t && IsLocal(t[a]) && !Wires(wired, a) ==> t[a].ifindex in Indices(devices)
  {
    hide Recorded, Wires, Indices;
    forall a: Addr
      ensures Wires(wired, a) ==> a in Recorded(t, wired) && Recorded(t, wired)[a].ifindex in Indices(devices)
      ensures !Wires(wired, a) ==> (a in Recorded(t, wired) <==> a in t)
      ensures !Wires(wired, a) && a in t ==> Recorded(t, wired)[a] == t[a]
    {
      RecordedAt(t, wired, a);
      if Wires(wired, a) {
        var i :| 0 <= i < |wired| && a in Recorded(t, wired) && Recorded(t, wired)[a] == Entry(0, wired[i].index, 0);
        PresentIndex(devices, wired[i].iface);
      }
    }
  }

  /** Every stale entry that stays is overwritten or is on a present interface after all. */
  ghost predicate HarmlesslyHeldBack(t: Table, wired: seq<Wiring>, faults: Faults, devices: map<Iface, nat>) {
    forall a :: a in t && a in StaleHeldBack(t, wired, faults) && !Wires(wired, a) ==> t[a].ifindex in Indices(devices)
  }

  lemma RewiredDeliversIff(t: Table, wired: seq<Wiring>, faults: Faults, devices: map<Iface, nat>)
    requires forall i :: 0 <= i < |wired| ==> wired[i].iface in devices && devices[wired[i].iface] == wired[i].index
    ensures Delivers(Recorded(Reclaimed(t, wired, faults), wired), devices)
       <==> HarmlesslyHeldBack(t, wired, faults, devices)
  {
    hide Recorded, Wires, Indices, Delivers;
    RecordedDeliversIff(Reclaimed(t, wired, faults), wired, devices);
    forall a | a in t && IsLocal(t[a]) && a !in StaleEntries(t, wired)
      ensures t[a].ifindex in Indices(devices)
    {
      var w :| w in wired && w.index == t[a].ifindex;
      var i :| 0 <= i < |wired| && wired[i] == w;
      PresentIndex(devices, w.iface);
    }
  }

  lemma PresentIndex(devices: map<Iface, nat>, n: Iface)
    requires n in devices
    ensures devices[n] in Indices(devices)
  {
  }

  /** What the kernel refuses during a rewire. */
  datatype RewireFaults = RewireFaults(readDir: bool, unloadable: set<Iface>, stuck: set<Iface>, entries: Faults)

  /** What the kernel refuses while an interface is taken down: false is a refusal. */
  datatype LinkFaults = LinkFaults(entries: Faults, load: bool, unpin: bool, delete: bool)

  /** The entries the kernel lets go when these interfaces are forgotten. */
  ghost function Removable(t: Table, devices: map<Iface, nat>, gone: set<Iface>, faults: Iface -> LinkFaults):
    set<Addr>
  {
    set a | a in t && exists n :: n in gone && n in devices && a in OnInterface(t, devices[n])
                                  && !faults(n).entries.iterate && a !in faults(n).entries.deletes
  }

  /** The interfaces the kernel lets go. */
  ghost function Deletable(gone: set<Iface>, faults: Iface -> LinkFaults): set<Iface> {
    set n | n in gone && faults(n).delete
  }

  lemma NothingRemovable(t: Table, devices: map<Iface, nat>, faults: Iface -> LinkFaults)
    ensures t - Removable(t, devices, {}, faults) == t
  {
  }

  ghost predicate DistinctIndices(devices: map<Iface, nat>) {
    forall m, n :: m in devices && n in devices && devices[m] == devices[n] ==> m == n
  }

  /** Forgetting interfaces one after the other removes what each lets go, at every step. */
  lemma ForgottenInTurn(t: Table, devices: map<Iface, nat>, gone: set<Iface>, todo: set<Iface>,
                        faults: Iface -> LinkFaults, n: Iface, before: Table, after: Table)
    requires n in todo && todo <= gone && n in devices
    requires before == t - Removable(t, devices, gone - todo, faults)
    requires Shrunk(before, after, LetGo(before, devices[n], faults(n).entries))
    ensures after == before - LetGo(before, devices[n], faults(n).entries) ==>
              after == t - Removable(t, devices, gone - todo + {n}, faults)
    ensures Shrunk(t, after, Removable(t, devices, gone, faults))
  {
  }

  /** The wired interfaces the agent does not name. */
  function Unwanted(devices: map<Iface, nat>, keep: set<nat>): set<Iface> {
    set n | n in devices && n.Veth? && n.workload !in keep
  }

  /** No entry stays behind an interface that goes. */
  ghost predicate NoneHeldBack(t: Table, devices: map<Iface, nat>, gone: set<Iface>, faults: Iface -> LinkFaults) {
    forall n :: n in Deletable(gone, faults) && n in devices ==> HeldBack(t, devices[n], faults(n).entries) == {}
  }

  lemma MoreDevicesDeliver(t: Table, fewer: map<Iface, nat>, more: map<Iface, nat>)
    requires fewer.Keys <= more.Keys && forall n :: n in fewer ==> more[n] == fewer[n]
    ensures Delivers(t, fewer) ==> Delivers(t, more)
  {
  }

  lemma CollectedDeliversIff(t: Table, devices: map<Iface, nat>, gone: set<Iface>, faults: Iface -> LinkFaults)
    requires Delivers(t, devices) && DistinctIndices(devices) && gone <= devices.Keys
    ensures Delivers(t - Removable(t, devices, gone, faults), devices - Deletable(gone, faults))
       <==> NoneHeldBack(t, devices, gone, faults)
  {
    var left, rest := t - Removable(t, devices, gone, faults), devices - Deletable(gone, faults);
    if NoneHeldBack(t, devices, gone, faults) {
      forall a | a in left && IsLocal(left[a])
        ensures left[a].ifindex in Indices(rest)
      {
        var n :| n in devices && devices[n] == t[a].ifindex;
        assert n in gone ==> a in HeldBack(t, devices[n], faults(n).entries);
        assert n in rest && rest[n] == left[a].ifindex;
      }
    } else {
      var n :| n in Deletable(gone, faults) && n in devices && HeldBack(t, devices[n], faults(n).entries) != {};
      var a :| a in HeldBack(t, devices[n], faults(n).entries);
      assert a in left && left[a].ifindex !in Indices(rest);
    }
  }

  lemma RecordedLast(t: Table, wired: seq<Wiring>, i: nat)
    requires i < |wired|
    ensures Recorded(t, wired[..i + 1]) == Recorded(Recorded(t, wired[..i]), [wired[i]])
  {
    assert wired[..i + 1][..i] == wired[..i];
    assert [wired[i]][..0] == [];
  }

  lemma RecordOneDelivers(t: Table, w: Wiring, devices: map<Iface, nat>)
    requires w.iface in devices && devices[w.iface] == w.index
    ensures Delivers(t, devices) ==> Delivers(Recorded(t, [w]), devices)
  {
  }
}
