/** The forwarding table: one kernel map with a local half, written where a workload is wired, and
    a remote half, replaced by each push of the control plane. */
module Forward {

  import opened Wrappers
  import opened Maths

  /** An IPv4 address; zero is 0.0.0.0. */
  type Addr = a: nat | a < 0x1_0000_0000

  datatype Entry = Entry(node: Addr, ifindex: nat, flags: nat)

  type Table = map<Addr, Entry>

  const MAX_WORKLOADS: nat := 65536
  const WORKLOAD_TUNNEL: nat := 1

  /** An entry with no node is an address behind an interface of this node. */
  predicate IsLocal(e: Entry) {
    e.node == 0
  }

  // ---------------------------------------------------------------------------------------------
  // What each operation means.
  // ---------------------------------------------------------------------------------------------

  function WithLocal(t: Table, a: Addr, ifindex: nat): Table {
    t[a := Entry(0, ifindex, 0)]
  }

  function WithoutInterface(t: Table, ifindex: nat): Table {
    map a | a in t && !(IsLocal(t[a]) && t[a].ifindex == ifindex) :: t[a]
  }

  function WithLiveOnly(t: Table, keep: set<nat>): Table {
    map a | a in t && !(IsLocal(t[a]) && t[a].ifindex !in keep) :: t[a]
  }

  /** The local entries behind one interface. */
  function OnInterface(t: Table, ifindex: nat): set<Addr> {
    set a | a in t && IsLocal(t[a]) && t[a].ifindex == ifindex
  }

  /** The local entries behind interfaces that are not kept. */
  function OffLive(t: Table, keep: set<nat>): set<Addr> {
    set a | a in t && IsLocal(t[a]) && t[a].ifindex !in keep
  }

  /** The remote entries a push does not want. */
  function UnwantedRemote(t: Table, want: Table): set<Addr> {
    set a | a in t && !IsLocal(t[a]) && a !in want
  }

  /** Without faults, forgetting and reclaiming are what the algebra below says. */
  lemma RemovalsAre(t: Table, ifindex: nat, keep: set<nat>)
    ensures t - OnInterface(t, ifindex) == WithoutInterface(t, ifindex)
    ensures t - OffLive(t, keep) == WithLiveOnly(t, keep)
  {
  }

  /** What the kernel refuses: walking the map, or deleting these entries. */
  datatype Faults = Faults(iterate: bool, deletes: set<Addr>)

  /** A push: the local entries it does not name, and exactly what it wants. */
  function WithRemote(t: Table, want: Table): Table {
    (map a | a in t && IsLocal(t[a]) && a !in want :: t[a]) + want
  }

  // ---------------------------------------------------------------------------------------------
  // The pushed request.
  // ---------------------------------------------------------------------------------------------

  /** What parsing a route's destination and node gave. */
  datatype Prefix = BadPrefix | Prefix6 | Prefix4(address: Addr, bits: nat)
  datatype Node = NoNode | BadNode | Node6 | Node4(address: Addr)
  datatype Route = Route(cidr: Prefix, node: Node)

  predicate Refused(r: Route) {
    || !(r.cidr.Prefix4? && r.cidr.bits == 32)
    || r.node.BadNode? || r.node.Node6?
  }

  /** A route that is stored: it names another node. */
  predicate Foreign(r: Route, mine: set<Addr>) {
    !Refused(r) && r.node.Node4? && r.node.address !in mine
  }

  /** The last foreign route naming the address decides. */
  function NodeFor(routes: seq<Route>, mine: set<Addr>, a: Addr): Option<Addr> {
    if routes == [] then None
    else
      var r := routes[|routes| - 1];
      if Foreign(r, mine) && r.cidr.address == a then Some(r.node.address)
      else NodeFor(routes[..|routes| - 1], mine, a)
  }

  // ---------------------------------------------------------------------------------------------
  // The object.
  // ---------------------------------------------------------------------------------------------

  class Forwarder {
    var table: Table
    const uplinkIndex: nat
    /** The tunnel device's index, absent in native mode. */
    const tunnelIndex: Option<nat>

    ghost predicate Valid()
      reads this
    {
      |table.Keys| <= MAX_WORKLOADS
    }

    constructor (uplinkIndex: nat, tunnelIndex: Option<nat>)
      ensures Valid() && table == map[] && this.uplinkIndex == uplinkIndex && this.tunnelIndex == tunnelIndex
    {
      this.uplinkIndex, this.tunnelIndex, table := uplinkIndex, tunnelIndex, map[];
    }

    /** The entry every remote address gets: the same egress, the pushed node. */
    function RemoteEntry(node: Addr): Entry {
      if tunnelIndex.Some? then Entry(node, tunnelIndex.value, WORKLOAD_TUNNEL) else Entry(node, uplinkIndex, 0)
    }

    function RemoteTable(nodes: map<Addr, Addr>): Table {
      map a | a in nodes :: RemoteEntry(nodes[a])
    }

    /** A kernel write: taken when the key is present or there is room. */
    method Update(a: Addr, e: Entry) returns (ok: bool)
      requires Valid()
      modifies this
      ensures Valid() && (ok <==> a in old(table) || |old(table).Keys| < MAX_WORKLOADS)
      ensures table == if ok then old(table)[a := e] else old(table)
    {
      ok := a in table || |table.Keys| < MAX_WORKLOADS;
      if ok {
        assert table[a := e].Keys == table.Keys + {a};
        table := table[a := e];
      }
    }

    /** The keys a predicate selects, collected before anything is deleted. */
    method Entries(match_: (Addr, Entry) -> bool) returns (out: set<Addr>)
      ensures out == set a | a in table && match_(a, table[a])
    {
      out := {};
      var todo := table.Keys;
      while todo != {}
        invariant todo <= table.Keys
        invariant out == set a | a in table && a !in todo && match_(a, table[a])
      {
        var a :| a in todo;
        if match_(a, table[a]) {
          out := out + {a};
        }
        todo := todo - {a};
      }
    }

    /** One delete per step; a refused one is passed over. */
    method DeleteAll(stale: set<Addr>, refused: set<Addr>, steps: nat) returns (alive: bool, left: nat)
      requires Valid()
      modifies this
      ensures Valid() && Shrunk(old(table), table, stale - refused)
      ensures alive ==> table == old(table) - (stale - refused)
      ensures alive == (steps >= |stale|) && left == if alive then steps - |stale| else 0
    {
      alive, left := true, steps;
      var todo := stale;
      while todo != {}
        invariant Valid() && alive && todo <= stale && left + |stale| == steps + |todo|
        invariant Shrunk(old(table), table, stale - refused)
        invariant forall a :: a in table && a in stale - refused ==> a in todo
      {
        var a :| a in todo;
        if left == 0 {
          return false, 0;
        }
        left := left - 1;
        if a !in refused {
          SubsetSize((table - {a}).Keys, table.Keys);
          table := table - {a};
        }
        todo := todo - {a};
      }
    }

    method Local(a: Addr, ifindex: nat) returns (ok: bool)
      requires Valid()
      modifies this
      ensures Valid() && (ok <==> a in old(table) || |old(table).Keys| < MAX_WORKLOADS)
      ensures table == if ok then WithLocal(old(table), a, ifindex) else old(table)
    {
      ok := Update(a, Entry(0, ifindex, 0));
    }

    /** Exactly the local entries of one interface go, as far as the kernel lets them; at every
        step nothing else has gone. */
    method Forget(ifindex: nat, faults: Faults, steps: nat) returns (alive: bool, left: nat)
      requires Valid()
      modifies this
      ensures Valid() && Shrunk(old(table), table, OnInterface(old(table), ifindex) - faults.deletes)
      ensures faults.iterate ==> table == old(table) && alive && left == steps
      ensures alive && !faults.iterate ==> table == old(table) - (OnInterface(old(table), ifindex) - faults.deletes)
      ensures alive == (faults.iterate || steps >= |OnInterface(old(table), ifindex)|) && (!alive ==> left == 0)
    {
      hide Shrunk;
      Unshrunk(table, OnInterface(table, ifindex) - faults.deletes);
      if faults.iterate {
        return true, steps;
      }
      var stale := Entries((_, e: Entry) => e.node == 0 && e.ifindex == ifindex);
      assert stale == OnInterface(table, ifindex);
      alive, left := DeleteAll(stale, faults.deletes, steps);
    }

    method ReclaimLocal(keep: set<nat>, faults: Faults, steps: nat) returns (alive: bool, left: nat, ok: bool)
      requires Valid()
      modifies this
      ensures Valid() && Shrunk(old(table), table, OffLive(old(table), keep) - faults.deletes)
      ensures faults.iterate ==> table == old(table) && alive && left == steps
      ensures alive && !faults.iterate ==> table == old(table) - (OffLive(old(table), keep) - faults.deletes)
      ensures alive == (faults.iterate || steps >= |OffLive(old(table), keep)|) && (!alive ==> left == 0)
      ensures ok <==> alive && !faults.iterate && OffLive(old(table), keep) !! faults.deletes
    {
      hide Shrunk;
      Unshrunk(table, OffLive(table, keep) - faults.deletes);
      if faults.iterate {
        return true, steps, false;
      }
      var stale := Entries((_, e: Entry) => if e.node != 0 then false else e.ifindex !in keep);
      assert stale == OffLive(table, keep);
      alive, left := DeleteAll(stale, faults.deletes, steps);
      ok := alive && stale !! faults.deletes;
    }

    /** The first loop of Routes: refuse the request whole, or decide each address. */
    static method Wanted(routes: seq<Route>, mine: set<Addr>) returns (want: Option<map<Addr, Addr>>)
      ensures want.None? <==> SomeRefused(routes)
      ensures want.Some? ==> Decides(routes, mine, want.value)
    {
      var nodes: map<Addr, Addr> := map[];
      for i := 0 to |routes|
        invariant forall j :: 0 <= j < i ==> !Refused(routes[j])
        invariant Decides(routes[..i], mine, nodes)
      {
        var r := routes[i];
        assert routes[..i + 1][..i] == routes[..i] && routes[..i + 1][i] == r;
        if !(r.cidr.Prefix4? && r.cidr.bits == 32) {
          return None;
        }
        if r.node.NoNode? {
          continue;
        }
        if !r.node.Node4? {
          return None;
        }
        if r.node.address in mine {
          continue;
        }
        nodes := nodes[r.cidr.address := r.node.address];
      }
      assert routes[..|routes|] == routes;
      want := Some(nodes);
    }

    /** The second loop: write every wanted entry, one per step. */
    method WriteRemote(want: Table, steps: nat) returns (alive: bool, ok: bool, left: nat)
      requires Valid()
      modifies this
      ensures Valid() && Overlaid(old(table), want, table)
      ensures alive ==> (ok <==> |old(table).Keys + want.Keys| <= MAX_WORKLOADS)
      ensures alive ==> forall a :: a in want && a in table ==> table[a] == want[a]
      ensures alive && ok ==> table == old(table) + want
      ensures alive == (steps >= |want.Keys|) && left == if alive then steps - |want.Keys| else 0
    {
      alive, ok, left := true, true, steps;
      ghost var all := table.Keys + want.Keys;
      var todo := want.Keys;
      while todo != {}
        invariant Valid() && alive && todo <= want.Keys && Overlaid(old(table), want, table)
        invariant left + |want.Keys| == steps + |todo|
        invariant ok ==> want.Keys - todo <= table.Keys
        invariant forall a :: a in want && a !in todo && a in table ==> table[a] == want[a]
        invariant !ok ==> |all| > MAX_WORKLOADS
      {
        var a :| a in todo;
        if left == 0 {
          return false, false, 0;
        }
        left := left - 1;
        var taken := Update(a, want[a]);
        if !taken {
          Overfull(table.Keys, a, all);
          ok := false;
        }
        todo := todo - {a};
      }
      if ok {
        assert table.Keys == all;
      }
    }

    /** Routes. Whatever the table held: at every step an unnamed local entry is untouched and a
        named address holds its old or its wanted entry. A finished push leaves the unnamed local
        entries, the wanted ones as far as they fit, and of the others only those whose deletion
        was refused; when all fits and nothing is refused it is exactly the replaced remote half. */
    method Routes(routes: seq<Route>, mine: set<Addr>, faults: Faults, steps: nat)
      returns (r: Push, ghost nodes: map<Addr, Addr>)
      requires Valid()
      modifies this
      ensures Valid()
      ensures !SomeRefused(routes) ==> Decides(routes, mine, nodes)
      ensures r.PushRefused? <==> SomeRefused(routes) || |nodes| > MAX_WORKLOADS
      ensures r.PushRefused? ==> table == old(table)
      ensures !r.PushRefused? ==> Underway(old(table), RemoteTable(nodes), table)
      ensures r.Partial? || r.Applied? ==> Finished(old(table), RemoteTable(nodes), faults, table)
      ensures r.Partial? || r.Applied? ==>
                (r.Applied? <==> && |old(table).Keys + nodes.Keys| <= MAX_WORKLOADS
                                 && Unobstructed(old(table), RemoteTable(nodes), faults))
      ensures r.Applied? ==> table == WithRemote(old(table), RemoteTable(nodes))
      ensures r.PushDied? <==>
              && !r.PushRefused?
              && steps < |nodes| + if faults.iterate then 0 else |UnwantedRemote(old(table), RemoteTable(nodes))|
    {
      hide WithRemote, Decides, Overlaid, Underway, Finished, Unobstructed, UnwantedRemote;
      var wanted := Wanted(routes, mine);
      nodes := map[];
      if wanted.None? {
        return PushRefused, nodes;
      }
      nodes := wanted.value;
      if |wanted.value| > MAX_WORKLOADS {
        return PushRefused, nodes;
      }
      var want := RemoteTable(wanted.value);
      assert want.Keys == nodes.Keys;
      var alive, ok, left := WriteRemote(want, steps);
      ghost var written := table;
      OverlaidIsUnderway(old(table), want, written);
      if !alive {
        return PushDied, nodes;
      }
      var swept: bool;
      alive, swept := SweepRemote(want, faults, left, old(table));
      if !alive {
        return PushDied, nodes;
      }
      SweptTable(old(table), want);
      r := if ok && swept then Applied else Partial;
    }

    /** The last loop: the remote entries the push does not want. */
    method SweepRemote(want: Table, faults: Faults, steps: nat, ghost before: Table) returns (alive: bool, ok: bool)
      requires Valid() && Overlaid(before, want, table) && Underway(before, want, table)
      modifies this
      ensures Valid() && Underway(before, want, table)
      ensures alive && (forall a :: a in want && a in old(table) ==> old(table)[a] == want[a]) ==>
                Finished(before, want, faults, table) && (ok <==> Unobstructed(before, want, faults))
      ensures alive && ok ==> table == old(table) - UnwantedRemote(old(table), want)
      ensures alive == (faults.iterate || steps >= |UnwantedRemote(before, want)|)
    {
      hide Overlaid, Underway, Finished, Unobstructed, Shrunk;
      if faults.iterate {
        if forall a :: a in want && a in table ==> table[a] == want[a] {
          UnsweptIsFinished(before, want, table, faults);
        }
        return true, false;
      }
      var stale := Entries((a, e: Entry) => if e.node == 0 then false else a !in want);
      assert stale == UnwantedRemote(table, want);
      SameUnwanted(before, want, table);
      ghost var written := table;
      var left: nat;
      alive, left := DeleteAll(stale, faults.deletes, steps);
      SweepKeepsUnderway(before, want, written, stale - faults.deletes, table);
      if alive && forall a :: a in want && a in written ==> written[a] == want[a] {
        SweptIsFinished(before, want, written, faults);
      }
      ok := stale !! faults.deletes;
      if ok {
        assert stale - faults.deletes == stale;
      }
    }
  }

  datatype Push = PushRefused | PushDied | Partial | Applied

  // ---------------------------------------------------------------------------------------------
  // States on the way.
  // ---------------------------------------------------------------------------------------------

  /** At most the given addresses have gone. */
  ghost predicate Shrunk(before: Table, now: Table, may: set<Addr>) {
    && (forall a :: a in now ==> a in before && now[a] == before[a])
    && (forall a :: a in before && a !in may ==> a in now)
  }

  /** At most wanted entries have been written. */
  ghost predicate Overlaid(before: Table, want: Table, now: Table) {
    && before.Keys <= now.Keys <= before.Keys + want.Keys
    && (forall a :: a in now ==> (a in want && now[a] == want[a]) || (a in before && now[a] == before[a]))
  }

  /** What any step of a push leaves: unnamed local entries, and each named address with its old or
      its wanted entry. */
  ghost predicate Underway(before: Table, want: Table, now: Table) {
    && (forall a :: a in now ==> (a in want && now[a] == want[a]) || (a in before && now[a] == before[a]))
    && (forall a :: a in before && (a in want || IsLocal(before[a])) ==> a in now)
  }

  /** What a finished push leaves. */
  ghost predicate Finished(before: Table, want: Table, faults: Faults, now: Table) {
    && (forall a :: a in want ==> (a in before ==> a in now) && (a in now ==> now[a] == want[a]))
    && (forall a :: a !in want ==>
          (a in now <==> a in before && (IsLocal(before[a]) || faults.iterate || a in faults.deletes)))
    && (forall a :: a in now && a !in want ==> now[a] == before[a])
  }

  /** No remote entry the push does not want is held back. */
  ghost predicate Unobstructed(before: Table, want: Table, faults: Faults) {
    !faults.iterate && forall a :: a in before && a !in want && a in faults.deletes ==> IsLocal(before[a])
  }

  lemma Unshrunk(t: Table, may: set<Addr>)
    ensures Shrunk(t, t, may)
  {
  }

  lemma OverlaidIsUnderway(before: Table, want: Table, now: Table)
    requires Overlaid(before, want, now)
    ensures Underway(before, want, now)
  {
  }

  lemma SweepKeepsUnderway(before: Table, want: Table, written: Table, may: set<Addr>, now: Table)
    requires Underway(before, want, written) && Shrunk(written, now, may)
    requires may <= UnwantedRemote(written, want)
    ensures Underway(before, want, now)
  {
  }

  lemma SameUnwanted(before: Table, want: Table, written: Table)
    requires Overlaid(before, want, written)
    ensures UnwantedRemote(written, want) == UnwantedRemote(before, want)
  {
  }

  lemma UnsweptIsFinished(before: Table, want: Table, written: Table, faults: Faults)
    requires Overlaid(before, want, written) && faults.iterate
    requires forall a :: a in want && a in written ==> written[a] == want[a]
    ensures Finished(before, want, faults, written) && !Unobstructed(before, want, faults)
  {
  }

  lemma SweptIsFinished(before: Table, want: Table, written: Table, faults: Faults)
    requires Overlaid(before, want, written) && !faults.iterate
    requires forall a :: a in want && a in written ==> written[a] == want[a]
    ensures Finished(before, want, faults, written - (UnwantedRemote(written, want) - faults.deletes))
    ensures Unobstructed(before, want, faults) <==> UnwantedRemote(written, want) !! faults.deletes
  {
  }

  ghost predicate SomeRefused(routes: seq<Route>) {
    exists i :: 0 <= i < |routes| && Refused(routes[i])
  }

  /** The nodes a request decides on, for every address. */
  ghost predicate Decides(routes: seq<Route>, mine: set<Addr>, nodes: map<Addr, Addr>) {
    forall a :: NodeFor(routes, mine, a) == if a in nodes then Some(nodes[a]) else None
  }

  lemma SweptTable(t: Table, want: Table)
    ensures (t + want) - UnwantedRemote(t + want, want) == WithRemote(t, want)
  {
  }

  lemma Overfull(keys: set<Addr>, a: Addr, all: set<Addr>)
    requires keys <= all && a in all && a !in keys
    ensures |keys| < |all|
  {
    SubsetSize(keys + {a}, all);
  }

  // ---------------------------------------------------------------------------------------------
  // The algebra: two owners of one map.
  // ---------------------------------------------------------------------------------------------

  datatype Op = SetLocal(a: Addr, ifindex: nat) | DropInterface(ifindex: nat) | KeepLive(keep: set<nat>)
              | PushRemote(want: Table)

  function Do(t: Table, op: Op): Table {
    match op
    case SetLocal(a, i) => WithLocal(t, a, i)
    case DropInterface(i) => WithoutInterface(t, i)
    case KeepLive(keep) => WithLiveOnly(t, keep)
    case PushRemote(want) => WithRemote(t, want)
  }

  /** The reference: two maps that never meet. Local operations see only the local one; a push
      throws the remote one away. */
  datatype Halves = Halves(local: map<Addr, nat>, remote: Table)

  function DoHalves(h: Halves, op: Op): Halves {
    match op
    case SetLocal(a, i) => h.(local := h.local[a := i])
    case DropInterface(i) => h.(local := map a | a in h.local && h.local[a] != i :: h.local[a])
    case KeepLive(keep) => h.(local := map a | a in h.local && h.local[a] in keep :: h.local[a])
    case PushRemote(want) => h.(remote := want)
  }

  /** The table two halves mean. */
  function Merge(h: Halves): Table {
    (map a | a in h.local :: Entry(0, h.local[a], 0)) + h.remote
  }

  /** The halves own disjoint addresses and the remote one names real nodes. */
  predicate Apart(h: Halves) {
    h.local.Keys !! h.remote.Keys && forall a :: a in h.remote ==> !IsLocal(h.remote[a])
  }

  /** One operation on the shared map is the same operation on its own half. */
  lemma HalvesSimulate(h: Halves, op: Op)
    requires Apart(h) && Apart(DoHalves(h, op))
    ensures Do(Merge(h), op) == Merge(DoHalves(h, op))
  {
  }

  ghost predicate ApartThroughout(h: Halves, ops: seq<Op>)
    decreases |ops|
  {
    Apart(h) && (ops != [] ==> ApartThroughout(DoHalves(h, ops[0]), ops[1..]))
  }

  function DoAll(t: Table, ops: seq<Op>): Table
    decreases |ops|
  {
    if ops == [] then t else DoAll(Do(t, ops[0]), ops[1..])
  }

  function DoAllHalves(h: Halves, ops: seq<Op>): Halves
    decreases |ops|
  {
    if ops == [] then h else DoAllHalves(DoHalves(h, ops[0]), ops[1..])
  }

  lemma {:induction false} RunsSimulate(h: Halves, ops: seq<Op>)
    requires ApartThroughout(h, ops)
    ensures DoAll(Merge(h), ops) == Merge(DoAllHalves(h, ops))
    decreases |ops|
  {
    hide Merge, Do, DoHalves, Apart;
    if ops != [] {
      HalvesSimulate(h, ops[0]);
      RunsSimulate(DoHalves(h, ops[0]), ops[1..]);
    }
  }

  lemma {:induction false} RunsStayApart(h: Halves, ops: seq<Op>)
    requires ApartThroughout(h, ops)
    ensures Apart(DoAllHalves(h, ops))
    decreases |ops|
  {
    hide DoHalves, Apart;
    if ops != [] {
      RunsStayApart(DoHalves(h, ops[0]), ops[1..]);
    }
  }

  function LastPush(ops: seq<Op>, before: Table): Table {
    if ops == [] then before
    else if ops[|ops| - 1].PushRemote? then ops[|ops| - 1].want
    else LastPush(ops[..|ops| - 1], before)
  }

  function LocalOps(ops: seq<Op>): seq<Op> {
    if ops == [] then []
    else if ops[0].PushRemote? then LocalOps(ops[1..])
    else [ops[0]] + LocalOps(ops[1..])
  }

  lemma {:induction false} RemoteIsLastPush(h: Halves, ops: seq<Op>)
    ensures DoAllHalves(h, ops).remote == LastPush(ops, h.remote)
    decreases |ops|
  {
    if ops != [] {
      RemoteIsLastPush(DoHalves(h, ops[0]), ops[1..]);
      LastPushFromSecond(ops, h.remote);
    }
  }

  lemma {:induction false} LastPushFromSecond(ops: seq<Op>, before: Table)
    requires ops != []
    ensures LastPush(ops, before) == LastPush(ops[1..], if ops[0].PushRemote? then ops[0].want else before)
  {
    if |ops| > 1 && !ops[|ops| - 1].PushRemote? {
      assert ops[1..][..|ops| - 2] == ops[..|ops| - 1][1..];
      LastPushFromSecond(ops[..|ops| - 1], before);
    }
  }

  lemma {:induction false} LocalIgnoresPushes(h: Halves, ops: seq<Op>)
    ensures DoAllHalves(h, ops).local == DoAllHalves(h, LocalOps(ops)).local
    decreases |ops|
  {
    if ops != [] {
      LocalIgnoresPushes(DoHalves(h, ops[0]), ops[1..]);
      if ops[0].PushRemote? {
        SameLocal(DoHalves(h, ops[0]), h, LocalOps(ops[1..]));
      } else {
        assert ([ops[0]] + LocalOps(ops[1..]))[1..] == LocalOps(ops[1..]);
      }
    }
  }

  lemma {:induction false} SameLocal(h: Halves, g: Halves, ops: seq<Op>)
    requires h.local == g.local
    ensures DoAllHalves(h, ops).local == DoAllHalves(g, ops).local
    decreases |ops|
  {
    if ops != [] {
      SameLocal(DoHalves(h, ops[0]), DoHalves(g, ops[0]), ops[1..]);
    }
  }

  /** The table after any run depends only on the local operations and the last push. */
  lemma TableIsLocalPlusLastPush(h: Halves, ops: seq<Op>)
    requires ApartThroughout(h, ops)
    ensures DoAll(Merge(h), ops) == Merge(Halves(DoAllHalves(h, LocalOps(ops)).local, LastPush(ops, h.remote)))
  {
    RunsSimulate(h, ops);
    RemoteIsLastPush(h, ops);
    LocalIgnoresPushes(h, ops);
  }

  /** The push leaves the local entry of this address as it finds it. */
  predicate LeavesLocal(t: Table, a: Addr, e: Entry) {
    if IsLocal(e) then a in t && t[a] == e else !(a in t && IsLocal(t[a]))
  }

  /** A push is forgotten by the next one, whatever that is, if and only if it leaves every local
      entry as it finds it: naming a local address takes it off the local half for good, and a node
      0.0.0.0 puts one there for good. */
  lemma PushForgottenIff(t: Table, want: Table)
    ensures (forall next :: WithRemote(WithRemote(t, want), next) == WithRemote(t, next))
       <==> forall a :: a in want ==> LeavesLocal(t, a, want[a])
  {
    hide WithRemote, LeavesLocal;
    if forall a :: a in want ==> LeavesLocal(t, a, want[a]) {
      forall next
        ensures WithRemote(WithRemote(t, want), next) == WithRemote(t, next)
      {
        PushForgotten(t, want, next);
      }
    } else {
      var a :| a in want && !LeavesLocal(t, a, want[a]);
      PushRemembered(t, want, a);
    }
  }

  lemma PushForgotten(t: Table, want: Table, next: Table)
    requires forall a :: a in want ==> LeavesLocal(t, a, want[a])
    ensures WithRemote(WithRemote(t, want), next) == WithRemote(t, next)
  {
    assert WithRemote(WithRemote(t, want), next).Keys == WithRemote(t, next).Keys;
  }

  lemma PushRemembered(t: Table, want: Table, a: Addr)
    requires a in want && !LeavesLocal(t, a, want[a])
    ensures WithRemote(WithRemote(t, want), map[]) != WithRemote(t, map[])
  {
    var none: Table := map[];
    assert a in WithRemote(WithRemote(t, want), none) <==> IsLocal(want[a]);
    assert a in WithRemote(t, none) <==> a in t && IsLocal(t[a]);
  }

  /** A route whose node is 0.0.0.0 is accepted and stored as a local entry: no run of later pushes
      that do not name the address removes it. */
  lemma ZeroNodeSticks(f: Forwarder, t: Table, a: Addr, mine: set<Addr>, pushes: seq<Op>)
    requires 0 !in mine
    requires forall op :: op in pushes ==> op.PushRemote? && a !in op.want
    ensures !SomeRefused([Route(Prefix4(a, 32), Node4(0))])
    ensures Decides([Route(Prefix4(a, 32), Node4(0))], mine, map[a := 0])
    ensures a in DoAll(WithRemote(t, f.RemoteTable(map[a := 0])), pushes)
  {
    var r := Route(Prefix4(a, 32), Node4(0));
    assert [r][..0] == [];
    LocalSurvivesPushes(WithRemote(t, f.RemoteTable(map[a := 0])), a, pushes);
  }

  lemma {:induction false} LocalSurvivesPushes(t: Table, a: Addr, pushes: seq<Op>)
    requires a in t && IsLocal(t[a])
    requires forall op :: op in pushes ==> op.PushRemote? && a !in op.want
    ensures a in DoAll(t, pushes) && DoAll(t, pushes)[a] == t[a]
    decreases |pushes|
  {
    if pushes != [] {
      assert pushes[0] in pushes;
      LocalSurvivesPushes(Do(t, pushes[0]), a, pushes[1..]);
    }
  }

  /** Recording an address and then forgetting its interface leaves what forgetting alone leaves,
      unless the address was somebody else's before. */
  lemma ForgetUndoesLocal(t: Table, a: Addr, ifindex: nat)
    requires a !in t
    ensures WithoutInterface(WithLocal(t, a, ifindex), ifindex) == WithoutInterface(t, ifindex)
  {
  }
}
