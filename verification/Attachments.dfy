/** Pinned program attachments: how the forwarder adopts, replaces and reclaims them across its own
    restarts and the re-creation of interfaces under the same name.

    A link is a kernel object. It is live, and its program runs, while something refers to it: a
    pin, a descriptor the process keeps by interface name, or one it has open inside a call.
    Deleting a device detaches its links, which then report interface index 0. Every kernel call is
    one step; the process may die before any, and its descriptors go with it. */
module Attachments {

  import opened Wrappers

  type ProgramId = nat
  type LinkId = nat
  type Fd = nat

  /** An interface name. A workload's is a digest of its id, taken here as the id itself. */
  datatype Iface = Uplink | Tunnel | Veth(workload: nat)

  /** What a link runs and where; index 0 is a link whose device is gone. */
  datatype Link = Link(ifindex: nat, program: ProgramId)

  datatype Outcome = Attached | Refused | Died

  /** What the kernel answers to the calls of one attach. */
  datatype Answers = Answers(infoHeld: bool, load: bool, infoPinned: bool, update: bool, unpin: bool, attach: bool,
                             pin: bool)

  /** The kernel grants every call. */
  predicate Granted(a: Answers) {
    a.infoHeld && a.load && a.infoPinned && a.update && a.unpin && a.attach && a.pin
  }

  /** Two pin directories differ at most at one name. */
  ghost predicate OnlyAt(before: map<Iface, LinkId>, after: map<Iface, LinkId>, iface: Iface) {
    forall n :: n != iface ==> (n in before <==> n in after) && (n in after ==> after[n] == before[n])
  }

  lemma OnlyAtTransitive(a: map<Iface, LinkId>, b: map<Iface, LinkId>, c: map<Iface, LinkId>, iface: Iface)
    requires OnlyAt(a, b, iface) && OnlyAt(b, c, iface)
    ensures OnlyAt(a, c, iface)
  {
  }

  /** A pinned link that still has a device is on the device of its pin's name. */
  ghost predicate PinsMatch(devices: map<Iface, nat>, links: map<LinkId, Link>, pins: map<Iface, LinkId>) {
    && (forall a, b :: a in devices && b in devices && devices[a] == devices[b] ==> a == b)
    && (forall n :: n in devices ==> devices[n] > 0)
    && (forall n :: n in pins ==> pins[n] in links)
    && (forall n :: n in pins && links[pins[n]].ifindex != 0 ==> n in devices && devices[n] == links[pins[n]].ifindex)
  }

  /** Something refers to the link. */
  ghost predicate Live(pins: map<Iface, LinkId>, held: map<Iface, LinkId>, open: map<Fd, LinkId>, id: LinkId) {
    || (exists n :: n in pins && pins[n] == id)
    || (exists n :: n in held && held[n] == id)
    || (exists fd :: fd in open && open[fd] == id)
  }

  class Node {
    // The kernel: interfaces by name, link objects, and the pin directory.
    var devices: map<Iface, nat>
    var links: map<LinkId, Link>
    var pins: map<Iface, LinkId>
    var nextLink: LinkId

    // The process: the descriptors it keeps by interface, those open inside a call, its programs.
    var held: map<Iface, LinkId>
    var open: map<Fd, LinkId>
    var program: ProgramId
    var programL3: ProgramId
    var tunnelL3: Option<Iface>
    var lifetime: nat

    function ProgramFor(iface: Iface): ProgramId
      reads this`program, this`programL3, this`tunnelL3
    {
      if tunnelL3 == Some(iface) then programL3 else program
    }

    /** What the kernel side keeps at every step. */
    ghost predicate Kernel()
      reads this`devices, this`links, this`pins, this`nextLink
    {
      PinsMatch(devices, links, pins) && forall id :: id in links ==> id < nextLink
    }

    /** A kept descriptor is of the link pinned under that name, running this process's program. */
    ghost predicate HeldMatch()
      reads this`links, this`pins, this`held, this`program, this`programL3, this`tunnelL3
    {
      forall n :: n in held ==>
                    && n in pins && pins[n] == held[n]
                    && held[n] in links && links[held[n]].program == ProgramFor(n)
    }

    /** What holds between calls: besides, no descriptor is open. */
    ghost predicate Valid()
      reads this`devices, this`links, this`pins, this`nextLink, this`held, this`open, this`program, this`programL3,
            this`tunnelL3
    {
      Kernel() && HeldMatch() && open == map[]
    }

    ghost predicate IsLive(id: LinkId)
      reads this`pins, this`held, this`open
    {
      Live(pins, held, open, id)
    }

    /** The pin of this interface is its only live link, pinned or not, on the interface's current
        index, and runs this process's program. */
    ghost predicate WellAttached(iface: Iface)
      reads this`devices, this`links, this`pins, this`held, this`open, this`program, this`programL3, this`tunnelL3
    {
      && iface in devices && iface in pins && pins[iface] in links
      && links[pins[iface]] == Link(devices[iface], ProgramFor(iface))
      && forall id :: id in links && IsLive(id) && links[id].ifindex == devices[iface] ==> id == pins[iface]
    }

    /** Between calls nothing but a pin keeps a link alive on its own: no attachment is left that
        the next process would not find. */
    lemma EveryLiveLinkIsPinned(id: LinkId)
      requires Valid() && IsLive(id)
      ensures exists n :: n in pins && pins[n] == id
    {
      if n :| n in held && held[n] == id {
        assert n in pins && pins[n] == id;
      }
    }

    lemma PinnedIsAlone(iface: Iface)
      requires Valid() && iface in devices && iface in pins
      requires links[pins[iface]] == Link(devices[iface], ProgramFor(iface))
      ensures WellAttached(iface)
    {
      forall id | id in links && IsLive(id) && links[id].ifindex == devices[iface]
        ensures id == pins[iface]
      {
        EveryLiveLinkIsPinned(id);
      }
    }

    constructor (program: ProgramId, programL3: ProgramId, tunnelL3: Option<Iface>)
      ensures Valid() && devices == map[] && pins == map[] && links == map[]
    {
      devices, links, pins, nextLink, held, open, lifetime := map[], map[], map[], 0, map[], map[], 0;
      this.program, this.programL3, this.tunnelL3 := program, programL3, tunnelL3;
    }

    // ------------------------------------------------------------------- the environment

    /** An index may be one an earlier device had: only present devices are distinct. */
    method CreateDevice(name: Iface, index: nat)
      requires Valid() && name !in devices && index > 0 && index !in devices.Values
      modifies this`devices
      ensures Valid() && devices == old(devices)[name := index]
    {
      devices := devices[name := index];
    }

    /** The device goes and every link on it is detached, whoever holds it. */
    method DeleteDevice(name: Iface)
      requires Valid() && name in devices
      modifies this`devices, this`links
      ensures Valid() && devices == old(devices) - {name} && links.Keys == old(links).Keys
      ensures forall id :: id in links ==> links[id].ifindex != old(devices)[name]
    {
      DetachAll(devices[name]);
      devices := devices - {name};
    }

    method DetachAll(index: nat)
      requires Valid() && index > 0
      modifies this`links
      ensures Valid() && links.Keys == old(links).Keys && forall id :: id in links ==> links[id].ifindex != index
    {
      links := map id | id in links :: if links[id].ifindex == index then links[id].(ifindex := 0) else links[id];
    }

    /** The process dies, or closes: its descriptors go, the pins stay. */
    method Close()
      requires Kernel()
      modifies this`held, this`open
      ensures Valid() && held == map[]
    {
      held, open := map[], map[];
    }

    /** A new process takes over what the pins kept alive, with programs of its own. */
    method Restart(program: ProgramId, programL3: ProgramId, tunnelL3: Option<Iface>, lifetime: nat)
      requires Kernel()
      modifies this`held, this`open, this`program, this`programL3, this`tunnelL3, this`lifetime
      ensures Valid() && held == map[]
    {
      hide PinsMatch;
      held, open := map[], map[];
      this.program, this.programL3, this.tunnelL3, this.lifetime := program, programL3, tunnelL3, lifetime;
    }

    // ------------------------------------------------------------------- kernel calls

    /** Takes one step, or dies. */
    method Step() returns (alive: bool)
      requires Kernel()
      modifies this`lifetime, this`held, this`open
      ensures alive == (old(lifetime) > 0)
      ensures if alive then held == old(held) && open == old(open) && lifetime == old(lifetime) - 1
              else Valid() && held == map[] && lifetime == 0
    {
      hide Kernel, HeldMatch;
      alive := lifetime > 0;
      if alive {
        lifetime := lifetime - 1;
      } else {
        Close();
      }
    }

    /** A new descriptor of a link. */
    method OpenFd(id: LinkId) returns (fd: Fd)
      modifies this`open
      ensures fd !in old(open) && open == old(open)[fd := id]
    {
      var used := open.Keys;
      fd := 0;
      while fd in used
        invariant used <= open.Keys && forall m: Fd :: fd <= m && m in open ==> m in used
        decreases |used|
      {
        used := used - {fd};
        fd := fd + 1;
      }
      open := open[fd := id];
    }

    method CloseFd(fd: Fd)
      modifies this`open
      ensures open == old(open) - {fd}
    {
      open := open - {fd};
    }

    /** Removes a name from the pin directory, if the kernel lets it. */
    method RemovePin(iface: Iface, ok: bool)
      requires Kernel() && HeldMatch() && iface !in held
      modifies this`pins
      ensures Kernel() && HeldMatch()
      ensures pins == if ok then old(pins) - {iface} else old(pins)
    {
      if ok {
        pins := pins - {iface};
      }
    }

    // ------------------------------------------------------------------- the forwarder

    /** A kept descriptor on this very interface is all there is to do; one on another index, or
        one that cannot be asked, is closed. */
    method KeepsCurrent(iface: Iface, info: bool) returns (current: bool)
      requires Valid() && iface in devices
      modifies this`held
      ensures Valid() && (iface in held <==> current)
      ensures current ==> WellAttached(iface)
      ensures forall n :: n != iface ==> (n in held <==> n in old(held))
      ensures iface in old(held) && info && links[old(held)[iface]].ifindex == devices[iface] ==> current
    {
      current := iface in held && info && links[held[iface]].ifindex == devices[iface];
      if current {
        PinnedIsAlone(iface);
      } else {
        held := held - {iface};
      }
    }

    /** Points a pinned link, through an open descriptor of it, at this process's program and keeps
        the descriptor; a refused update closes it. */
    method Adopt(iface: Iface, fd: Fd, ok: bool)
      requires Kernel() && HeldMatch() && iface in devices && iface in pins
      requires links[pins[iface]].ifindex == devices[iface] && open == map[fd := pins[iface]]
      modifies this`links, this`held, this`open
      ensures Valid() && LinksKept(old(links), links, {pins[iface]})
      ensures ok ==> WellAttached(iface)
    {
      if !ok {
        CloseFd(fd);
        assert open == map[];
        return;
      }
      UpdateProgram(iface);
      Keep(iface, fd);
      PinnedIsAlone(iface);
    }

    /** The descriptor moves from the call to the process's own map. */
    method Keep(iface: Iface, fd: Fd)
      requires Kernel() && HeldMatch() && iface in pins && open == map[fd := pins[iface]]
      requires links[pins[iface]].program == ProgramFor(iface)
      modifies this`held, this`open
      ensures Valid() && held == old(held)[iface := pins[iface]]
    {
      held := held[iface := open[fd]];
      open := open - {fd};
    }

    method UpdateProgram(iface: Iface)
      requires Kernel() && HeldMatch()
      requires iface in devices && iface in pins && links[pins[iface]].ifindex == devices[iface]
      modifies this`links
      ensures Kernel() && HeldMatch() && LinksKept(old(links), links, {pins[iface]})
      ensures links[pins[iface]] == Link(devices[iface], ProgramFor(iface))
    {
      links := links[pins[iface] := links[pins[iface]].(program := ProgramFor(iface))];
    }

    /** An existing pin: adopted if it is on this very interface, else removed with what it pins. */
    method AdoptOrDrop(iface: Iface, answers: Answers) returns (r: Option<Outcome>)
      requires Valid() && iface in devices && iface !in held
      modifies this`links, this`pins, this`held, this`open, this`lifetime
      ensures Valid() && OnlyAt(old(pins), pins, iface) && LinksKept(old(links), links, Pinned(old(pins), iface))
      ensures r == Some(Attached) ==> WellAttached(iface)
      ensures r == Some(Refused) ==> !Granted(answers)
      ensures r == Some(Died) ==> lifetime == 0
      ensures r == None ==> iface !in held && links == old(links) && (Granted(answers) ==> iface !in pins)
      ensures iface in old(pins) && old(links)[old(pins)[iface]].ifindex == devices[iface] ==>
                answers.load && answers.infoPinned ==> pins == old(pins) && r != None
    {
      hide Kernel, HeldMatch, WellAttached, OnlyAt, LinksKept;
      NothingChanged(pins, links, iface);
      if iface !in pins || !answers.load {
        return None;
      }
      PinnedExists(iface);
      var fd := OpenFd(pins[iface]);
      var alive := Step();
      if !alive {
        return Some(Died);
      }
      if answers.infoPinned && links[pins[iface]].ifindex == devices[iface] {
        Adopt(iface, fd, answers.update);
        return Some(if answers.update then Attached else Refused);
      }
      alive := UnpinAndClose(iface, fd, answers.unpin);
      r := if alive then None else Some(Died);
    }

    /** The pin goes if the kernel lets it; the descriptor goes in any case. */
    method UnpinAndClose(iface: Iface, fd: Fd, ok: bool) returns (alive: bool)
      requires Kernel() && HeldMatch() && iface !in held && open.Keys == {fd}
      modifies this`pins, this`held, this`open, this`lifetime
      ensures Valid() && OnlyAt(old(pins), pins, iface)
      ensures pins == if ok then old(pins) - {iface} else old(pins)
      ensures if alive then held == old(held) else held == map[] && lifetime == 0
    {
      hide Kernel, HeldMatch;
      RemovePin(iface, ok);
      alive := Step();
      if alive {
        CloseFd(fd);
        assert open == map[];
      }
    }

    lemma PinnedExists(iface: Iface)
      requires Kernel() && iface in pins
      ensures pins[iface] in links
    {
    }

    /** Attaches a new link and pins it; a link that cannot be pinned is closed, and goes. */
    method Fresh(iface: Iface, answers: Answers) returns (r: Outcome)
      requires Valid() && iface in devices && iface !in held
      modifies this`links, this`pins, this`nextLink, this`held, this`open, this`lifetime
      ensures Valid() && OnlyAt(old(pins), pins, iface) && LinksKept(old(links), links, {})
      ensures r.Attached? ==> WellAttached(iface)
      ensures !r.Attached? ==> pins == old(pins)
      ensures (r.Refused? ==> iface in old(pins) || !Granted(answers)) && (r.Died? ==> lifetime == 0)
    {
      hide Kernel, HeldMatch, WellAttached, OnlyAt, LinksKept;
      FreshChanges(pins, links, iface, nextLink);
      if !answers.attach {
        return Refused;
      }
      var fd, id := AttachTCX(iface);
      var alive := Step();
      if !alive {
        return Died;
      }
      if iface in pins || !answers.pin {
        CloseFd(fd);
        assert open == map[];
        return Refused;
      }
      AddPin(iface, id);
      Keep(iface, fd);
      PinnedIsAlone(iface);
      r := Attached;
    }

    /** A new link on the interface, referred to by one descriptor. */
    method AttachTCX(iface: Iface) returns (fd: Fd, id: LinkId)
      requires Valid() && iface in devices
      modifies this`links, this`nextLink, this`open
      ensures Kernel() && HeldMatch() && LinksKept(old(links), links, {})
      ensures open == map[fd := id] && id == old(nextLink) && id in links
      ensures links[id] == Link(devices[iface], ProgramFor(iface))
    {
      id := nextLink;
      links := links[id := Link(devices[iface], ProgramFor(iface))];
      nextLink := nextLink + 1;
      fd := OpenFd(id);
    }

    method AddPin(iface: Iface, id: LinkId)
      requires Kernel() && HeldMatch() && iface !in pins && iface !in held && iface in devices
      requires id in links && links[id].ifindex == devices[iface]
      modifies this`pins
      ensures Kernel() && HeldMatch() && pins == old(pins)[iface := id]
    {
      pins := pins[iface := id];
    }

    /** attach: keep what already fits, adopt a pin that is on this very interface, replace one
        that is not. Success means one live link on the interface and this process's program in it;
        a link that was there and could be asked is the one that is there afterwards. */
    method Attach(iface: Iface, answers: Answers) returns (r: Outcome)
      requires Valid()
      modifies this`links, this`pins, this`nextLink, this`held, this`open, this`lifetime
      ensures Valid() && OnlyAt(old(pins), pins, iface) && LinksKept(old(links), links, Pinned(old(pins), iface))
      ensures r.Attached? ==> WellAttached(iface)
      ensures (&& iface in devices && iface in old(pins) && old(links)[old(pins)[iface]].ifindex == devices[iface]
               && answers.load && answers.infoPinned)
              ==> pins == old(pins)
      ensures (r.Refused? ==> iface !in devices || !Granted(answers)) && (r.Died? ==> lifetime == 0)
    {
      hide Kernel, HeldMatch, WellAttached, Granted, LinksKept;
      NothingChanged(pins, links, iface);
      var alive := Step();
      if !alive {
        return Died;
      }
      if iface !in devices {
        return Refused;
      }
      var current := KeepsCurrent(iface, answers.infoHeld);
      if current {
        return Attached;
      }
      alive := Step();
      if !alive {
        return Died;
      }
      var adopted := AdoptOrDrop(iface, answers);
      if adopted.Some? {
        return adopted.value;
      }
      ghost var dropped := pins;
      alive := Step();
      if !alive {
        return Died;
      }
      r := Fresh(iface, answers);
      OnlyAtTransitive(old(pins), dropped, pins, iface);
      FewerChanged(old(links), links, Pinned(old(pins), iface));
    }

    /** unpin: whether this process holds the link or only its pin is left. */
    method Unpin(iface: Iface, load: bool, unpin: bool) returns (alive: bool)
      requires Valid()
      modifies this`pins, this`held, this`open, this`lifetime
      ensures Valid() && OnlyAt(old(pins), pins, iface)
      ensures pins == old(pins) || pins == old(pins) - {iface}
      ensures alive ==> (iface in pins <==> iface in old(pins) && (!unpin || (!load && iface !in old(held))))
      ensures if alive then held == old(held) - {iface} else lifetime == 0
    {
      hide Kernel, HeldMatch;
      alive := Step();
      if !alive {
        return;
      }
      var fd;
      if iface in held {
        HeldIsPinned(iface);
        fd := OpenFd(held[iface]);
        Release(iface);
      } else if iface in pins && load {
        fd := OpenFd(pins[iface]);
      } else {
        return;
      }
      alive := UnpinAndClose(iface, fd, unpin);
    }

    method Release(iface: Iface)
      requires HeldMatch()
      modifies this`held
      ensures HeldMatch() && held == old(held) - {iface}
    {
      held := held - {iface};
    }

    lemma HeldIsPinned(iface: Iface)
      requires HeldMatch() && iface in held
      ensures iface in pins
    {
    }

    /** ReclaimPins: drop the attachments of interfaces the node no longer has, as far as the kernel
        lets them go. */
    method ReclaimPins(keep: set<Iface>, uplink: Iface, tunnel: Option<Iface>, readDir: bool, unloadable: set<Iface>,
                       stuck: set<Iface>)
      returns (alive: bool)
      requires Valid()
      modifies this`pins, this`held, this`open, this`lifetime
      ensures Valid()
      ensures forall n :: n in pins ==> n in old(pins) && pins[n] == old(pins)[n]
      ensures forall n :: n in old(pins) && (n in keep || n == uplink || tunnel == Some(n)) ==> n in pins
      ensures alive ==>
                forall n :: n in pins <==>
                            && n in old(pins)
                            && (!readDir || n in keep || n == uplink || tunnel == Some(n)
                                || n in stuck || (n in unloadable && n !in old(held)))
      ensures !alive ==> lifetime == 0
    {
      hide Kernel, HeldMatch, Valid;
      if !readDir {
        return true;
      }
      var wanted := keep + {uplink};
      if tunnel.Some? {
        wanted := wanted + {tunnel.value};
      }
      alive := true;
      var todo := pins.Keys;
      while todo != {}
        invariant Valid() && alive
        invariant forall n :: n in pins ==> n in old(pins) && pins[n] == old(pins)[n]
        invariant forall n :: n in old(pins) && n in wanted ==> n in pins
        invariant forall n :: n in todo ==> (n in held <==> n in old(held)) && (n in pins <==> n in old(pins))
        invariant forall n :: n in old(pins) && n !in todo ==>
                                (n in pins <==> n in wanted || n in stuck || (n in unloadable && n !in old(held)))
      {
        var p :| p in todo;
        if p !in wanted {
          alive := Unpin(p, p !in unloadable, p !in stuck);
          if !alive {
            return;
          }
        }
        todo := todo - {p};
      }
    }
  }

  /** The link pinned under a name. */
  function Pinned(pins: map<Iface, LinkId>, iface: Iface): set<LinkId> {
    if iface in pins then {pins[iface]} else {}
  }

  lemma FreshChanges(pins: map<Iface, LinkId>, links: map<LinkId, Link>, iface: Iface, id: LinkId)
    ensures OnlyAt(pins, pins, iface) && OnlyAt(pins, pins[iface := id], iface) && LinksKept(links, links, {})
  {
  }

  lemma NothingChanged(pins: map<Iface, LinkId>, links: map<LinkId, Link>, iface: Iface)
    ensures OnlyAt(pins, pins, iface) && LinksKept(links, links, Pinned(pins, iface))
  {
  }

  lemma FewerChanged(before: map<LinkId, Link>, after: map<LinkId, Link>, changed: set<LinkId>)
    ensures LinksKept(before, after, {}) ==> LinksKept(before, after, changed)
  {
  }

  /** Every link is still there, on the index it was on; only these may run another program. */
  ghost predicate LinksKept(before: map<LinkId, Link>, after: map<LinkId, Link>, changed: set<LinkId>) {
    forall id :: id in before ==>
                   && id in after && after[id].ifindex == before[id].ifindex
                   && (id !in changed ==> after[id] == before[id])
  }

  // ---------------------------------------------------------------------------------------------
  // Any history of the node.
  // ---------------------------------------------------------------------------------------------

  datatype Event =
    | Appear(name: Iface, index: nat)
    | Vanish(name: Iface)
    | Start(program: ProgramId, programL3: ProgramId, tunnelL3: Option<Iface>, lifetime: nat)
    | Stop
    | DoAttach(iface: Iface, answers: Answers)
    | DoDetach(iface: Iface, load: bool, unpin: bool)
    | Reclaim(keep: set<Iface>, uplink: Iface, tunnel: Option<Iface>, readDir: bool, unloadable: set<Iface>,
              stuck: set<Iface>)

  method Happen(node: Node, e: Event)
    requires node.Valid()
    modifies node
    ensures node.Valid()
  {
    hide Node.Kernel, Node.HeldMatch;
    match e
    case Appear(name, index) =>
      if name !in node.devices && index > 0 && index !in node.devices.Values {
        node.CreateDevice(name, index);
      }
    case Vanish(name) =>
      if name in node.devices {
        node.DeleteDevice(name);
      }
    case Start(program, programL3, tunnelL3, lifetime) =>
      node.Restart(program, programL3, tunnelL3, lifetime);
    case Stop =>
      node.Close();
    case DoAttach(name, a) =>
      var _ := node.Attach(name, a);
    case DoDetach(name, load, unpin) =>
      var _ := node.Unpin(name, load, unpin);
    case Reclaim(keep, uplink, tunnel, readDir, unloadable, stuck) =>
      var _ := node.ReclaimPins(keep, uplink, tunnel, readDir, unloadable, stuck);
  }

  /** Whatever happened before, in any order, with calls refused and a death at any step: every live
      link is pinned, and a final attach that succeeds leaves its interface attached exactly once
      and to this process's program. */
  method AnyHistory(node: Node, events: seq<Event>, iface: Iface, answers: Answers) returns (r: Outcome)
    requires node.Valid()
    modifies node
    ensures node.Valid() && forall id :: node.IsLive(id) ==> exists n :: n in node.pins && node.pins[n] == id
    ensures r.Attached? ==> node.WellAttached(iface)
    ensures (r.Refused? ==> iface !in node.devices || !Granted(answers)) && (r.Died? ==> node.lifetime == 0)
  {
    hide Node.Valid, Node.WellAttached, Granted, Live;
    for i := 0 to |events|
      invariant node.Valid()
    {
      Happen(node, events[i]);
    }
    r := node.Attach(iface, answers);
    forall id | node.IsLive(id)
      ensures exists n :: n in node.pins && node.pins[n] == id
    {
      node.EveryLiveLinkIsPinned(id);
    }
  }
}
