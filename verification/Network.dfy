/** Ports and interfaces: the port allocators with their fountain, the port mapper, and the
    two calls that give a container its network and take it back. */
module Network {
  import opened Text
  import opened Cidr
  import opened IpAllocator

  const PORT_RANGE_START := 49153
  const PORT_RANGE_END := 65535
  const MAX_UINT16 := 65535

  datatype Proto = Tcp | Udp

  datatype Nat = Nat(proto: Proto, frontend: int, backend: int)

  // ---------- port specifications ----------

  /** parseNat: [[frontend]:]backend[/tcp|/udp]; None stands for its errors. */
  function ParseNat(spec: string): Option<Nat> {
    var slash := Find(spec, '/');
    if slash < |spec| then
      var proto := spec[slash + 1..];
      if proto == "tcp" then ParsePorts(spec[..slash], Tcp)
      else if proto == "udp" then ParsePorts(spec[..slash], Udp)
      else None
    else ParsePorts(spec, Tcp)
  }

  function ParsePorts(spec: string, proto: Proto): Option<Nat> {
    var colon := Find(spec, ':');
    if colon < |spec| then
      var back := spec[colon + 1..];
      if Find(back, ':') < |back| then None
      else if colon == 0 then
        match ParseUint(back, MAX_UINT16)
        case Num(b) => Some(Nat(proto, b, b))
        case _ => None
      else
        match (ParseUint(spec[..colon], MAX_UINT16), ParseUint(back, MAX_UINT16))
        case (Num(f), Num(b)) => Some(Nat(proto, f, b))
        case _ => None
    else
      match ParseUint(spec, MAX_UINT16)
      case Num(b) => Some(Nat(proto, 0, b))
      case _ => None
  }

  /** The specification a ghost container's recorded mapping is turned back into. */
  function GhostSpec(n: Nat): string
    requires n.frontend >= 0 && n.backend >= 0
  {
    Format(n.frontend) + ":" + Format(n.backend) + "/" + if n.proto == Tcp then "tcp" else "udp"
  }

  lemma PortsRoundTrip(f: int, b: int, proto: Proto)
    requires 0 <= f <= MAX_UINT16 && 0 <= b <= MAX_UINT16
    ensures ParsePorts(Format(f) + ":" + Format(b), proto) == Some(Nat(proto, f, b))
  {
    hide Find, Format, ParseUint, Number;
    var x, y := Format(f), Format(b);
    DigitsHaveNo(f, ':');
    DigitsHaveNo(b, ':');
    ParseFormat(f, MAX_UINT16);
    ParseFormat(b, MAX_UINT16);
    hide *;
    PortsSplit(x, y, f, b, proto);
  }

  lemma PortsSplit(x: string, y: string, f: nat, b: nat, proto: Proto)
    requires x != "" && ':' !in x && ':' !in y
    requires ParseUint(x, MAX_UINT16) == Num(f) && ParseUint(y, MAX_UINT16) == Num(b)
    ensures ParsePorts(x + ":" + y, proto) == Some(Nat(proto, f, b))
  {
    hide Find, ParseUint;
    SplitAt(x, ':', y);
    FindAbsent(y, ':');
  }

  lemma SplitAt(x: string, c: char, y: string)
    requires c !in x
    ensures var s := x + [c] + y; Find(s, c) == |x| && s[..|x|] == x && s[|x| + 1..] == y
  {
    hide Find;
    FindAfter(x, c, y);
  }

  /** A recorded mapping is read back as it was, whatever its ports. */
  lemma GhostSpecRoundTrip(n: Nat)
    requires 0 <= n.frontend <= MAX_UINT16 && 0 <= n.backend <= MAX_UINT16
    ensures ParseNat(GhostSpec(n)) == Some(n)
  {
    var f, b, p := Format(n.frontend), Format(n.backend), if n.proto == Tcp then "tcp" else "udp";
    var ports := f + ":" + b;
    DigitsHaveNo(n.frontend, '/');
    DigitsHaveNo(n.backend, '/');
    PortsRoundTrip(n.frontend, n.backend, n.proto);
    hide Find, Format, ParsePorts;
    assert '/' !in ports;
    SplitAt(ports, '/', p);
  }

  /** What a specification asks for: the protocol tcp unless udp is named, the backend port, and the
      frontend port, which is 0 if there is none and the backend port if it is left empty. */
  lemma ParseNatForms(f: int, b: int)
    requires 0 <= f <= MAX_UINT16 && 0 <= b <= MAX_UINT16
    ensures ParseNat(Format(b)) == Some(Nat(Tcp, 0, b))
    ensures ParseNat(":" + Format(b)) == Some(Nat(Tcp, b, b))
    ensures ParseNat(Format(f) + ":" + Format(b)) == Some(Nat(Tcp, f, b))
    ensures ParseNat(Format(b) + "/udp") == Some(Nat(Udp, 0, b))
    ensures ParseNat(":" + Format(b) + "/udp") == Some(Nat(Udp, b, b))
    ensures ParseNat(Format(f) + ":" + Format(b) + "/udp") == Some(Nat(Udp, f, b))
  {
    hide *;
    var x, y := Format(f), Format(b);
    NoSlash(f, b);
    PortsRoundTrip(f, b, Tcp);
    PortsRoundTrip(f, b, Udp);
    OnePort(b, Tcp);
    OnePort(b, Udp);
    WithProtocol(y, "udp");
    WithProtocol(":" + y, "udp");
    WithProtocol(x + ":" + y, "udp");
    assert y + "/udp" == y + "/" + "udp" && ":" + y + "/udp" == ":" + y + "/" + "udp";
    assert x + ":" + y + "/udp" == x + ":" + y + "/" + "udp";
  }

  lemma NoSlash(f: nat, b: nat)
    ensures '/' !in Format(b) && '/' !in ":" + Format(b) && '/' !in Format(f) + ":" + Format(b)
  {
    DigitsHaveNo(f, '/');
    DigitsHaveNo(b, '/');
    hide Format;
  }

  /** No port beyond 16 bits is accepted. */
  lemma ParseNatBounds(spec: string)
    ensures ParseNat(spec).Some? ==> 0 <= ParseNat(spec).value.frontend <= 65535
    ensures ParseNat(spec).Some? ==> 0 <= ParseNat(spec).value.backend <= 65535
  {
  }

  lemma TwoColonsRefused(ports: string, proto: Proto, i: nat, j: nat)
    requires i < j < |ports| && ports[i] == ':' && ports[j] == ':'
    ensures ParsePorts(ports, proto) == None
  {
    var colon := Find(ports, ':');
    assert ports[colon + 1..][j - colon - 1] == ':';
  }

  lemma OnePort(b: int, proto: Proto)
    requires 0 <= b <= MAX_UINT16
    ensures ParsePorts(Format(b), proto) == Some(Nat(proto, 0, b))
    ensures ParsePorts(":" + Format(b), proto) == Some(Nat(proto, b, b))
  {
    hide Find, Format, ParseUint, Number;
    DigitsHaveNo(b, ':');
    ParseFormat(b, MAX_UINT16);
    FindAbsent(Format(b), ':');
    SplitAt("", ':', Format(b));
    assert "" + [':'] + Format(b) == ":" + Format(b);
  }

  /** Any protocol but tcp and udp is refused. */
  lemma WithProtocol(ports: string, proto: string)
    requires '/' !in ports
    ensures ParseNat(ports) == ParsePorts(ports, Tcp)
    ensures ParseNat(ports + "/" + proto) ==
      if proto == "tcp" then ParsePorts(ports, Tcp) else if proto == "udp" then ParsePorts(ports, Udp) else None
  {
    hide Find, ParsePorts;
    FindAbsent(ports, '/');
    SplitAt(ports, '/', proto);
  }

  // ---------- port allocator ----------

  predicate InFountain(p: int) {
    PORT_RANGE_START <= p < PORT_RANGE_END
  }

  /** The k-th port the fountain delivers when its next one is `next`, for k up to a whole cycle. */
  function Fountain(next: int, k: nat): int {
    if next + k < PORT_RANGE_END then next + k else next + k - (PORT_RANGE_END - PORT_RANGE_START)
  }

  /** The port the fountain delivers behind p. */
  function PortBehind(p: int): (q: int)
    ensures InFountain(p) ==> InFountain(q) && (q == p + 1 || (p == 65534 && q == 49153))
  {
    if p + 1 < PORT_RANGE_END then p + 1 else PORT_RANGE_START
  }

  /** p is the first port outside `taken` that the fountain delivers, within one cycle. */
  ghost predicate FirstDelivered(next: int, taken: set<int>, p: int) {
    exists k: nat | k < PORT_RANGE_END - PORT_RANGE_START && p == Fountain(next, k) ::
      p !in taken && forall j: nat | j < k :: Fountain(next, j) in taken
  }

  /** Spins: every fountain port is taken, and the call does not return until one is released. */
  datatype Acquired = Port(port: int) | InUse | Spins

  class PortAllocator {
    var inUse: set<int>
    var next: int

    ghost predicate Valid()
      reads this
    {
      InFountain(next)
    }

    constructor ()
      ensures Valid() && inUse == {}
    {
      inUse, next := {}, PORT_RANGE_START;
    }

    method AcquireGiven(port: int) returns (r: Acquired)
      modifies this`inUse
      ensures port in old(inUse) ==> r == InUse && inUse == old(inUse)
      ensures port !in old(inUse) ==> r == Port(port) && inUse == old(inUse) + {port}
    {
      if port in inUse {
        return InUse;
      }
      inUse := inUse + {port};
      return Port(port);
    }

    /** Port 0 asks for the first free port the fountain delivers, within one cycle. */
    method Acquire(port: int) returns (r: Acquired)
      requires Valid()
      modifies this
      ensures Valid()
      ensures port != 0 && port in old(inUse) ==> r == InUse
      ensures port != 0 && port !in old(inUse) ==> r == Port(port)
      ensures port == 0 ==> !r.InUse?
      ensures port == 0 && r.Port? ==> InFountain(r.port) && r.port !in old(inUse)
      ensures port == 0 && r.Port? ==> FirstDelivered(old(next), old(inUse), r.port)
      ensures port == 0 ==> (r == Spins <==> forall p :: InFountain(p) ==> p in old(inUse))
      ensures next == if port == 0 && r.Port? then PortBehind(r.port) else old(next)
      ensures inUse == old(inUse) + (if r.Port? then {r.port} else {})
    {
      if port != 0 {
        r := AcquireGiven(port);
        return;
      }
      ghost var first := next;
      var k: nat := 0;
      while k < PORT_RANGE_END - PORT_RANGE_START
        invariant k <= PORT_RANGE_END - PORT_RANGE_START
        invariant Valid() && next == Fountain(first, k) && inUse == old(inUse)
        invariant forall j: nat :: j < k ==> Fountain(first, j) in inUse
      {
        var p := next;
        next := if next + 1 < PORT_RANGE_END then next + 1 else PORT_RANGE_START;
        r := AcquireGiven(p);
        if r.Port? {
          return;
        }
        k := k + 1;
      }
      r := Spins;
      forall p | InFountain(p) ensures p in inUse {
        var j: nat := if p >= first then p - first else p - first + (PORT_RANGE_END - PORT_RANGE_START);
        assert Fountain(first, j) == p;
      }
    }

    method Release(port: int)
      modifies this`inUse
      ensures inUse == old(inUse) - {port}
    {
      inUse := inUse - {port};
    }
  }

  // ---------- port mapper ----------

  /** A frontend port, by protocol. */
  datatype Key = Key(proto: Proto, port: int)

  datatype Backend = Backend(ip: int32, port: int)

  /** tcpMapping and udpMapping are the two halves of mapping, tcpProxies and udpProxies those
      of proxies.  Whether iptables and the proxy succeed is up to the system. */
  class PortMapper {
    var mapping: map<Key, Backend>
    var proxies: set<Key>
    /** Mapped ports whose iptables rule could not be deleted when that was last tried, and how
        often a deletion failed. */
    ghost var stuck: set<Key>
    ghost var failures: nat

    constructor ()
      ensures mapping == map[] && proxies == {} && stuck == {} && failures == 0
    {
      mapping, proxies, stuck, failures := map[], {}, {}, 0;
    }

    /** Ports get stuck only by a deletion that fails. */
    twostate predicate SticksOnFailure()
      reads this
    {
      old(failures) <= failures && (failures == old(failures) ==> stuck <= old(stuck))
    }

    method Map(k: Key, backend: Backend) returns (ok: bool)
      modifies this
      ensures SticksOnFailure()
      ensures ok ==> mapping == old(mapping)[k := backend] && proxies == old(proxies) + {k} && stuck == old(stuck)
      ensures !ok ==>
        || (mapping == old(mapping) && proxies == old(proxies) && stuck == old(stuck) && failures == old(failures))
        || (mapping == old(mapping) - {k} && proxies == old(proxies) - {k} && stuck == old(stuck) - {k})
        || (mapping == old(mapping)[k := backend] && proxies == old(proxies) - {k}
           && stuck == old(stuck) + {k} && failures > old(failures))
    {
      var added: bool := *;
      if !added {
        return false;
      }
      mapping := mapping[k := backend];
      var proxied: bool := *;
      if !proxied {
        var _ := Unmap(k);
        return false;
      }
      proxies := proxies + {k};
      return true;
    }

    method Unmap(k: Key) returns (ok: bool)
      modifies this
      ensures k !in old(mapping) ==> !ok && mapping == old(mapping) && proxies == old(proxies) && stuck == old(stuck)
      ensures k in old(mapping) ==> proxies == old(proxies) - {k}
      ensures k in old(mapping) ==>
        if ok then mapping == old(mapping) - {k} && stuck == old(stuck) - {k}
        else mapping == old(mapping) && stuck == old(stuck) + {k}
      ensures failures == old(failures) + (if k in old(mapping) && !ok then 1 else 0)
    {
      if k !in mapping {
        return false;
      }
      proxies := proxies - {k};
      var deleted: bool := *;
      if !deleted {
        stuck, failures := stuck + {k}, failures + 1;
        return false;
      }
      mapping, stuck := mapping - {k}, stuck - {k};
      return true;
    }
  }

  // ---------- manager and interfaces ----------

  function KeyOf(n: Nat): Key {
    Key(n.proto, n.frontend)
  }

  ghost function Keys(nats: seq<Nat>): set<Key> {
    if nats == [] then {} else Keys(nats[..|nats| - 1]) + {KeyOf(nats[|nats| - 1])}
  }

  /** Where each port is forwarded to, for an interface with that address. */
  ghost function Targets(ip: int32, nats: seq<Nat>): (t: map<Key, Backend>)
    ensures t.Keys == Keys(nats)
  {
    if nats == [] then map[]
    else
      var last := nats[|nats| - 1];
      Targets(ip, nats[..|nats| - 1])[KeyOf(last) := Backend(ip, last.backend)]
  }

  lemma {:induction false} TargetOf(ip: int32, nats: seq<Nat>, n: Nat)
    requires DistinctKeys(nats) && n in nats
    ensures KeyOf(n) in Targets(ip, nats) && Targets(ip, nats)[KeyOf(n)] == Backend(ip, n.backend)
  {
    var init := nats[..|nats| - 1];
    assert nats == init + [nats[|nats| - 1]];
    if n in init {
      TargetOf(ip, init, n);
      assert KeyOf(n) in Targets(ip, init);
    }
  }

  ghost predicate DistinctKeys(nats: seq<Nat>) {
    nats == [] || (DistinctKeys(nats[..|nats| - 1]) && KeyOf(nats[|nats| - 1]) !in Keys(nats[..|nats| - 1]))
  }

  lemma {:induction false} NextKey(nats: seq<Nat>, j: nat)
    requires j < |nats| && DistinctKeys(nats)
    ensures Keys(nats[..j + 1]) == Keys(nats[..j]) + {KeyOf(nats[j])} <= Keys(nats)
    ensures KeyOf(nats[j]) !in Keys(nats[..j])
  {
    var init := nats[..|nats| - 1];
    if j + 1 == |nats| {
      assert nats[..j + 1] == nats;
    } else {
      NextKey(init, j);
      assert init[..j + 1] == nats[..j + 1] && init[..j] == nats[..j];
    }
  }

  datatype PortResult = Mapped(entry: Nat) | Refused | Waiting

  datatype PortsResult = AllMapped | OneRefused | OneWaiting

  datatype NetResult = Up(iface: NetworkInterface) | Down | Pending

  class NetworkManager {
    const ips: IPAllocator
    const tcp: PortAllocator
    const udp: PortAllocator
    const mapper: PortMapper
    /** Which live interface holds each port in use, and where the ports of each are forwarded to. */
    ghost var owner: map<Key, NetworkInterface>
    ghost var ledger: map<NetworkInterface, map<Key, Backend>>
    /** No interface was ever given an address that another one had. */
    ghost var sole: bool

    /** The address allocator is new, and its goroutine does its first scan. */
    constructor (ips: IPAllocator)
      requires ValidPos(ips.range, ips.View())
      modifies ips
      ensures Valid() && ledger == map[] && sole && this.ips == ips
      ensures Fresh(ips.range, ips.View()) && ips.used == old(ips.used)
      ensures fresh(tcp) && fresh(udp) && fresh(mapper) && mapper.failures == 0
    {
      ScanFinds(ips.range, ips.View());
      ips.Search();
      this.ips := ips;
      tcp := new PortAllocator();
      udp := new PortAllocator();
      mapper := new PortMapper();
      owner, ledger, sole := map[], map[], true;
    }

    ghost predicate Busy(k: Key)
      reads tcp, udp
    {
      k.port in (if k.proto == Tcp then tcp.inUse else udp.inUse)
    }

    /** The ports in use are the owned ones, each mapped and proxied; the only mappings beyond these
        are those that iptables refused to delete, none if it never did. */
    ghost predicate PortsMatch()
      reads this`owner, tcp, udp, mapper
    {
      && tcp != udp && tcp.Valid() && udp.Valid()
      && (forall k :: Busy(k) <==> k in owner)
      && (forall k :: k in mapper.proxies <==> k in owner)
      && (forall k :: k in mapper.mapping <==> k in owner || k in mapper.stuck)
      && (mapper.failures == 0 ==> mapper.stuck == {})
    }

    /** Each live interface's entry has the ports of its extPorts. */
    ghost predicate InterfacesMatch()
      reads this`ledger, ledger.Keys
    {
      forall i :: i in ledger ==>
        && ledger[i] == Targets(i.ip, i.extPorts) && DistinctKeys(i.extPorts)
        && i.manager == this && ips.range.Candidate(i.ip)
    }

    /** The goroutine has searched and offers some address of the block. */
    ghost predicate OfferReady()
      reads ips
    {
      ValidPos(ips.range, ips.View()) && ips.range.Candidate(ips.newNum)
    }

    /** Ports owned before and after are forwarded as before. */
    twostate predicate BackendsKept()
      reads this`owner, mapper
    {
      forall k :: k in old(owner) && k in owner && k in old(mapper.mapping) ==>
        k in mapper.mapping && mapper.mapping[k] == old(mapper.mapping[k])
    }

    ghost predicate Valid()
      reads this, ledger.Keys, ips, tcp, udp, mapper
    {
      && OfferReady() && PortsMatch() && InterfacesMatch() && Balanced(owner, ledger)
      && Forwarded(mapper.mapping, ledger) && (sole ==> Sole(ledger.Keys, ips.used))
    }

    /** Take an address, and a second one if the first is the guarded one. */
    method Allocate() returns (ip: Option<int32>)
      requires OfferReady()
      modifies ips
      ensures OfferReady()
      ensures (ip, ips.View()) == Served(ips.range, old(ips.View()))
    {
      TakeStaysFresh(ips.range, ips.View());
      var n, err := ips.Acquire();
      if err {
        return None;
      }
      if n == ips.range.ipNum + 1 {
        TakeStaysFresh(ips.range, ips.View());
        n, err := ips.Acquire();
        if err {
          return None;
        }
      }
      return Some(n);
    }

    method ReturnAddress(ip: int32)
      requires OfferReady() && ips.range.Candidate(ip)
      modifies ips
      ensures OfferReady() && ips.View() == Put(ips.range, old(ips.View()), ip)
      ensures Fresh(ips.range, ips.View()) && ips.used == old(ips.used) - {ip as int}
    {
      PutStaysFresh(ips.range, ips.View(), ip);
      ips.Release(ip);
    }

    /** Acquire a port of the allocator and map it, releasing it again if that fails. */
    method AcquireAndMap(n: Nat, ip: int32, ghost iface: NetworkInterface) returns (r: Acquired)
      requires PortsMatch()
      modifies this`owner, tcp, udp, mapper
      ensures mapper.SticksOnFailure()
      ensures PortsMatch()
      ensures r.Port? ==> Key(n.proto, r.port) !in old(owner) && owner == old(owner)[Key(n.proto, r.port) := iface]
      ensures r.Port? ==> if n.frontend != 0 then r.port == n.frontend else InFountain(r.port)
      ensures !r.Port? ==> owner == old(owner)
      ensures r.Port? ==> mapper.mapping == old(mapper.mapping)[Key(n.proto, r.port) := Backend(ip, n.backend)]
      ensures BackendsKept()
    {
      var ports := if n.proto == Tcp then tcp else udp;
      r := ports.Acquire(n.frontend);
      if !r.Port? {
        assert forall k :: Busy(k) <==> old(Busy(k));
        return;
      }
      var k := Key(n.proto, r.port);
      assert !old(Busy(k));
      var ok := mapper.Map(k, Backend(ip, n.backend));
      if !ok {
        ports.Release(r.port);
        assert forall k' :: Busy(k') <==> old(Busy(k'));
        return InUse;
      }
      owner := owner[k := iface];
      assert forall k' :: Busy(k') <==> old(Busy(k')) || k' == k;
    }

    /** Container.allocateNetwork: a ghost container reserves the address it already has.
        If a port is refused, everything taken so far is given back. */
    method AllocateNetwork(specs: seq<string>, ghostIp: Option<int32>) returns (r: NetResult)
      requires Valid()
      requires ghostIp.Some? ==> ips.range.Candidate(ghostIp.value)
      modifies this, ips, tcp, udp, mapper
      ensures mapper.SticksOnFailure()
      ensures Valid()
      ensures r.Down? ==> ledger == old(ledger) && owner == old(owner)
      ensures r.Up? ==> fresh(r.iface) && ledger == old(ledger)[r.iface := Targets(r.iface.ip, r.iface.extPorts)]
      ensures r.Up? ==> AllServed(specs, r.iface.extPorts)
      ensures BackendsKept()
      ensures AddressGiven(ips.range, old(ips.View()), ips.View(), ghostIp, r)
      ensures old(sole) && NewAddress(old(ledger.Keys), old(ips.View()), ghostIp) ==> sole
    {
      hide Keys, Targets, DistinctKeys, PortsMatch, InterfacesMatch, AllServed, Forwarded, Served, Fresh;
      ServedIs(ips.range, ips.View());
      var ip := ReserveOrAllocate(ghostIp);
      if ip.None? {
        return Down;
      }
      var iface := AddInterface(ip.value);
      ForgetNew(old(ledger), iface, map[]);
      r := ConnectPorts(iface, specs);
      if r.Down? {
        BalancedOwner(owner, old(owner), ledger);
      }
    }

    /** A ghost's address that no interface has, or an offer that is not outdated. */
    ghost predicate NewAddress(ifaces: set<NetworkInterface>, offer: Alloc, ghostIp: Option<int32>) {
      if ghostIp.Some? then !HasAddress(ifaces, ghostIp.value) else Fresh(ips.range, offer)
    }

    /** All the ports, or none and the interface released. */
    method ConnectPorts(iface: NetworkInterface, specs: seq<string>) returns (r: NetResult)
      requires Valid() && iface in ledger && iface.manager == this && iface.extPorts == []
      modifies this, ips, tcp, udp, mapper, iface`extPorts
      ensures mapper.SticksOnFailure()
      ensures Valid()
      ensures r.Down? ==> ledger == old(ledger) - {iface}
      ensures r.Up? ==> r.iface == iface && ledger == old(ledger)[iface := Targets(iface.ip, iface.extPorts)]
      ensures r.Up? ==> AllServed(specs, iface.extPorts)
      ensures sole == old(sole) && BackendsKept()
      ensures ips.View() == if r.Down? then Put(ips.range, old(ips.View()), iface.ip) else old(ips.View())
      ensures r.Down? ==> Fresh(ips.range, ips.View()) && ips.used == old(ips.used) - {iface.ip as int}
    {
      hide NetworkManager.Valid, Keys, Targets, DistinctKeys, ServedUpTo, Fresh;
      var p := iface.AllocatePorts(specs);
      match p {
        case AllMapped =>
          ValidEntry(this, iface);
          return Up(iface);
        case OneWaiting => return Pending;
        case OneRefused =>
          iface.Release();
          return Down;
      }
    }

    method ReserveOrAllocate(ghostIp: Option<int32>) returns (ip: Option<int32>)
      requires OfferReady()
      requires ghostIp.Some? ==> ips.range.Candidate(ghostIp.value)
      modifies ips
      ensures OfferReady()
      ensures if ghostIp.Some?
        then ip == ghostIp && ips.View() == old(ips.View()).(used := old(ips.used) + {ghostIp.value as int})
        else (ip, ips.View()) == Served(ips.range, old(ips.View()))
    {
      if ghostIp.None? {
        ip := Allocate();
      } else {
        ips.Reserve(ghostIp.value);
        ip := ghostIp;
      }
    }

    ghost method Forget(iface: NetworkInterface)
      requires OfferReady() && PortsMatch() && InterfacesMatch()
      requires Balanced(owner, ledger - {iface}) && Forwarded(mapper.mapping, ledger - {iface})
      requires sole ==> Sole(ledger.Keys - {iface}, ips.used)
      modifies this`ledger
      ensures Valid() && ledger == old(ledger) - {iface}
    {
      hide Balanced, Forwarded, Sole, OfferReady, PortsMatch, Targets, DistinctKeys, Range.Candidate;
      ledger := ledger - {iface};
      assert ledger.Keys == old(ledger.Keys) - {iface};
    }

    method AddInterface(ip: int32) returns (iface: NetworkInterface)
      requires Valid() && ips.range.Candidate(ip) && (ip as int) in ips.used
      modifies this`ledger, this`sole
      ensures Valid() && fresh(iface) && ledger == old(ledger)[iface := map[]]
      ensures sole <==> old(sole) && !HasAddress(old(ledger.Keys), ip)
      ensures iface.ip == ip && iface.extPorts == [] && iface.manager == this
    {
      hide Balanced, Forwarded, Sole, HasAddress, PortsMatch, OfferReady, Targets, DistinctKeys, Range.Candidate;
      iface := new NetworkInterface(this, ip);
      SoleAdd(ledger.Keys, ips.used, iface);
      AddEmpty(owner, mapper.mapping, ledger, iface);
      Enter(iface);
    }

    ghost method Enter(iface: NetworkInterface)
      requires OfferReady() && PortsMatch() && InterfacesMatch() && iface !in ledger
      requires iface.manager == this && iface.extPorts == [] && ips.range.Candidate(iface.ip)
      requires Balanced(owner, With(iface)) && Forwarded(mapper.mapping, With(iface))
      requires sole && !HasAddress(ledger.Keys, iface.ip) ==> Sole(ledger.Keys + {iface}, ips.used)
      modifies this`ledger, this`sole
      ensures Valid() && ledger == old(With(iface))
      ensures sole <==> old(sole) && !HasAddress(old(ledger.Keys), iface.ip)
    {
      assert Targets(iface.ip, []) == map[] && DistinctKeys([]);
      hide Balanced, Forwarded, Sole, HasAddress, PortsMatch, OfferReady, Targets, DistinctKeys, Range.Candidate;
      assert With(iface).Keys == ledger.Keys + {iface};
      sole := sole && !HasAddress(ledger.Keys, iface.ip);
      ledger := With(iface);
    }

    ghost function With(iface: NetworkInterface): map<NetworkInterface, map<Key, Backend>>
      reads this`ledger
    {
      ledger[iface := map[]]
    }
  }

  /** The address that a new interface gets, and the addresses in use afterwards: a ghost's own one;
      otherwise the offer, or the one behind it if that is the guarded address.  If the offer is not
      outdated, it is usable and was free, and a failure leaves the addresses in use as they were, but
      for the guarded and the bridge's own one. */
  ghost predicate AddressGiven(range: Range, a: Alloc, b: Alloc, ghostIp: Option<int32>, r: NetResult)
    requires ValidPos(range, a)
  {
    && (r.Up? ==> (r.iface.ip as int) in b.used)
    && (r.Up? ==> Some(r.iface.ip) == if ghostIp.Some? then ghostIp else Served(range, a).0)
    && (ghostIp.None? ==> Fresh(range, b))
    && (ghostIp.None? && Fresh(range, a) && r.Up? ==> range.Usable(r.iface.ip) && (r.iface.ip as int) !in a.used)
    && (ghostIp.None? && Fresh(range, a) && r.Down? ==>
          a.used <= b.used <= a.used + {range.ipNum + 1, range.ownIP as int})
  }

  ghost predicate HasAddress(ifaces: set<NetworkInterface>, ip: int32) {
    exists i :: i in ifaces && i.ip == ip
  }

  /** The port granted for a request: its protocol and backend, and its frontend unless that
      is 0, which stands for any fountain port. */
  ghost predicate Grants(want: Nat, n: Nat) {
    && n.proto == want.proto && n.backend == want.backend
    && (if want.frontend != 0 then n.frontend == want.frontend else InFountain(n.frontend))
  }

  ghost predicate Serves(spec: string, n: Nat) {
    ParseNat(spec).Some? && Grants(ParseNat(spec).value, n)
  }

  ghost predicate ServedUpTo(specs: seq<string>, n: nat, nats: seq<Nat>) {
    n <= |specs| && |nats| == n && forall j :: 0 <= j < n ==> Serves(specs[j], nats[j])
  }

  lemma ServeNext(specs: seq<string>, n: nat, nats: seq<Nat>, next: Nat)
    requires n < |specs| && |nats| == n + 1 && nats[n] == next && Serves(specs[n], next)
    requires ServedUpTo(specs, n, nats[..n])
    ensures ServedUpTo(specs, n + 1, nats)
  {
    assert forall j :: 0 <= j < n ==> nats[j] == nats[..n][j];
  }

  ghost predicate AllServed(specs: seq<string>, nats: seq<Nat>) {
    ServedUpTo(specs, |specs|, nats)
  }

  class NetworkInterface {
    const manager: NetworkManager
    const ip: int32
    var extPorts: seq<Nat>

    constructor (manager: NetworkManager, ip: int32)
      ensures this.manager == manager && this.ip == ip && extPorts == []
    {
      this.manager, this.ip, extPorts := manager, ip, [];
    }

    /** The port is listed and forwarded to the interface's address, or nothing has changed. */
    twostate predicate Gains(r: PortResult)
      requires this in old(manager.ledger)
      reads this`extPorts, manager`ledger, manager.mapper
    {
      if r.Mapped? then
        && extPorts == old(extPorts) + [r.entry] && manager.ledger == old(WithPort(r.entry))
        && KeyOf(r.entry) in manager.mapper.mapping
        && manager.mapper.mapping[KeyOf(r.entry)] == Backend(ip, r.entry.backend)
      else
        manager.ledger == old(manager.ledger) && extPorts == old(extPorts)
    }

    /** Take a port and map it; on failure nothing stays taken. */
    method AllocatePort(spec: string) returns (r: PortResult)
      requires manager.Valid() && this in manager.ledger
      modifies this`extPorts, manager`owner, manager`ledger, manager.tcp, manager.udp, manager.mapper
      ensures manager.mapper.SticksOnFailure()
      ensures manager.Valid()
      ensures Gains(r) && (r.Mapped? ==> Serves(spec, r.entry))
      ensures manager.BackendsKept() && old(manager.owner.Keys) <= manager.owner.Keys
    {
      match ParseNat(spec)
      case None => return Refused;
      case Some(want) => r := AllocateNat(want);
    }

    method AllocateNat(want: Nat) returns (r: PortResult)
      requires manager.Valid() && this in manager.ledger
      modifies this`extPorts, manager`owner, manager`ledger, manager.tcp, manager.udp, manager.mapper
      ensures manager.mapper.SticksOnFailure()
      ensures manager.Valid()
      ensures Gains(r) && (r.Mapped? ==> Grants(want, r.entry))
      ensures manager.BackendsKept() && old(manager.owner.Keys) <= manager.owner.Keys
    {
      hide NetworkManager.PortsMatch, NetworkManager.OfferReady, NetworkManager.InterfacesMatch;
      hide InFountain, Balanced, Forwarded, Sole;
      var got := AcquireFor(want);
      match got {
        case InUse => return Refused;
        case Spins => return Waiting;
        case Port(p) =>
          var n := want.(frontend := p);
          Append(n);
          return Mapped(n);
      }
    }

    /** The manager's accounts have the port as this interface's, which does not list it yet. */
    method AcquireFor(want: Nat) returns (got: Acquired)
      requires manager.PortsMatch() && this in manager.ledger
      requires Balanced(manager.owner, manager.ledger) && Forwarded(manager.mapper.mapping, manager.ledger)
      modifies manager`owner, manager.tcp, manager.udp, manager.mapper
      ensures manager.mapper.SticksOnFailure() && manager.PortsMatch()
      ensures manager.BackendsKept() && old(manager.owner.Keys) <= manager.owner.Keys
      ensures got.Port? ==> Grants(want, want.(frontend := got.port))
      ensures Accounted(if got.Port? then Some(want.(frontend := got.port)) else None)
    {
      assert forall k :: k in manager.owner ==> k in manager.mapper.mapping;
      hide NetworkManager.PortsMatch, InFountain, Balanced, Forwarded;
      ghost var owner, mapping, ledger := manager.owner, manager.mapper.mapping, manager.ledger;
      got := manager.AcquireAndMap(want, ip, this);
      if got.Port? {
        var n := want.(frontend := got.port);
        BalancedAdd(owner, ledger, this, KeyOf(n), Backend(ip, n.backend));
        ForwardedAdd(owner, mapping, ledger, this, KeyOf(n), Backend(ip, n.backend));
        NotListed(owner, ledger, this, KeyOf(n));
      } else {
        ForwardedKept(owner, mapping, manager.mapper.mapping, ledger);
      }
    }

    /** The owners and mappings fit the ledger, once the new port is entered. */
    ghost predicate Accounted(n: Option<Nat>)
      requires this in manager.ledger
      reads manager`ledger, manager`owner, manager.mapper
    {
      if n.Some? then
        && KeyOf(n.value) !in manager.ledger[this] && KeyOf(n.value) in manager.mapper.mapping
        && manager.mapper.mapping[KeyOf(n.value)] == Backend(ip, n.value.backend)
        && Balanced(manager.owner, WithPort(n.value)) && Forwarded(manager.mapper.mapping, WithPort(n.value))
      else
        Balanced(manager.owner, manager.ledger) && Forwarded(manager.mapper.mapping, manager.ledger)
    }

    /** The interface lists a port that is its own already. */
    method Append(n: Nat)
      requires manager.OfferReady() && manager.PortsMatch() && manager.InterfacesMatch() && this in manager.ledger
      requires KeyOf(n) !in manager.ledger[this] && Balanced(manager.owner, WithPort(n))
      requires Forwarded(manager.mapper.mapping, WithPort(n))
      requires manager.sole ==> Sole(manager.ledger.Keys, manager.ips.used)
      modifies this`extPorts, manager`ledger
      ensures manager.Valid() && extPorts == old(extPorts) + [n] && manager.ledger == old(WithPort(n))
    {
      hide Balanced, Forwarded, Sole, NetworkManager.OfferReady, NetworkManager.PortsMatch, Range.Candidate;
      ghost var ledger := manager.ledger;
      manager.ledger := WithPort(n);
      extPorts := extPorts + [n];
      assert extPorts[..|extPorts| - 1] == old(extPorts) && manager.ledger.Keys == ledger.Keys;
    }

    ghost function WithPort(n: Nat): map<NetworkInterface, map<Key, Backend>>
      requires this in manager.ledger
      reads manager`ledger
    {
      manager.ledger[this := manager.ledger[this][KeyOf(n) := Backend(ip, n.backend)]]
    }

    /** The port loop of Container.allocateNetwork. */
    method AllocatePorts(specs: seq<string>) returns (r: PortsResult)
      requires manager.Valid() && this in manager.ledger && extPorts == []
      modifies this`extPorts, manager`owner, manager`ledger, manager.tcp, manager.udp, manager.mapper
      ensures manager.mapper.SticksOnFailure()
      ensures manager.Valid()
      ensures this in manager.ledger && manager.ledger == old(manager.ledger)[this := manager.ledger[this]]
      ensures r == AllMapped ==> AllServed(specs, extPorts)
      ensures manager.BackendsKept() && old(manager.owner.Keys) <= manager.owner.Keys
    {
      hide NetworkManager.Valid, Keys, Targets, DistinctKeys, Serves, ParseNat;
      for j := 0 to |specs|
        invariant manager.Valid() && this in manager.ledger && manager.mapper.SticksOnFailure()
        invariant manager.ledger == old(manager.ledger)[this := manager.ledger[this]]
        invariant manager.BackendsKept() && old(manager.owner.Keys) <= manager.owner.Keys
        invariant ServedUpTo(specs, j, extPorts)
      {
        var p := AllocatePort(specs[j]);
        if p == Refused {
          return OneRefused;
        }
        if p == Waiting {
          return OneWaiting;
        }
        ServeNext(specs, j, extPorts, p.entry);
      }
      return AllMapped;
    }

    /** Unmap and free every port, then give the address back. */
    method Release()
      requires manager.Valid() && this in manager.ledger
      modifies manager, manager.ips, manager.tcp, manager.udp, manager.mapper
      ensures manager.mapper.SticksOnFailure() && manager.BackendsKept()
      ensures manager.Valid() && manager.ledger == old(manager.ledger) - {this} && manager.sole == old(manager.sole)
      ensures manager.owner.Keys <= old(manager.owner.Keys)
      ensures var range, a, b := manager.ips.range, old(manager.ips.View()), manager.ips.View();
        b == Put(range, a, ip) && b.used == a.used - {ip as int} && Fresh(range, b)
    {
      ValidEntry(manager, this);
      hide Keys, Targets, DistinctKeys, NetworkManager.PortsMatch, NetworkManager.OfferReady, Fresh;
      hide Balanced, Forwarded, Sole, NetworkManager.InterfacesMatch;
      ghost var ifaces, used := manager.ledger.Keys, manager.ips.used;
      FreePorts();
      SoleRemove(ifaces, used, this);
      manager.ReturnAddress(ip);
      manager.Forget(this);
    }

    /** The manager's accounts are those without this interface. */
    method FreePorts()
      requires manager.PortsMatch() && this in manager.ledger && DistinctKeys(extPorts)
      requires Balanced(manager.owner, manager.ledger) && Forwarded(manager.mapper.mapping, manager.ledger)
      requires manager.ledger[this].Keys == Keys(extPorts)
      modifies manager`owner, manager.tcp, manager.udp, manager.mapper
      ensures manager.mapper.SticksOnFailure() && manager.BackendsKept() && manager.PortsMatch()
      ensures manager.owner.Keys <= old(manager.owner.Keys)
      ensures Balanced(manager.owner, manager.ledger - {this})
      ensures Forwarded(manager.mapper.mapping, manager.ledger - {this})
    {
      assert forall k :: k in manager.owner ==> k in manager.mapper.mapping;
      ghost var owner, mapping, ledger := manager.owner, manager.mapper.mapping, manager.ledger;
      BalancedRemove(owner, ledger, this);
      hide Keys, Targets, DistinctKeys, NetworkManager.PortsMatch, Balanced, Forwarded;
      ReleasePorts();
      ForwardedRemove(owner, mapping, manager.mapper.mapping, ledger, this);
    }

    method ReleasePorts()
      requires manager.PortsMatch() && DistinctKeys(extPorts) && Keys(extPorts) <= manager.owner.Keys
      modifies manager`owner, manager.tcp, manager.udp, manager.mapper
      ensures manager.mapper.SticksOnFailure()
      ensures manager.PortsMatch() && manager.owner == old(manager.owner) - Keys(extPorts) && manager.BackendsKept()
    {
      hide DistinctKeys, NetworkManager.PortsMatch;
      for j := 0 to |extPorts|
        invariant manager.PortsMatch() && manager.mapper.SticksOnFailure()
        invariant manager.owner == old(manager.owner) - Keys(extPorts[..j]) && manager.BackendsKept()
      {
        NextKey(extPorts, j);
        ReleasePort(extPorts[j]);
      }
      assert extPorts[..|extPorts|] == extPorts;
    }

    method ReleasePort(n: Nat)
      requires manager.PortsMatch() && KeyOf(n) in manager.owner
      modifies manager`owner, manager.tcp, manager.udp, manager.mapper
      ensures manager.mapper.SticksOnFailure()
      ensures manager.PortsMatch() && manager.owner == old(manager.owner) - {KeyOf(n)} && manager.BackendsKept()
    {
      var _ := manager.mapper.Unmap(KeyOf(n));
      if n.proto == Tcp {
        manager.tcp.Release(n.frontend);
      } else {
        manager.udp.Release(n.frontend);
      }
      manager.owner := manager.owner - {KeyOf(n)};
      assert forall k :: manager.Busy(k) <==> old(manager.Busy(k)) && k != KeyOf(n);
    }
  }

  /** If every deletion succeeded, the ports in use, those mapped and those proxied are the same, and
      they are the disjoint union of the live interfaces' frontends. */
  lemma MappingsMatch(m: NetworkManager)
    requires m.Valid() && m.mapper.failures == 0
    ensures forall k :: m.Busy(k) <==> k in m.mapper.mapping
    ensures forall k :: m.Busy(k) <==> k in m.mapper.proxies
    ensures forall k :: m.Busy(k) <==> exists i :: i in m.ledger && k in Keys(i.extPorts)
    ensures forall i, j, k ::
      i in m.ledger && j in m.ledger && k in Keys(i.extPorts) && k in Keys(j.extPorts) ==> i == j
  {
    hide Keys, DistinctKeys, NetworkManager.OfferReady;
    forall k ensures m.Busy(k) <==> exists i :: i in m.ledger && k in Keys(i.extPorts) {
      if m.Busy(k) { assert k in Keys(m.owner[k].extPorts); }
    }
    forall i, j, k | i in m.ledger && j in m.ledger && k in Keys(i.extPorts) && k in Keys(j.extPorts) ensures i == j {
      assert m.ledger[i].Keys == Keys(i.extPorts) && m.ledger[j].Keys == Keys(j.extPorts);
      assert m.owner[k] == i && m.owner[k] == j;
    }
  }

  /** The ports owned are the disjoint union of the ports listed. */
  ghost predicate Balanced(owner: map<Key, NetworkInterface>, ledger: map<NetworkInterface, map<Key, Backend>>) {
    && (forall k :: k in owner ==> owner[k] in ledger && k in ledger[owner[k]])
    && (forall i, k :: i in ledger && k in ledger[i] ==> k in owner && owner[k] == i)
  }

  lemma BalancedAdd(owner: map<Key, NetworkInterface>, ledger: map<NetworkInterface, map<Key, Backend>>,
                    i: NetworkInterface, k: Key, b: Backend)
    requires Balanced(owner, ledger) && i in ledger && k !in owner
    ensures Balanced(owner[k := i], ledger[i := ledger[i][k := b]])
  {
  }

  lemma BalancedRemove(owner: map<Key, NetworkInterface>, ledger: map<NetworkInterface, map<Key, Backend>>,
                       i: NetworkInterface)
    requires Balanced(owner, ledger) && i in ledger
    ensures Balanced(owner - ledger[i].Keys, ledger - {i})
    ensures ledger[i].Keys <= owner.Keys
  {
    var o, l := owner - ledger[i].Keys, ledger - {i};
    forall k | k in o ensures o[k] in l && k in l[o[k]] { assert k in owner && owner[k] != i; }
    forall j, k | j in l && k in l[j] ensures k in o && o[k] == j { assert owner[k] == j; }
  }

  lemma NotListed(owner: map<Key, NetworkInterface>, ledger: map<NetworkInterface, map<Key, Backend>>,
                  i: NetworkInterface, k: Key)
    requires Balanced(owner, ledger) && i in ledger && k !in owner
    ensures k !in ledger[i]
  {
  }

  /** Each port of a live interface is forwarded to the interface's address and the port asked for. */
  ghost predicate Forwarded(mapping: map<Key, Backend>, ledger: map<NetworkInterface, map<Key, Backend>>) {
    forall i, k :: i in ledger && k in ledger[i] ==> k in mapping && mapping[k] == ledger[i][k]
  }

  lemma ForwardedAdd(owner: map<Key, NetworkInterface>, mapping: map<Key, Backend>,
                     ledger: map<NetworkInterface, map<Key, Backend>>, i: NetworkInterface, k: Key, b: Backend)
    requires Balanced(owner, ledger) && Forwarded(mapping, ledger) && i in ledger && k !in owner
    ensures Forwarded(mapping[k := b], ledger[i := ledger[i][k := b]])
  {
  }

  lemma ForwardedKept(owner: map<Key, NetworkInterface>, before: map<Key, Backend>, after: map<Key, Backend>,
                      ledger: map<NetworkInterface, map<Key, Backend>>)
    requires Balanced(owner, ledger) && Forwarded(before, ledger)
    requires forall k :: k in owner && k in before ==> k in after && after[k] == before[k]
    ensures Forwarded(after, ledger)
  {
  }

  lemma ForwardedRemove(owner: map<Key, NetworkInterface>, before: map<Key, Backend>, after: map<Key, Backend>,
                        ledger: map<NetworkInterface, map<Key, Backend>>, i: NetworkInterface)
    requires Balanced(owner, ledger) && Forwarded(before, ledger) && i in ledger
    requires forall k :: k in owner && k !in ledger[i] && k in before ==> k in after && after[k] == before[k]
    ensures Forwarded(after, ledger - {i})
  {
    forall j, k | j in ledger - {i} && k in ledger[j] ensures k in after && after[k] == ledger[j][k] {
      assert k in owner && owner[k] == j;
    }
  }

  lemma AddEmpty(owner: map<Key, NetworkInterface>, mapping: map<Key, Backend>,
                 ledger: map<NetworkInterface, map<Key, Backend>>, i: NetworkInterface)
    requires Balanced(owner, ledger) && Forwarded(mapping, ledger) && i !in ledger
    ensures Balanced(owner, ledger[i := map[]]) && Forwarded(mapping, ledger[i := map[]])
  {
  }

  /** Each interface has an address of its own, and it is in use. */
  ghost predicate Sole(ifaces: set<NetworkInterface>, used: set<int>) {
    && (forall i :: i in ifaces ==> (i.ip as int) in used)
    && (forall i, j :: i in ifaces && j in ifaces && i.ip == j.ip ==> i == j)
  }

  lemma SoleAdd(ifaces: set<NetworkInterface>, used: set<int>, i: NetworkInterface)
    requires (i.ip as int) in used
    ensures Sole(ifaces, used) && !HasAddress(ifaces, i.ip) ==> Sole(ifaces + {i}, used)
  {
  }

  lemma SoleMore(ifaces: set<NetworkInterface>, used: set<int>, more: set<int>)
    requires used <= more
    ensures Sole(ifaces, used) ==> Sole(ifaces, more)
  {
  }

  lemma SoleRemove(ifaces: set<NetworkInterface>, used: set<int>, i: NetworkInterface)
    requires i in ifaces
    ensures Sole(ifaces, used) ==> Sole(ifaces - {i}, used - {i.ip as int})
  {
  }

  lemma ValidEntry(m: NetworkManager, i: NetworkInterface)
    requires m.Valid() && i in m.ledger
    ensures m.ledger[i] == Targets(i.ip, i.extPorts) && DistinctKeys(i.extPorts)
    ensures i.manager == m && m.ips.range.Candidate(i.ip)
  {
  }

  /** Each port of a live interface is in use, by no other, and forwarded to the interface's address
      and the port that was asked for. */
  lemma ForwardsTo(m: NetworkManager, i: NetworkInterface, n: Nat)
    requires m.Valid() && i in m.ledger && n in i.extPorts
    ensures KeyOf(n) in m.owner && m.owner[KeyOf(n)] == i && m.Busy(KeyOf(n))
    ensures KeyOf(n) in m.mapper.mapping && m.mapper.mapping[KeyOf(n)] == Backend(i.ip, n.backend)
  {
    TargetOf(i.ip, i.extPorts, n);
    hide Targets, Keys, DistinctKeys;
  }

  lemma ForgetNew(ledger: map<NetworkInterface, map<Key, Backend>>, i: NetworkInterface, ks: map<Key, Backend>)
    requires i !in ledger
    ensures ledger[i := ks] - {i} == ledger
  {
  }

  /** The listing determines the owners. */
  lemma BalancedOwner(o: map<Key, NetworkInterface>, p: map<Key, NetworkInterface>,
                      ledger: map<NetworkInterface, map<Key, Backend>>)
    requires Balanced(o, ledger) && Balanced(p, ledger)
    ensures o == p
  {
    assert forall k :: k in o <==> k in p;
    assert forall k :: k in o ==> o[k] == p[k];
  }
}
