/**
 The accumulator of MdnsParser.cpp: one message object takes the resource records of a packet
 one by one and, at the end, makes at most one delivery. What the Matter library extracts
 from a record is part of the record here.
 */
module MdnsSpec {
  import opened Basics

  /** The service names the records are matched against. */
  datatype Names = Names(operational: string, commissionable: string, commissioner: string)

  /**
   Srv: `port` and `target` are what the record object holds after parsing, parsed or not;
   `idOk` and `peer` are the result of extracting the peer id and what it left behind.
   Address stands for A and AAAA, which are treated alike; `addr` is None if parsing failed.
   */
  datatype Record =
    | Srv(name: seq<string>, target: seq<string>, port: nat, idOk: bool, peer: nat)
    | Ptr(instance: seq<string>)
    | Txt(name: seq<string>, text: string)
    | Address(name: seq<string>, addr: Option<nat>)
    | Other

  datatype NodeData = NodeData(hostName: string, peer: nat, port: nat, address: nat, txt: seq<string>)

  datatype Discovered = Discovered(
    hostName: string, instanceName: string, port: nat, addresses: seq<(nat, nat)>, txt: seq<string>)

  /** `isValid` is the library's test of the discovered data. */
  datatype Config = Config(names: Names, maxAddresses: nat, iface: nat, isValid: Discovered -> bool)

  datatype Message = Message(hasIP: bool, hasNodePort: bool, node: NodeData, found: Discovered)

  datatype Delivery = Nothing | NodeFound(found: Discovered) | NodeResolved(node: NodeData)

  const EMPTY := Message(false, false, NodeData("", 0, 0, 0, []), Discovered("", "", 0, [], []))

  predicate IsOperational(c: Config, name: seq<string>) { c.names.operational in name }

  predicate IsCommissioning(c: Config, name: seq<string>) {
    c.names.commissionable in name || c.names.commissioner in name
  }

  // One record

  function OnOperationalSrv(m: Message, r: Record): Message
    requires r.Srv?
  {
    var node := if r.target != [] then m.node.(hostName := r.target[0]) else m.node;
    if r.name == [] then m.(hasNodePort := false, node := node)
    else if !r.idOk then m.(hasNodePort := false, node := node.(peer := r.peer))
    else m.(hasNodePort := true, node := node.(peer := r.peer, port := r.port))
  }

  function OnCommissioningSrv(m: Message, r: Record): Message
    requires r.Srv?
  {
    var found := if r.target != [] then m.found.(hostName := r.target[0]) else m.found;
    var named := if r.name != [] then found.(instanceName := r.name[0]) else found;
    m.(found := named.(port := r.port))
  }

  function OnFoundAddress(c: Config, m: Message, addr: nat): Message {
    if |m.found.addresses| >= c.maxAddresses then m
    else m.(found := m.found.(addresses := m.found.addresses + [(addr, c.iface)]))
  }

  function OnResource(c: Config, m: Message, r: Record): Message {
    match r
    case Srv(name, _, _, _, _) =>
      if IsOperational(c, name) then OnOperationalSrv(m, r)
      else if IsCommissioning(c, name) then OnCommissioningSrv(m, r)
      else m
    case Ptr(instance) =>
      if instance != [] then m.(found := m.found.(instanceName := instance[0])) else m
    case Txt(name, text) =>
      if IsCommissioning(c, name) then m.(found := m.found.(txt := m.found.txt + [text]))
      else if IsOperational(c, name) then m.(node := m.node.(txt := m.node.txt + [text]))
      else m
    case Address(name, addr) =>
      if addr.None? then m.(hasIP := false)
      else if IsOperational(c, name) then m.(hasIP := true, node := m.node.(address := addr.value))
      else if IsCommissioning(c, name) then OnFoundAddress(c, m, addr.value)
      else m
    case Other => m
  }

  function OnComplete(c: Config, m: Message): Delivery {
    if c.isValid(m.found) then NodeFound(m.found)
    else if m.hasIP && m.hasNodePort then NodeResolved(m.node)
    else Nothing
  }

  function Accumulate(c: Config, rs: seq<Record>): Message {
    if rs == [] then EMPTY else OnResource(c, Accumulate(c, rs[..|rs| - 1]), rs[|rs| - 1])
  }

  /** What a packet that parses is worth. */
  function Delivered(c: Config, rs: seq<Record>): Delivery {
    OnComplete(c, Accumulate(c, rs))
  }

  // The records that matter

  /** SRV records of the operational service. */
  function Srvs(c: Config, rs: seq<Record>): (ss: seq<Record>)
    ensures forall i :: 0 <= i < |ss| ==> ss[i].Srv? && IsOperational(c, ss[i].name)
  {
    if rs == [] then [] else Srvs(c, rs[..|rs| - 1]) + SrvOf(c, rs[|rs| - 1])
  }

  /** Operational SRV records that name a host. */
  function HostSrvs(c: Config, rs: seq<Record>): (ss: seq<Record>)
    ensures forall i :: 0 <= i < |ss| ==> ss[i].Srv? && ss[i].target != []
  {
    if rs == [] then [] else HostSrvs(c, rs[..|rs| - 1]) + HostSrvOf(c, rs[|rs| - 1])
  }

  function SrvOf(c: Config, r: Record): seq<Record> {
    if r.Srv? && IsOperational(c, r.name) then [r] else []
  }

  function HostSrvOf(c: Config, r: Record): seq<Record> {
    if r.Srv? && IsOperational(c, r.name) && r.target != [] then [r] else []
  }

  /** Operational addresses, and failed address records of any name: each decides afresh. */
  function Addresses(c: Config, rs: seq<Record>): (ss: seq<Option<nat>>) {
    if rs == [] then []
    else
      var r := rs[|rs| - 1];
      Addresses(c, rs[..|rs| - 1]) + AddressOf(c, r)
  }

  function AddressOf(c: Config, r: Record): seq<Option<nat>> {
    if r.Address? && (r.addr.None? || IsOperational(c, r.name)) then [r.addr] else []
  }

  /** Addresses of commissioning services that are not operational too. */
  function FoundAddresses(c: Config, rs: seq<Record>): (ss: seq<(nat, nat)>) {
    if rs == [] then [] else FoundAddresses(c, rs[..|rs| - 1]) + FoundAddress(c, rs[|rs| - 1])
  }

  function FoundAddress(c: Config, r: Record): seq<(nat, nat)> {
    if r.Address? && r.addr.Some? && !IsOperational(c, r.name) && IsCommissioning(c, r.name)
    then [(r.addr.value, c.iface)] else []
  }

  /** Ports, host names and instance names reported for a commissioning service, in order. */
  function FoundPorts(c: Config, rs: seq<Record>): (ss: seq<nat>) {
    if rs == [] then [] else FoundPorts(c, rs[..|rs| - 1]) + FoundPort(c, rs[|rs| - 1])
  }

  function FoundHosts(c: Config, rs: seq<Record>): (ss: seq<string>) {
    if rs == [] then [] else FoundHosts(c, rs[..|rs| - 1]) + FoundHost(c, rs[|rs| - 1])
  }

  function FoundInstances(c: Config, rs: seq<Record>): (ss: seq<string>) {
    if rs == [] then [] else FoundInstances(c, rs[..|rs| - 1]) + FoundInstance(c, rs[|rs| - 1])
  }

  /** Texts of the two kinds of services; a name that is both is commissioning here. */
  function FoundTexts(c: Config, rs: seq<Record>): (ss: seq<string>) {
    if rs == [] then [] else FoundTexts(c, rs[..|rs| - 1]) + FoundText(c, rs[|rs| - 1])
  }

  function NodeTexts(c: Config, rs: seq<Record>): (ss: seq<string>) {
    if rs == [] then [] else NodeTexts(c, rs[..|rs| - 1]) + NodeText(c, rs[|rs| - 1])
  }

  function FoundText(c: Config, r: Record): seq<string> {
    if r.Txt? && IsCommissioning(c, r.name) then [r.text] else []
  }

  function NodeText(c: Config, r: Record): seq<string> {
    if r.Txt? && !IsCommissioning(c, r.name) && IsOperational(c, r.name) then [r.text] else []
  }

  predicate IsFoundSrv(c: Config, r: Record) {
    r.Srv? && !IsOperational(c, r.name) && IsCommissioning(c, r.name)
  }

  function FoundPort(c: Config, r: Record): seq<nat> {
    if IsFoundSrv(c, r) then [r.port] else []
  }

  function FoundHost(c: Config, r: Record): seq<string> {
    if IsFoundSrv(c, r) && r.target != [] then [r.target[0]] else []
  }

  /** PTR records name an instance whatever service they are about. */
  function FoundInstance(c: Config, r: Record): seq<string> {
    if IsFoundSrv(c, r) then [r.name[0]]
    else if r.Ptr? && r.instance != [] then [r.instance[0]]
    else []
  }

  function Last<T>(s: seq<T>): T
    requires s != []
  {
    s[|s| - 1]
  }

  function LastOr<T>(s: seq<T>, default: T): T {
    if s == [] then default else s[|s| - 1]
  }

  lemma LastOrAppend<T>(s: seq<T>, t: seq<T>, default: T)
    ensures LastOr(s + t, default) == LastOr(t, LastOr(s, default))
  {
  }

  // What a packet amounts to

  /** An operational SRV record decides flag, port and peer id, any other record leaves them. */
  lemma SrvStep(c: Config, m: Message, r: Record)
    ensures
      var m' := OnResource(c, m, r);
      if SrvOf(c, r) == [] then
        m'.hasNodePort == m.hasNodePort && m'.node.port == m.node.port && m'.node.peer == m.node.peer
      else
        m'.hasNodePort == r.idOk && (r.idOk ==> m'.node.port == r.port && m'.node.peer == r.peer)
    ensures OnResource(c, m, r).node.hostName == if HostSrvOf(c, r) == [] then m.node.hostName else r.target[0]
  {
  }

  /**
   The port flag, the port and the peer id all come from the last operational SRV record. An
   operational record has a name, so only a failed id extraction clears the flag.
   */
  lemma {:induction false} PortFromLastSrv(c: Config, rs: seq<Record>)
    ensures
      var m, ss := Accumulate(c, rs), Srvs(c, rs);
      && (m.hasNodePort <==> ss != [] && Last(ss).idOk)
      && (m.hasNodePort ==> m.node.port == Last(ss).port && m.node.peer == Last(ss).peer)
  {
    if rs != [] {
      PortFromLastSrv(c, rs[..|rs| - 1]);
      SrvStep(c, Accumulate(c, rs[..|rs| - 1]), rs[|rs| - 1]);
    }
  }

  /** The host name may be older: it is the last one named by an operational SRV record. */
  lemma {:induction false} HostFromLastTarget(c: Config, rs: seq<Record>)
    ensures
      var m, ss := Accumulate(c, rs), HostSrvs(c, rs);
      m.node.hostName == if ss == [] then "" else Last(ss).target[0]
  {
    if rs != [] {
      HostFromLastTarget(c, rs[..|rs| - 1]);
      SrvStep(c, Accumulate(c, rs[..|rs| - 1]), rs[|rs| - 1]);
    }
  }

  /** An address record that counts decides flag and address, any other leaves both. */
  lemma AddressStep(c: Config, m: Message, r: Record)
    ensures
      var m', last := OnResource(c, m, r), AddressOf(c, r);
      if last == [] then m'.hasIP == m.hasIP && m'.node.address == m.node.address
      else m'.hasIP == last[0].Some? && (m'.hasIP ==> m'.node.address == last[0].value)
  {
  }

  /** The address is the last operational one, and no address record failed to parse after it. */
  lemma {:induction false} AddressFromLast(c: Config, rs: seq<Record>)
    ensures
      var m, ss := Accumulate(c, rs), Addresses(c, rs);
      && (m.hasIP <==> ss != [] && Last(ss).Some?)
      && (m.hasIP ==> m.node.address == Last(ss).value)
  {
    if rs != [] {
      var rest, r := rs[..|rs| - 1], rs[|rs| - 1];
      AddressFromLast(c, rest);
      AddressStep(c, Accumulate(c, rest), r);
      if AddressOf(c, r) == [] {
        assert Addresses(c, rs) == Addresses(c, rest);
      }
    }
  }

  /** What one record does to the discovered data. */
  lemma FoundStep(c: Config, m: Message, r: Record)
    ensures
      var found := OnResource(c, m, r).found;
      && found.port == LastOr(FoundPort(c, r), m.found.port)
      && found.hostName == LastOr(FoundHost(c, r), m.found.hostName)
      && found.instanceName == LastOr(FoundInstance(c, r), m.found.instanceName)
  {
  }

  /** Port, host name and instance name of a discovered node are the last ones reported. */
  lemma {:induction false} FoundFromLast(c: Config, rs: seq<Record>)
    ensures
      var found := Accumulate(c, rs).found;
      && found.port == LastOr(FoundPorts(c, rs), 0)
      && found.hostName == LastOr(FoundHosts(c, rs), "")
      && found.instanceName == LastOr(FoundInstances(c, rs), "")
  {
    if rs != [] {
      var rest, r := rs[..|rs| - 1], rs[|rs| - 1];
      FoundFromLast(c, rest);
      FoundStep(c, Accumulate(c, rest), r);
      LastOrAppend(FoundPorts(c, rest), FoundPort(c, r), 0);
      LastOrAppend(FoundHosts(c, rest), FoundHost(c, r), "");
      LastOrAppend(FoundInstances(c, rest), FoundInstance(c, r), "");
    }
  }

  lemma TextStep(c: Config, m: Message, r: Record)
    ensures OnResource(c, m, r).found.txt == m.found.txt + FoundText(c, r)
    ensures OnResource(c, m, r).node.txt == m.node.txt + NodeText(c, r)
  {
  }

  /** Texts are all kept, in order, each with one kind of node. */
  lemma {:induction false} TextsKept(c: Config, rs: seq<Record>)
    ensures Accumulate(c, rs).found.txt == FoundTexts(c, rs)
    ensures Accumulate(c, rs).node.txt == NodeTexts(c, rs)
  {
    if rs != [] {
      TextsKept(c, rs[..|rs| - 1]);
      TextStep(c, Accumulate(c, rs[..|rs| - 1]), rs[|rs| - 1]);
    }
  }

  /** A discovered node lists the first addresses of its packet, in order, up to the limit. */
  lemma {:induction false} FirstAddressesKept(c: Config, rs: seq<Record>)
    ensures
      var all := FoundAddresses(c, rs);
      Accumulate(c, rs).found.addresses == all[..if |all| < c.maxAddresses then |all| else c.maxAddresses]
  {
    if rs != [] {
      FirstAddressesKept(c, rs[..|rs| - 1]);
    }
  }

  /** What a resolved-node delivery contains, and exactly when there is one. */
  lemma ResolvedExactlyWhen(c: Config, rs: seq<Record>)
    ensures
      var d, ss, as_, hosts := Delivered(c, rs), Srvs(c, rs), Addresses(c, rs), HostSrvs(c, rs);
      && (d.NodeResolved? <==>
            !c.isValid(Accumulate(c, rs).found)
            && ss != [] && Last(ss).idOk && as_ != [] && Last(as_).Some?)
      && (d.NodeResolved? ==>
            d.node == NodeData(if hosts == [] then "" else Last(hosts).target[0],
                               Last(ss).peer, Last(ss).port, Last(as_).value, NodeTexts(c, rs)))
  {
    PortFromLastSrv(c, rs);
    AddressFromLast(c, rs);
    HostFromLastTarget(c, rs);
    TextsKept(c, rs);
  }

  /** What a packet reports of a discovered node, kind by kind. */
  function Found(c: Config, rs: seq<Record>): Discovered {
    var all := FoundAddresses(c, rs);
    Discovered(LastOr(FoundHosts(c, rs), ""), LastOr(FoundInstances(c, rs), ""), LastOr(FoundPorts(c, rs), 0),
               all[..if |all| < c.maxAddresses then |all| else c.maxAddresses], FoundTexts(c, rs))
  }

  /** What a discovered-node delivery contains, and exactly when there is one. */
  lemma FoundExactlyWhen(c: Config, rs: seq<Record>)
    ensures Delivered(c, rs).NodeFound? <==> c.isValid(Found(c, rs))
    ensures Delivered(c, rs).NodeFound? ==> Delivered(c, rs).found == Found(c, rs)
    ensures Accumulate(c, rs).found == Found(c, rs)
  {
    FoundFromLast(c, rs);
    FirstAddressesKept(c, rs);
    TextsKept(c, rs);
  }

  /** One commissioning record, and what it makes of the discovered node. */
  lemma OneFoundRecord(c: Config, instance: string, host: string, port: nat)
    requires c.names.operational !in [instance, c.names.commissionable]
    ensures
      var rs := [Srv([instance, c.names.commissionable], [host], port, true, 0)];
      var found := Discovered(host, instance, port, [], []);
      Delivered(c, rs) == if c.isValid(found) then NodeFound(found) else Nothing
  {
    var r := Srv([instance, c.names.commissionable], [host], port, true, 0);
    assert [r][..0] == [];
    assert Accumulate(c, [r]) == OnResource(c, EMPTY, r);
  }

  /** Which records the names select, with an operational name in front of a commissioning one. */
  lemma SelectedByName(c: Config, r: Record)
    ensures SrvOf(c, r) == [r] <==> r.Srv? && c.names.operational in r.name
    ensures HostSrvOf(c, r) == [r] <==> r.Srv? && c.names.operational in r.name && r.target != []
    ensures AddressOf(c, r) != [] <==> r.Address? && (r.addr.None? || c.names.operational in r.name)
    ensures FoundPort(c, r) != [] <==>
            r.Srv? && c.names.operational !in r.name
            && (c.names.commissionable in r.name || c.names.commissioner in r.name)
    ensures FoundAddress(c, r) != [] <==>
            r.Address? && r.addr.Some? && c.names.operational !in r.name
            && (c.names.commissionable in r.name || c.names.commissioner in r.name)
    ensures FoundText(c, r) != [] <==>
            r.Txt? && (c.names.commissionable in r.name || c.names.commissioner in r.name)
    ensures NodeText(c, r) != [] <==>
            r.Txt? && c.names.commissionable !in r.name && c.names.commissioner !in r.name
            && c.names.operational in r.name
  {
  }

  /** Both packets report the same things of each kind, in the same order within the kind. */
  ghost predicate SameOfEachKind(c: Config, rs: seq<Record>, qs: seq<Record>) {
    && Srvs(c, rs) == Srvs(c, qs) && Addresses(c, rs) == Addresses(c, qs)
    && NodeTexts(c, rs) == NodeTexts(c, qs) && FoundTexts(c, rs) == FoundTexts(c, qs)
    && FoundPorts(c, rs) == FoundPorts(c, qs) && FoundHosts(c, rs) == FoundHosts(c, qs)
    && FoundInstances(c, rs) == FoundInstances(c, qs) && FoundAddresses(c, rs) == FoundAddresses(c, qs)
  }

  /**
   What is delivered depends on the sequence of each kind of record alone, however the kinds
   interleave and whatever else the packets contain.
   */
  lemma InterleavingIsIrrelevant(c: Config, rs: seq<Record>, qs: seq<Record>)
    requires SameOfEachKind(c, rs, qs)
    ensures Delivered(c, rs) == Delivered(c, qs)
  {
    FoundExactlyWhen(c, rs);
    FoundExactlyWhen(c, qs);
    ResolvedExactlyWhen(c, rs);
    ResolvedExactlyWhen(c, qs);
    HostSrvsOfSrvs(c, rs);
    HostSrvsOfSrvs(c, qs);
  }

  function WithTarget(ss: seq<Record>): seq<Record> {
    if ss == [] then []
    else WithTarget(ss[..|ss| - 1]) + if Last(ss).Srv? && Last(ss).target != [] then [Last(ss)] else []
  }

  lemma {:induction false} HostSrvsOfSrvs(c: Config, rs: seq<Record>)
    ensures HostSrvs(c, rs) == WithTarget(Srvs(c, rs))
  {
    if rs != [] {
      var rest, r := rs[..|rs| - 1], rs[|rs| - 1];
      HostSrvsOfSrvs(c, rest);
      if r.Srv? && IsOperational(c, r.name) {
        assert (Srvs(c, rest) + [r])[..|Srvs(c, rest)|] == Srvs(c, rest);
      } else {
        assert Srvs(c, rs) == Srvs(c, rest);
      }
    }
  }

  /** A delivered host name need not belong to the delivered port. */
  lemma HostCanBeStale(c: Config)
    ensures
      var op := c.names.operational;
      var rs := [Srv([op], ["old"], 1, true, 7), Srv([op], [], 2, true, 8), Address([op], Some(9))];
      Delivered(c, rs) ==
      if c.isValid(EMPTY.found) then NodeFound(EMPTY.found) else NodeResolved(NodeData("old", 8, 2, 9, []))
  {
    var op := c.names.operational;
    var r0, r1, r2 := Srv([op], ["old"], 1, true, 7), Srv([op], [], 2, true, 8), Address([op], Some(9));
    assert [r0, r1, r2][..2] == [r0, r1] && [r0, r1][..1] == [r0] && [r0][..0] == [];
    assert Accumulate(c, [r0]) == OnResource(c, EMPTY, r0);
    assert Accumulate(c, [r0, r1]) == OnResource(c, Accumulate(c, [r0]), r1);
  }

  /** Both packets deliver a resolved node, and its port comes from the same SRV record. */
  ghost predicate SameSource(c: Config, rs: seq<Record>, qs: seq<Record>) {
    && Delivered(c, rs).NodeResolved? && Delivered(c, qs).NodeResolved?
    && Srvs(c, rs) != [] && Srvs(c, qs) != [] && Last(Srvs(c, rs)) == Last(Srvs(c, qs))
  }

  lemma ResolvedHasSrv(c: Config, rs: seq<Record>)
    requires Delivered(c, rs).NodeResolved?
    ensures Srvs(c, rs) != [] && Last(Srvs(c, rs)).idOk
  {
    ResolvedExactlyWhen(c, rs);
  }

  /** If the record that gave the port names a host, the delivered host is that one. */
  lemma HostOfLastSrv(c: Config, rs: seq<Record>)
    requires Srvs(c, rs) != [] && Last(Srvs(c, rs)).target != []
    ensures Accumulate(c, rs).node.hostName == Last(Srvs(c, rs)).target[0]
  {
    HostFromLastTarget(c, rs);
    HostSrvsOfSrvs(c, rs);
  }

  /** A record without a target leaves any host name standing: here `host` of another record. */
  lemma HostFromElsewhere(c: Config, rs: seq<Record>, host: string) returns (qs: seq<Record>)
    requires Delivered(c, rs).NodeResolved? && Srvs(c, rs) != [] && Last(Srvs(c, rs)).target == []
    ensures SameSource(c, rs, qs) && Delivered(c, qs).node.hostName == host
  {
    ResolvedHasSrv(c, rs);
    var other, last := Srv([c.names.operational], [host], 0, true, 0), Last(Srvs(c, rs));
    var ps := rs + [other];
    qs := ps + [last];
    assert qs[..|qs| - 1] == ps && ps[..|ps| - 1] == rs;
    assert last.Srv? && IsOperational(c, last.name);
    assert Accumulate(c, ps) == OnOperationalSrv(Accumulate(c, rs), other);
    assert Accumulate(c, qs) == OnOperationalSrv(Accumulate(c, ps), last);
    assert Srvs(c, qs) == Srvs(c, ps) + [last];
  }

  /**
   A delivered host name belongs to the delivered port, that is, the SRV record that gave the
   port determines it, exactly when that record names a host.
   */
  lemma HostBelongsIff(c: Config, rs: seq<Record>)
    requires Delivered(c, rs).NodeResolved?
    ensures Srvs(c, rs) != []
    ensures (forall qs :: SameSource(c, rs, qs) ==>
               Delivered(c, qs).node.hostName == Delivered(c, rs).node.hostName)
            <==> Last(Srvs(c, rs)).target != []
    ensures Last(Srvs(c, rs)).target != [] ==>
              Delivered(c, rs).node.hostName == Last(Srvs(c, rs)).target[0]
  {
    ResolvedHasSrv(c, rs);
    if Last(Srvs(c, rs)).target != [] {
      HostOfLastSrv(c, rs);
      forall qs | SameSource(c, rs, qs)
        ensures Delivered(c, qs).node.hostName == Delivered(c, rs).node.hostName
      {
        HostOfLastSrv(c, qs);
      }
    } else {
      var qs := HostFromElsewhere(c, rs, Delivered(c, rs).node.hostName + "x");
    }
  }
}

module MdnsAccumulator {
  import opened MdnsSpec

  method HasQNamePart(name: seq<string>, part: string) returns (r: bool)
    ensures r <==> part in name
  {
    for i := 0 to |name|
      invariant part !in name[..i]
    {
      if name[i] == part {
        return true;
      }
    }
    return false;
  }

  class MdnsMessage {
    const c: Config
    var hasIP: bool
    var hasNodePort: bool
    var node: NodeData
    var found: Discovered

    function State(): Message
      reads this
    {
      Message(hasIP, hasNodePort, node, found)
    }

    constructor (c: Config)
      ensures this.c == c && State() == EMPTY
    {
      this.c := c;
      hasIP, hasNodePort, node, found := false, false, EMPTY.node, EMPTY.found;
    }

    method OnOperationalSrvRecord(r: Record)
      requires r.Srv?
      modifies this
      ensures State() == OnOperationalSrv(old(State()), r)
    {
      if r.target != [] {
        node := node.(hostName := r.target[0]);
      }
      if r.name == [] {
        hasNodePort := false;
        return;
      }
      node := node.(peer := r.peer);
      if !r.idOk {
        hasNodePort := false;
        return;
      }
      node := node.(port := r.port);
      hasNodePort := true;
    }

    method OnCommissionableNodeSrvRecord(r: Record)
      requires r.Srv?
      modifies this
      ensures State() == OnCommissioningSrv(old(State()), r)
    {
      if r.target != [] {
        found := found.(hostName := r.target[0]);
      }
      if r.name != [] {
        found := found.(instanceName := r.name[0]);
      }
      found := found.(port := r.port);
    }

    method OnDiscoveredNodeIPAddress(addr: nat)
      modifies this
      ensures State() == OnFoundAddress(c, old(State()), addr)
    {
      if |found.addresses| >= c.maxAddresses {
        return;
      }
      found := found.(addresses := found.addresses + [(addr, c.iface)]);
    }

    method OnResource(r: Record)
      modifies this
      ensures State() == MdnsSpec.OnResource(c, old(State()), r)
    {
      match r
      case Srv(name, _, _, _, _) =>
        var operational, commissioning := Services(name);
        if operational {
          OnOperationalSrvRecord(r);
        } else if commissioning {
          OnCommissionableNodeSrvRecord(r);
        }
      case Ptr(instance) =>
        if instance != [] {
          found := found.(instanceName := instance[0]);
        }
      case Txt(name, text) =>
        var operational, commissioning := Services(name);
        if commissioning {
          found := found.(txt := found.txt + [text]);
        } else if operational {
          node := node.(txt := node.txt + [text]);
        }
      case Address(name, addr) =>
        if addr.None? {
          hasIP := false;
        } else {
          var operational, commissioning := Services(name);
          if operational {
            node := node.(address := addr.value);
            hasIP := true;
          } else if commissioning {
            OnDiscoveredNodeIPAddress(addr.value);
          }
        }
      case Other =>
    }

    method Services(name: seq<string>) returns (operational: bool, commissioning: bool)
      ensures operational == IsOperational(c, name) && commissioning == IsCommissioning(c, name)
    {
      operational := HasQNamePart(name, c.names.operational);
      var commissionable := HasQNamePart(name, c.names.commissionable);
      var commissioner := HasQNamePart(name, c.names.commissioner);
      commissioning := commissionable || commissioner;
    }
  }

  class MdnsParser {
    var delivered: seq<Delivery>

    constructor ()
      ensures delivered == []
    {
      delivered := [];
    }

    /** A packet that fails to parse after some records delivers nothing, any other at most once. */
    method OnMdnsPacketData(c: Config, records: seq<Record>, parseOk: bool)
      modifies this
      ensures
        var d := Delivered(c, records);
        delivered == old(delivered) + if parseOk && !d.Nothing? then [d] else []
    {
      var m := new MdnsMessage(c);
      for i := 0 to |records|
        invariant fresh(m) && m.c == c && delivered == old(delivered)
        invariant m.State() == Accumulate(c, records[..i])
      {
        assert records[..i + 1][..i] == records[..i];
        m.OnResource(records[i]);
      }
      assert records[..|records|] == records;
      if parseOk {
        if c.isValid(m.found) {
          delivered := delivered + [NodeFound(m.found)];
        } else if m.hasIP && m.hasNodePort {
          delivered := delivered + [NodeResolved(m.node)];
        }
      }
    }
  }
}
