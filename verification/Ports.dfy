/** The port part of request validation in api/application.go. */
module Ports {
  import opened Collections

  const NODE_PORT := "NodePort"
  const UDP := "UDP"

  datatype Port = Port(protocol: string, serviceType: string, nodePort: int, hostPort: int)

  /** A port number claimed on the node, within UDP or within everything else. */
  datatype Claim = Claim(udp: bool, number: int)

  predicate IsNodePort(p: Port) {
    p.serviceType == NODE_PORT
  }

  predicate UsesHostPort(p: Port) {
    !IsNodePort(p) && p.hostPort != 0
  }

  function ClaimOf(p: Port): seq<Claim> {
    if IsNodePort(p) then [Claim(p.protocol == UDP, p.nodePort)]
    else if p.hostPort != 0 then [Claim(p.protocol == UDP, p.hostPort)]
    else []
  }

  ghost function Claims(ports: seq<Port>): seq<Claim> {
    if ports == [] then [] else Claims(ports[..|ports| - 1]) + ClaimOf(ports[|ports| - 1])
  }

  ghost predicate NodePortsPositive(ports: seq<Port>) {
    forall i | 0 <= i < |ports| :: IsNodePort(ports[i]) ==> ports[i].nodePort > 0
  }

  ghost predicate NoHostPorts(ports: seq<Port>) {
    forall i | 0 <= i < |ports| :: !UsesHostPort(ports[i])
  }

  ghost predicate Sound(ports: seq<Port>) {
    NodePortsPositive(ports) && NoDuplicates(Claims(ports))
  }

  /** The rule, over all ports of all services and init services together. */
  ghost predicate Acceptable(replica: int, ports: seq<Port>) {
    Sound(ports) && (replica > 1 ==> NoHostPorts(ports))
  }

  ghost function Flat(services: seq<seq<Port>>): seq<Port> {
    if services == [] then [] else Flat(services[..|services| - 1]) + services[|services| - 1]
  }

  // ----- adding ports -----

  /** One more port is fine exactly when it is positive where it must be and its claim is new. */
  lemma OneMore(ports: seq<Port>, p: Port)
    requires Sound(ports)
    ensures Claims(ports + [p]) == Claims(ports) + ClaimOf(p)
    ensures Sound(ports + [p]) <==>
      (IsNodePort(p) ==> p.nodePort > 0) && (ClaimOf(p) != [] ==> ClaimOf(p)[0] !in Claims(ports))
  {
    ClaimsNext(ports, p);
    PositiveNext(ports, p);
    if ClaimOf(p) != [] {
      DistinctNext(Claims(ports), ClaimOf(p)[0]);
    } else {
      assert Claims(ports) + [] == Claims(ports);
    }
  }

  lemma ClaimsNext(ports: seq<Port>, p: Port)
    ensures Claims(ports + [p]) == Claims(ports) + ClaimOf(p)
  {
    assert (ports + [p])[..|ports + [p]| - 1] == ports;
  }

  lemma PositiveNext(ports: seq<Port>, p: Port)
    ensures NodePortsPositive(ports + [p]) <==> NodePortsPositive(ports) && (IsNodePort(p) ==> p.nodePort > 0)
  {
    var all := ports + [p];
    if NodePortsPositive(all) {
      forall i | 0 <= i < |ports| ensures IsNodePort(ports[i]) ==> ports[i].nodePort > 0 { assert all[i] == ports[i]; }
      assert all[|ports|] == p;
    }
  }

  lemma DistinctNext(claims: seq<Claim>, c: Claim)
    requires NoDuplicates(claims)
    ensures NoDuplicates(claims + [c]) <==> c !in claims
  {
    if c in claims {
      var k :| 0 <= k < |claims| && claims[k] == c;
      assert (claims + [c])[k] == (claims + [c])[|claims|];
    }
  }

  lemma {:induction false} ClaimsPrefix(a: seq<Port>, b: seq<Port>)
    ensures Claims(a) <= Claims(a + b)
  {
    if b == [] {
      assert a + b == a;
    } else {
      assert (a + b)[..|a + b| - 1] == a + b[..|b| - 1];
      ClaimsPrefix(a, b[..|b| - 1]);
    }
  }

  lemma SoundPrefix(a: seq<Port>, b: seq<Port>)
    requires Sound(a + b)
    ensures Sound(a)
  {
    ClaimsPrefix(a, b);
    forall i | 0 <= i < |a| ensures IsNodePort(a[i]) ==> a[i].nodePort > 0 { assert (a + b)[i] == a[i]; }
  }

  lemma NoHostPortsConcat(a: seq<Port>, b: seq<Port>)
    ensures NoHostPorts(a + b) <==> NoHostPorts(a) && NoHostPorts(b)
  {
    if NoHostPorts(a + b) {
      forall i | 0 <= i < |a| ensures !UsesHostPort(a[i]) { assert (a + b)[i] == a[i]; }
      forall i | 0 <= i < |b| ensures !UsesHostPort(b[i]) { assert (a + b)[|a| + i] == b[i]; }
    }
  }

  lemma AcceptablePrefix(replica: int, a: seq<Port>, b: seq<Port>)
    requires Acceptable(replica, a + b)
    ensures Acceptable(replica, a)
  {
    SoundPrefix(a, b);
    NoHostPortsConcat(a, b);
  }

  lemma {:induction false} FlatSplit(services: seq<seq<Port>>, i: nat) returns (rest: seq<Port>)
    requires i <= |services|
    ensures Flat(services) == Flat(services[..i]) + rest
    decreases |services|
  {
    if i == |services| {
      assert services[..i] == services;
      rest := [];
    } else {
      var init := services[..|services| - 1];
      assert init[..i] == services[..i];
      var r := FlatSplit(init, i);
      rest := r + services[|services| - 1];
    }
  }

  lemma UpToNext(before: seq<Port>, ports: seq<Port>, i: nat)
    requires i < |ports|
    ensures before + ports[..i + 1] == before + ports[..i] + [ports[i]]
    ensures NoHostPorts(ports[..i + 1]) <==> NoHostPorts(ports[..i]) && !UsesHostPort(ports[i])
  {
    assert ports[..i + 1] == ports[..i] + [ports[i]];
    NoHostPortsConcat(ports[..i], [ports[i]]);
    assert NoHostPorts([ports[i]]) <==> !UsesHostPort([ports[i]][0]);
  }

  lemma RejectedEarly(before: seq<Port>, ports: seq<Port>, i: nat)
    requires i < |ports| && !Sound(before + ports[..i] + [ports[i]])
    ensures !Sound(before + ports)
  {
    assert before + ports == before + ports[..i] + [ports[i]] + ports[i + 1..];
    if Sound(before + ports) { SoundPrefix(before + ports[..i] + [ports[i]], ports[i + 1..]); }
  }

  lemma FlatUpTo(before: seq<Port>, services: seq<seq<Port>>, i: nat) returns (rest: seq<Port>)
    requires i < |services|
    ensures before + Flat(services) == before + Flat(services[..i]) + services[i] + rest
  {
    assert services[..i + 1][..i] == services[..i];
    rest := FlatSplit(services, i + 1);
  }

  lemma OneMoreService(replica: int, before: seq<Port>, services: seq<seq<Port>>, i: nat)
    requires i < |services| && Acceptable(replica, before + Flat(services[..i]))
    ensures before + Flat(services[..i + 1]) == before + Flat(services[..i]) + services[i]
    ensures Acceptable(replica, before + Flat(services[..i]) + services[i]) <==>
              Sound(before + Flat(services[..i]) + services[i]) && (replica > 1 ==> NoHostPorts(services[i]))
  {
    assert services[..i + 1][..i] == services[..i];
    NoHostPortsConcat(before + Flat(services[..i]), services[i]);
  }

  lemma RejectedService(replica: int, before: seq<Port>, services: seq<seq<Port>>, i: nat)
    requires i < |services| && !Acceptable(replica, before + Flat(services[..i]) + services[i])
    ensures !Acceptable(replica, before + Flat(services))
  {
    var rest := FlatUpTo(before, services, i);
    if Acceptable(replica, before + Flat(services)) {
      AcceptablePrefix(replica, before + Flat(services[..i]) + services[i], rest);
    }
  }

  // ----- the checks -----

  /** The ports seen so far, kept across services. */
  class Seen {
    var tcpPorts: set<int>
    var udpPorts: set<int>

    ghost predicate Holds(claims: seq<Claim>)
      reads this
    {
      forall udp, n :: Claim(udp, n) in claims <==> n in if udp then udpPorts else tcpPorts
    }

    constructor ()
      ensures Holds([])
    {
      tcpPorts, udpPorts := {}, {};
    }

    method CheckDuplicatePort(protocol: string, number: int, ghost claims: seq<Claim>) returns (ok: bool)
      requires Holds(claims)
      modifies this
      ensures ok <==> Claim(protocol == UDP, number) !in claims
      ensures ok ==> Holds(claims + [Claim(protocol == UDP, number)])
    {
      if protocol == UDP {
        if number in udpPorts {
          return false;
        }
        udpPorts := udpPorts + {number};
      } else {
        if number in tcpPorts {
          return false;
        }
        tcpPorts := tcpPorts + {number};
      }
      return true;
    }

    method CheckPort(port: Port, ghost before: seq<Port>) returns (ok: bool)
      requires Sound(before) && Holds(Claims(before))
      modifies this
      ensures ok <==> Sound(before + [port])
      ensures ok ==> Holds(Claims(before + [port]))
    {
      OneMore(before, port);
      if port.serviceType == NODE_PORT {
        if port.nodePort <= 0 {
          return false;
        }
        ok := CheckDuplicatePort(port.protocol, port.nodePort, Claims(before));
      } else {
        if port.hostPort == 0 {
          assert Claims(before) + [] == Claims(before);
          return true;
        }
        ok := CheckDuplicatePort(port.protocol, port.hostPort, Claims(before));
      }
    }

    /** One service, given the ports accepted before it. */
    method IsValidPort(ports: seq<Port>, ghost before: seq<Port>) returns (ok: bool, hostPortNum: nat)
      requires Sound(before) && Holds(Claims(before))
      modifies this
      ensures ok <==> Sound(before + ports)
      ensures ok ==> Holds(Claims(before + ports))
      ensures ok ==> (hostPortNum == 0 <==> NoHostPorts(ports))
    {
      hostPortNum := 0;
      ghost var sofar := before;
      for i := 0 to |ports|
        invariant sofar == before + ports[..i]
        invariant Sound(sofar) && Holds(Claims(sofar))
        invariant hostPortNum == 0 <==> NoHostPorts(ports[..i])
      {
        UpToNext(before, ports, i);
        ok := CheckPort(ports[i], sofar);
        sofar := sofar + [ports[i]];
        if !ok {
          RejectedEarly(before, ports, i);
          return;
        }
        if ports[i].serviceType != NODE_PORT && ports[i].hostPort != 0 {
          hostPortNum := hostPortNum + 1;
        }
      }
      assert ports[..|ports|] == ports;
      ok := true;
    }
  }

  method CheckServices(replica: int, services: seq<seq<Port>>, seen: Seen, ghost before: seq<Port>) returns (ok: bool)
    requires Acceptable(replica, before) && seen.Holds(Claims(before))
    modifies seen
    ensures ok <==> Acceptable(replica, before + Flat(services))
    ensures ok ==> seen.Holds(Claims(before + Flat(services)))
  {
    assert before + Flat(services[..0]) == before;
    for i := 0 to |services|
      invariant Acceptable(replica, before + Flat(services[..i]))
      invariant seen.Holds(Claims(before + Flat(services[..i])))
    {
      ghost var sofar := before + Flat(services[..i]);
      OneMoreService(replica, before, services, i);
      var valid, hostPortNum := seen.IsValidPort(services[i], sofar);
      if !valid || (replica > 1 && hostPortNum > 0) {
        RejectedService(replica, before, services, i);
        return false;
      }
    }
    assert services[..|services|] == services;
    ok := true;
  }

  /** An app is accepted exactly when node ports are positive, no number is claimed twice within UDP or
      within the rest across all its services and init services, and several replicas use no host port. */
  method ValidPorts(replica: int, services: seq<seq<Port>>, initServices: seq<seq<Port>>) returns (ok: bool)
    ensures ok <==> Acceptable(replica, Flat(services) + Flat(initServices))
  {
    var seen := new Seen();
    assert [] + Flat(services) == Flat(services);
    ok := CheckServices(replica, services, seen, []);
    if !ok {
      if Acceptable(replica, Flat(services) + Flat(initServices)) {
        AcceptablePrefix(replica, Flat(services), Flat(initServices));
      }
      return;
    }
    ok := CheckServices(replica, initServices, seen, Flat(services));
  }

  // ----- the rule, pair by pair -----

  /** Two ports of a node's services that cannot be open at once. */
  predicate Collide(p: Port, q: Port) {
    var m := if p.serviceType == "NodePort" then p.nodePort else p.hostPort;
    var n := if q.serviceType == "NodePort" then q.nodePort else q.hostPort;
    m == n && m != 0 && (p.protocol == "UDP" <==> q.protocol == "UDP")
  }

  ghost predicate Apart(ports: seq<Port>) {
    forall i, j | 0 <= i < j < |ports| :: !Collide(ports[i], ports[j])
  }

  lemma {:induction false} ClaimsMembers(ports: seq<Port>, c: Claim)
    ensures c in Claims(ports) <==> exists i :: 0 <= i < |ports| && ClaimOf(ports[i]) == [c]
  {
    if ports != [] {
      var init, last := ports[..|ports| - 1], ports[|ports| - 1];
      ClaimsMembers(init, c);
      if i :| 0 <= i < |init| && ClaimOf(init[i]) == [c] { assert ports[i] == init[i]; }
      if i :| 0 <= i < |ports| && ClaimOf(ports[i]) == [c] {
        if i < |init| { assert init[i] == ports[i]; }
      }
    }
  }

  /** For ports of which node ports are positive, distinct claims are ports that do not collide. */
  lemma {:induction false} ApartIff(ports: seq<Port>)
    requires NodePortsPositive(ports)
    ensures NoDuplicates(Claims(ports)) <==> Apart(ports)
  {
    if ports != [] {
      var init, last := ports[..|ports| - 1], ports[|ports| - 1];
      assert ports == init + [last];
      PositiveNext(init, last);
      ClaimsNext(init, last);
      ApartIff(init);
      ApartNext(init, last);
      LastCollidesIff(init, last);
      if NoDuplicates(Claims(init)) && ClaimOf(last) != [] {
        DistinctNext(Claims(init), ClaimOf(last)[0]);
      } else if ClaimOf(last) != [] {
        var i, j :| 0 <= i < j < |Claims(init)| && Claims(init)[i] == Claims(init)[j];
        assert Claims(ports)[i] == Claims(ports)[j];
      } else {
        assert Claims(ports) == Claims(init);
      }
    }
  }

  lemma ApartNext(ports: seq<Port>, p: Port)
    ensures Apart(ports + [p]) <==> Apart(ports) && forall i | 0 <= i < |ports| :: !Collide(ports[i], p)
  {
    var all := ports + [p];
    if Apart(all) {
      forall i, j | 0 <= i < j < |ports| ensures !Collide(ports[i], ports[j]) {
        assert all[i] == ports[i] && all[j] == ports[j];
      }
      forall i | 0 <= i < |ports| ensures !Collide(ports[i], p) { assert all[i] == ports[i] && all[|ports|] == p; }
    }
  }

  lemma LastCollidesIff(ports: seq<Port>, p: Port)
    requires NodePortsPositive(ports) && (IsNodePort(p) ==> p.nodePort > 0)
    ensures (forall i | 0 <= i < |ports| :: !Collide(ports[i], p)) <==>
            (ClaimOf(p) != [] ==> ClaimOf(p)[0] !in Claims(ports))
  {
    forall i | 0 <= i < |ports|
      ensures Collide(ports[i], p) <==> ClaimOf(p) != [] && ClaimOf(ports[i]) == [ClaimOf(p)[0]]
    {
    }
    if ClaimOf(p) != [] {
      ClaimsMembers(ports, ClaimOf(p)[0]);
      if i :| 0 <= i < |ports| && ClaimOf(ports[i]) == [ClaimOf(p)[0]] { assert Collide(ports[i], p); }
    }
  }

  /** An app's ports are accepted exactly when every node port is positive, no two ports collide, and with several
      replicas no port of another service type names a host port. */
  lemma AcceptableIff(replica: int, ports: seq<Port>)
    ensures Acceptable(replica, ports) <==>
            && (forall i | 0 <= i < |ports| :: ports[i].serviceType == "NodePort" ==> ports[i].nodePort > 0)
            && Apart(ports)
            && (replica > 1 ==>
                  forall i | 0 <= i < |ports| :: ports[i].serviceType != "NodePort" ==> ports[i].hostPort == 0)
  {
    if NodePortsPositive(ports) { ApartIff(ports); }
  }
}
