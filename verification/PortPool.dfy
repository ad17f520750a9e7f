/** portManager of server/server.go: the pool of UDP ports for reflectors. */
module PortPool {
  import opened Bytes

  /** What a call of allocatePort comes to. */
  datatype Allocation =
    | Found(port: uint16)
    | NoAvailablePorts
    | NeverReturns         // the 16-bit counter wraps round for ever

  const DEFAULT_MIN := 20000
  const DEFAULT_MAX := 30000

  class PortManager {
    const minPort: uint16
    const maxPort: uint16
    var usedPorts: set<uint16>

    constructor (minPort: uint16, maxPort: uint16)
      requires minPort <= maxPort
      ensures this.minPort == minPort && this.maxPort == maxPort && usedPorts == {}
    {
      this.minPort, this.maxPort, usedPorts := minPort, maxPort, {};
    }

    predicate Free(bindable: set<uint16>, port: uint16)
      reads this
    {
      port !in usedPorts && port in bindable
    }

    /** Which port the loop finds: the least free one in the range.  With the range
        ending at 65535 the counter wraps to 0 instead of leaving the range, and then
        ports below the range are tried as well. */
    ghost predicate Finds(bindable: set<uint16>, r: Allocation)
      reads this
    {
      match r
      case Found(p) =>
        && Free(bindable, p)
        && (minPort <= p ==> p <= maxPort && forall q :: minPort <= q < p ==> !Free(bindable, q))
        && (p < minPort ==>
              maxPort == 0xffff && forall q :: 0 <= q < p || minPort <= q <= maxPort ==> !Free(bindable, q))
      case NoAvailablePorts => maxPort < 0xffff && forall q :: minPort <= q <= maxPort ==> !Free(bindable, q)
      case NeverReturns => maxPort == 0xffff && forall q :: 0 <= q <= 0xffff ==> !Free(bindable, q)
    }

    /** `bindable` stands for the ports on which a probe socket can be opened. */
    method AllocatePort(bindable: set<uint16>) returns (r: Allocation)
      modifies this
      ensures old(Finds(bindable, r))
      ensures usedPorts == old(usedPorts) + if r.Found? then {r.port} else {}
    {
      var port: uint16, steps := minPort, 0;
      while port <= maxPort
        invariant usedPorts == old(usedPorts)
        invariant 0 <= steps < TWO16
        invariant port as int == (minPort as int + steps) % TWO16
        invariant maxPort < 0xffff ==> minPort <= port && port as int == minPort as int + steps
        invariant forall q: uint16 :: minPort <= q < minPort as int + steps ==> !Free(bindable, q)
        invariant minPort as int + steps >= TWO16 ==> forall q: uint16 :: 0 <= q < port ==> !Free(bindable, q)
        decreases TWO16 - steps
      {
        if port !in usedPorts && port in bindable {
          usedPorts := usedPorts + {port};
          return Found(port);
        }
        port, steps := (port as int + 1) % TWO16, steps + 1;
        if steps == TWO16 {
          return NeverReturns;    // back in the first state of the loop
        }
      }
      return NoAvailablePorts;
    }

    method ReleasePort(port: uint16)
      modifies this
      ensures usedPorts == old(usedPorts) - {port}
    {
      usedPorts := usedPorts - {port};
    }
  }

  /** newPortManager: a zero bound stands for its default. */
  method NewPortManager(minPort: uint16, maxPort: uint16) returns (r: Result<PortManager>)
    ensures var lo := if minPort == 0 then DEFAULT_MIN else minPort;
            var hi := if maxPort == 0 then DEFAULT_MAX else maxPort;
            && (lo > hi ==> r == Err(InvalidPortRange))
            && (lo <= hi ==>
                  && r.Ok? && fresh(r.value)
                  && r.value.minPort == lo && r.value.maxPort == hi && r.value.usedPorts == {})
  {
    var lo, hi := if minPort == 0 then DEFAULT_MIN else minPort, if maxPort == 0 then DEFAULT_MAX else maxPort;
    if lo > hi {
      return Err(InvalidPortRange);
    }
    var pm := new PortManager(lo, hi);
    return Ok(pm);
  }

  /** The search has exactly one outcome, and it is a port of the configured range
      exactly when that range holds a free one. */
  lemma OutcomeUnique(pm: PortManager, bindable: set<uint16>, r: Allocation, q: Allocation)
    requires pm.minPort <= pm.maxPort
    requires pm.Finds(bindable, r) && pm.Finds(bindable, q)
    ensures r == q
    ensures r.Found? && pm.minPort <= r.port <= pm.maxPort
            <==> exists p :: pm.minPort <= p <= pm.maxPort && pm.Free(bindable, p)
    ensures pm.maxPort < 0xffff ==> !r.NeverReturns? && (r.Found? ==> pm.minPort <= r.port <= pm.maxPort)
  {
  }

  /** When the search leaves the range or never ends: only with a range up to 65535 that
      has no free port, and then exactly as there is a free port below the range or
      none at all. */
  lemma WrapsExactly(pm: PortManager, bindable: set<uint16>, r: Allocation)
    requires pm.minPort <= pm.maxPort && pm.Finds(bindable, r)
    ensures r.Found? && r.port < pm.minPort
            <==> && pm.maxPort == 0xffff && (forall q: uint16 :: pm.minPort <= q ==> !pm.Free(bindable, q))
                 && exists q: uint16 :: q < pm.minPort && pm.Free(bindable, q)
    ensures r.NeverReturns? <==> pm.maxPort == 0xffff && forall q: uint16 :: !pm.Free(bindable, q)
  {
    if r.Found? {
      assert pm.Free(bindable, r.port);
    }
  }

  /** A range of one port at the upper end: the first search finds it, the second wraps
      round and finds port 0, which can always be bound, and with both in use a third
      never returns. */
  method OnePortRange() returns (first: Allocation, second: Allocation, third: Allocation)
    ensures first == Found(0xffff) && second == Found(0) && third == NeverReturns
  {
    var pm := new PortManager(0xffff, 0xffff);
    var bindable: set<uint16> := {0, 0xffff};
    assert pm.Free(bindable, 0xffff);
    first := pm.AllocatePort(bindable);
    assert pm.Free(bindable, 0) && !pm.Free(bindable, 0xffff);
    second := pm.AllocatePort(bindable);
    assert forall q: uint16 :: !pm.Free(bindable, q);
    third := pm.AllocatePort(bindable);
  }
}
