/**
 * Service expansion: the configured servers become a flat list of check
 * units, one per port, or a single ping unit for a server without ports.
 */
module Services {
  import opened Types
  import Seqs

  /** How many units a server expands into: max(1, number of ports). */
  function UnitCount(server: Server): nat {
    if |server.ports| == 0 then 1 else |server.ports|
  }

  /** The units of one server, ports in their configured order. */
  function UnitsOf(server: Server): (r: seq<Service>)
    ensures |r| == UnitCount(server)
    ensures forall j :: 0 <= j < |r| ==> r[j].name == server.name && r[j].host == server.host
    ensures |server.ports| == 0 ==> r[0].port == 0
    ensures forall j :: 0 <= j < |server.ports| ==> r[j].port == server.ports[j]
  {
    if |server.ports| == 0 then [Service(server.name, server.host, 0)]
    else seq(|server.ports|, j requires 0 <= j < |server.ports| => Service(server.name, server.host, server.ports[j]))
  }

  /** The expansion of a list of servers, server by server. */
  function Expand(servers: seq<Server>): seq<Service> {
    if |servers| == 0 then []
    else Expand(servers[..|servers| - 1]) + UnitsOf(servers[|servers| - 1])
  }

  /** Sum over the servers of max(1, number of ports). */
  function TotalUnits(servers: seq<Server>): nat {
    if |servers| == 0 then 0
    else TotalUnits(servers[..|servers| - 1]) + UnitCount(servers[|servers| - 1])
  }

  /** `createServices`: appends each server's units in turn. */
  method CreateServices(servers: seq<Server>) returns (services: seq<Service>)
    ensures services == Expand(servers)
  {
    services := [];
    for i := 0 to |servers|
      invariant services == Expand(servers[..i])
    {
      var server := servers[i];
      assert servers[..i + 1][..i] == servers[..i];
      if |server.ports| == 0 {
        services := services + [Service(server.name, server.host, 0)];
      } else {
        ghost var before := services;
        for j := 0 to |server.ports|
          invariant services == before + UnitsOf(server)[..j]
        {
          assert UnitsOf(server)[..j + 1] == UnitsOf(server)[..j] + [Service(server.name, server.host, server.ports[j])];
          services := services + [Service(server.name, server.host, server.ports[j])];
        }
        assert UnitsOf(server)[..|server.ports|] == UnitsOf(server);
      }
    }
    assert servers[..|servers|] == servers;
  }

  /** The expansion has exactly sum(max(1, len(ports))) units. */
  lemma {:induction false} ExpandLength(servers: seq<Server>)
    ensures |Expand(servers)| == TotalUnits(servers)
  {
    if |servers| > 0 {
      ExpandLength(servers[..|servers| - 1]);
    }
  }

  /** Expansion distributes over concatenation of server lists. */
  lemma {:induction false} ExpandAppend(a: seq<Server>, b: seq<Server>)
    ensures Expand(a + b) == Expand(a) + Expand(b)
  {
    if |b| == 0 {
      assert a + b == a;
    } else {
      var init, last := b[..|b| - 1], b[|b| - 1];
      assert Expand(a + b) == Expand(a + init) + UnitsOf(last) by {
        assert (a + b)[..|a + b| - 1] == a + init;
        assert (a + b)[|a + b| - 1] == last;
      }
      ExpandAppend(a, init);
      Seqs.ConcatAssoc(Expand(a), Expand(init), UnitsOf(last));
    }
  }

  /**
   * Order preservation: the units of server `i` sit, in port order, right
   * after the units of the servers before it. Duplicate servers or ports
   * therefore produce duplicate units at their own positions.
   */
  lemma ExpandAt(servers: seq<Server>, i: nat, j: nat)
    requires i < |servers| && j < UnitCount(servers[i])
    ensures TotalUnits(servers[..i]) + j < |Expand(servers)|
    ensures Expand(servers)[TotalUnits(servers[..i]) + j] == UnitsOf(servers[i])[j]
  {
    var pre, post := servers[..i], servers[i + 1..];
    var units := UnitsOf(servers[i]);
    assert Expand(servers) == Expand(pre) + units + Expand(post) by {
      assert servers == pre + [servers[i]] + post;
      ExpandAppend(pre + [servers[i]], post);
      ExpandAppend(pre, [servers[i]]);
      ExpandOne(servers[i]);
    }
    assert TotalUnits(pre) == |Expand(pre)| by {
      ExpandLength(pre);
    }
    Seqs.ConcatIndex(Expand(pre), units, Expand(post), j);
  }

  /** Every unit carries the name and host of some configured server. */
  lemma {:induction false} ExpandProvenance(servers: seq<Server>, k: nat)
    requires k < |Expand(servers)|
    ensures exists i :: 0 <= i < |servers| && Expand(servers)[k].name == servers[i].name
                                            && Expand(servers)[k].host == servers[i].host
  {
    var n := |servers|;
    var init := Expand(servers[..n - 1]);
    if k < |init| {
      ExpandProvenance(servers[..n - 1], k);
      var i :| 0 <= i < n - 1 && init[k].name == servers[..n - 1][i].name && init[k].host == servers[..n - 1][i].host;
      assert servers[..n - 1][i] == servers[i];
    } else {
      assert Expand(servers)[k] == UnitsOf(servers[n - 1])[k - |init|];
    }
  }

  lemma ExpandOne(server: Server)
    ensures Expand([server]) == UnitsOf(server)
  {
    assert [server][..0] == [];
  }

  /** A server without ports yields exactly one unit, a ping unit (port 0). */
  lemma PortlessServerIsOnePing(server: Server)
    requires |server.ports| == 0
    ensures Expand([server]) == [Service(server.name, server.host, 0)]
  {
    ExpandOne(server);
  }
}
