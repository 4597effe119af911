/** The compiled-in configuration of the five-server network: each server's
    port, and the servers it floods updates to. */
module Topology {
  import opened Codec

  const PORT_MAP: map<string, int> := map[
    "Hill" := 11825,
    "Jaquez" := 11826,
    "Smith" := 11827,
    "Campbell" := 11828,
    "Singleton" := 11829
  ]

  /** Hill talks with Jaquez and Smith; Singleton with everyone but Hill; Smith
      also with Campbell. Each list is in the order flooding visits it. */
  const NETWORK_FLOW: map<string, seq<string>> := map[
    "Hill" := ["Jaquez", "Smith"],
    "Jaquez" := ["Hill", "Singleton"],
    "Smith" := ["Hill", "Campbell", "Singleton"],
    "Campbell" := ["Smith", "Singleton"],
    "Singleton" := ["Jaquez", "Smith", "Campbell"]
  ]

  /** The adjacency table is the one its comment describes: every server has
      a port and an entry, neighbours are servers, the relation is symmetric
      ("talks with" is bidirectional) and has no self-loops; and every server
      name is a single message field. */
  lemma TopologyWellFormed()
    ensures NETWORK_FLOW.Keys == PORT_MAP.Keys
    ensures forall a, i :: a in NETWORK_FLOW && 0 <= i < |NETWORK_FLOW[a]| ==>
      && NETWORK_FLOW[a][i] in NETWORK_FLOW
      && NETWORK_FLOW[a][i] != a
      && a in NETWORK_FLOW[NETWORK_FLOW[a][i]]
    ensures forall a :: a in PORT_MAP ==> IsToken(a)
  {
    forall a, i | a in NETWORK_FLOW && 0 <= i < |NETWORK_FLOW[a]|
      ensures NETWORK_FLOW[a][i] in NETWORK_FLOW && NETWORK_FLOW[a][i] != a
      ensures a in NETWORK_FLOW[NETWORK_FLOW[a][i]]
    {
      assert a == "Hill" || a == "Jaquez" || a == "Smith" || a == "Campbell" || a == "Singleton";
    }
    forall a | a in PORT_MAP
      ensures IsToken(a)
    {
      assert a == "Hill" || a == "Jaquez" || a == "Smith" || a == "Campbell" || a == "Singleton";
    }
  }

  /** The adjacency table is connected: a set of servers that holds one server
      and is closed under "talks with" holds all five. */
  lemma Connected(a: set<string>, s: string)
    requires s in a && a <= NETWORK_FLOW.Keys
    requires forall x, i :: x in a && 0 <= i < |NETWORK_FLOW[x]| ==> NETWORK_FLOW[x][i] in a
    ensures a == NETWORK_FLOW.Keys
  {
    assert "Smith" in a by {
      if s == "Jaquez" {
        assert NETWORK_FLOW[s][0] == "Hill";
        assert NETWORK_FLOW["Hill"][1] == "Smith";
      } else {
        assert s == "Hill" || s == "Smith" || s == "Campbell" || s == "Singleton";
        assert s == "Smith" || NETWORK_FLOW[s][if s == "Campbell" then 0 else 1] == "Smith";
      }
    }
    assert NETWORK_FLOW["Smith"][0] in a && NETWORK_FLOW["Smith"][1] in a && NETWORK_FLOW["Smith"][2] in a;
    assert NETWORK_FLOW["Hill"][0] in a;
    forall x | x in NETWORK_FLOW.Keys
      ensures x in a
    {
      assert x == "Hill" || x == "Jaquez" || x == "Smith" || x == "Campbell" || x == "Singleton";
    }
  }
}
