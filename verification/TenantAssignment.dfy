/** How agents divide the roots among themselves: each of them computes its own share. */
module TenantAssignment {
  import opened Keys
  import opened HashRing

  /** Every agent has the default weight. */
  function AgentWeights(agents: seq<string>): (w: Weights)
    ensures forall a :: a in w <==> a in agents
    ensures forall a :: a in w ==> w[a] == None
  {
    map a | a in agents :: None
  }

  function RingConfig(hashing: Hashing, vnodes: int): Config {
    Config(hashing, vnodes, 1)
  }

  /** `agent` is the first candidate for the root on this ring. */
  ghost predicate ServedOn(c: Config, ring: seq<Star>, root: string, agent: string) {
    ring != [] && exists at :: IsSplit(ring, c.hashing.Key(root), at) && Candidates(ring, at)[..1] == [agent]
  }

  /** `agent` is the first candidate for the root on the ring of these agents. */
  ghost predicate ServedBy(c: Config, agents: seq<string>, root: string, agent: string) {
    exists ring :: Exact(c, AgentWeights(agents), ring) && ServedOn(c, ring, root, agent)
  }

  /** The roots that are the agent's on this ring, in the order in which the roots were given. */
  ghost function Mine(c: Config, ring: seq<Star>, roots: seq<string>, me: string): (mine: seq<string>)
    ensures forall r :: r in mine <==> r in roots && ServedOn(c, ring, r, me)
  {
    if roots == [] then [] else
      var last := roots[|roots| - 1];
      assert roots == roots[..|roots| - 1] + [last];
      Mine(c, ring, roots[..|roots| - 1], me) + if ServedOn(c, ring, last, me) then [last] else []
  }

  /** Whether a root is assigned to this agent. */
  method IsMine(ring: ConsistentHashRing, me: string, root: string) returns (mine: bool, err: Option<Error>)
    requires ring.Valid() && ring.replicas == 1
    ensures err == if ring.ring == [] then Some(IndexError) else None
    ensures err.None? ==> (mine <==> ServedOn(ring.config, ring.ring, root, me))
  {
    var allocations, at;
    allocations, err, at := ring.AssignKey(root);
    mine := me in allocations;
    if err.None? {
      FirstServes(ring.config, root, ring.ring, at, me);
    }
  }

  /**
   What one agent serves; with no star on the ring no root can be assigned. When two stars share a
   hash, the agents may have come in any order; otherwise the order does not matter.
   */
  method TenantAssignation(me: string, agents: seq<string>, roots: seq<string>, hashing: Hashing, vnodes: int)
    returns (result: seq<string>, err: Option<Error>)
    ensures me !in agents ==> result == []
    ensures err == if me in agents && roots != [] && vnodes <= 0 then Some(IndexError) else None
    ensures err.None? && me in agents ==> exists order, ring ::
      && RingConfig(hashing, vnodes).Laid(AgentWeights(agents), order, ring)
      && result == Mine(RingConfig(hashing, vnodes), ring, roots, me)
    ensures err.None? && RingConfig(hashing, vnodes).Distinct(AgentWeights(agents)) ==>
      forall r :: r in result <==> me in agents && r in roots && ServedBy(RingConfig(hashing, vnodes), agents, r, me)
  {
    result, err := [], None;
    if me !in agents {
      return;
    }
    var config := RingConfig(hashing, vnodes);
    var ring := new ConsistentHashRing(AgentWeights(agents), config, 1);
    RingIsEmpty(config, AgentWeights(agents), ring.ring, me);
    result, err := MyRoots(ring, me, roots);
    if Exact(config, AgentWeights(agents), ring.ring) {
      forall r ensures ServedOn(config, ring.ring, r, me) <==> ServedBy(config, agents, r, me) {
        ServedOnTheRing(config, agents, r, ring.ring, me);
      }
    }
  }

  lemma MineOneMore(c: Config, ring: seq<Star>, roots: seq<string>, i: nat, me: string)
    requires i < |roots|
    ensures Mine(c, ring, roots[..i + 1], me) ==
      Mine(c, ring, roots[..i], me) + if ServedOn(c, ring, roots[i], me) then [roots[i]] else []
  {
    assert roots[..i + 1][..i] == roots[..i];
  }

  method MyRoots(ring: ConsistentHashRing, me: string, roots: seq<string>)
    returns (result: seq<string>, err: Option<Error>)
    requires ring.Valid() && ring.replicas == 1
    ensures err == if roots != [] && ring.ring == [] then Some(IndexError) else None
    ensures err.None? ==> result == Mine(ring.config, ring.ring, roots, me)
  {
    result, err := [], None;
    for i := 0 to |roots|
      invariant err == None && (i > 0 ==> ring.ring != [])
      invariant result == Mine(ring.config, ring.ring, roots[..i], me)
    {
      var mine;
      mine, err := IsMine(ring, me, roots[i]);
      if err.Some? {
        return;
      }
      MineOneMore(ring.config, ring.ring, roots, i, me);
      if mine {
        result := result + [roots[i]];
      }
    }
    assert roots[..|roots|] == roots;
  }

  /** The ring of some agents is empty exactly when agents get no stars. */
  lemma RingIsEmpty(c: Config, nodes: Weights, ring: seq<Star>, node: string)
    requires node in nodes && (forall a :: a in nodes ==> nodes[a] == None) && c.defaultWeight == 1
    requires HashBag(ring) == c.Bag(nodes)
    ensures ring == [] <==> c.vnodes <= 0
  {
    if c.vnodes > 0 {
      SomeStar(c, nodes, node);
      assert c.Bag(nodes) != multiset{};
    } else {
      NoStars(c, nodes);
    }
    EmptyBag(ring);
  }

  lemma SomeStar(c: Config, nodes: Weights, node: string)
    requires node in nodes && nodes[node] == None && c.defaultWeight == 1 && c.vnodes > 0
    ensures c.hashing.Point(node, c.vnodes - 1) in c.Bag(nodes)
  {
    c.BagWithout(nodes, node);
  }

  lemma EmptyBag(ring: seq<Star>)
    ensures HashBag(ring) == multiset{} <==> ring == []
  {
    if ring != [] {
      assert Hashes(ring)[0] in HashBag(ring);
    }
  }

  lemma {:induction false} NoStars(c: Config, nodes: Weights)
    requires (forall a :: a in nodes ==> nodes[a] == None) && c.defaultWeight == 1 && c.vnodes <= 0
    ensures c.Bag(nodes) == multiset{}
  {
    if nodes == map[] {
    } else {
      var a :| a in nodes;
      c.BagWithout(nodes, a);
      NoStars(c, nodes - {a});
    }
  }

  lemma FirstServes(c: Config, root: string, ring: seq<Star>, at: nat, agent: string)
    requires ring != [] && IsSplit(ring, c.hashing.Key(root), at)
    ensures ServedOn(c, ring, root, agent) <==> agent in FirstOf(Candidates(ring, at), 1)
  {
    DedupNonEmpty(Walk(Owners(ring), at));
    var d := Candidates(ring, at);
    assert FirstOf(d, 1) == d[..1] == [d[0]];
    if ServedOn(c, ring, root, agent) {
      var a :| IsSplit(ring, c.hashing.Key(root), a) && Candidates(ring, a)[..1] == [agent];
      SplitIsUnique(ring, c.hashing.Key(root), at, a);
    }
  }

  /** With distinct stars there is one ring to look at. */
  lemma ServedOnTheRing(c: Config, agents: seq<string>, root: string, ring: seq<Star>, agent: string)
    requires Exact(c, AgentWeights(agents), ring)
    ensures ServedOn(c, ring, root, agent) <==> ServedBy(c, agents, root, agent)
  {
    if ServedBy(c, agents, root, agent) {
      var r :| Exact(c, AgentWeights(agents), r) && ServedOn(c, r, root, agent);
      ExactIsUnique(c, AgentWeights(agents), ring, r);
    }
  }

  /** What one agent ends up serving when it sees these agents and roots. */
  ghost predicate Share(c: Config, agents: seq<string>, roots: seq<string>, agent: string, result: seq<string>) {
    forall r :: r in result <==> r in roots && ServedBy(c, agents, r, agent)
  }

  ghost predicate Shares(c: Config, agents: seq<string>, roots: seq<string>, served: map<string, seq<string>>) {
    forall a {:trigger served[a]} :: a in served ==> Share(c, agents, roots, a, served[a])
  }

  /** Every root is in the share of one agent and of no other. */
  ghost predicate Partition(roots: seq<string>, served: map<string, seq<string>>) {
    && (forall r :: r in roots ==>
          exists a :: a in served && r in served[a] && forall b :: b in served && r in served[b] ==> b == a)
    && (forall a, r :: a in served && r in served[a] ==> r in roots)
  }

  lemma SharesPartition(c: Config, agents: seq<string>, roots: seq<string>, served: map<string, seq<string>>,
                        ring: seq<Star>)
    requires Exact(c, AgentWeights(agents), ring) && ring != []
    requires (forall a :: a in served <==> a in agents) && Shares(c, agents, roots, served)
    ensures Partition(roots, served)
  {
    forall r | r in roots
      ensures exists a :: a in served && r in served[a] && forall b :: b in served && r in served[b] ==> b == a
    {
      ServedOnce(c, agents, r, ring);
      var a :| a in agents && ServedBy(c, agents, r, a) && forall b :: ServedBy(c, agents, r, b) ==> b == a;
      assert Share(c, agents, roots, a, served[a]) && r in served[a];
      forall b | b in served && r in served[b] ensures b == a {
        assert Share(c, agents, roots, b, served[b]);
      }
    }
    forall a, r | a in served && r in served[a] ensures r in roots {
      assert Share(c, agents, roots, a, served[a]);
    }
  }

  /** Every agent works out its own share. */
  method EachAssignation(agents: seq<string>, roots: seq<string>, hashing: Hashing, vnodes: int)
    returns (served: map<string, seq<string>>)
    requires vnodes > 0 && RingConfig(hashing, vnodes).Distinct(AgentWeights(agents))
    ensures forall a :: a in served <==> a in agents
    ensures Shares(RingConfig(hashing, vnodes), agents, roots, served)
  {
    served := map[];
    for i := 0 to |agents|
      invariant forall a :: a in served <==> a in agents[..i]
      invariant Shares(RingConfig(hashing, vnodes), agents, roots, served)
    {
      var result, err := TenantAssignation(agents[i], agents, roots, hashing, vnodes);
      assert Share(RingConfig(hashing, vnodes), agents, roots, agents[i], result);
      served := served[agents[i] := result];
      assert agents[..i + 1] == agents[..i] + [agents[i]];
    }
    assert agents[..|agents|] == agents;
  }

  /**
   When every agent sees the same agents, roots and number of virtual nodes, and no two stars have
   the same hash, each root is served by exactly one agent.
   */
  method AllAssignations(agents: seq<string>, roots: seq<string>, hashing: Hashing, vnodes: int)
    returns (served: map<string, seq<string>>)
    requires vnodes > 0 && agents != [] && RingConfig(hashing, vnodes).Distinct(AgentWeights(agents))
    ensures forall a :: a in served <==> a in agents
    ensures Shares(RingConfig(hashing, vnodes), agents, roots, served)
    ensures Partition(roots, served)
  {
    served := EachAssignation(agents, roots, hashing, vnodes);
    var ring := new ConsistentHashRing(AgentWeights(agents), RingConfig(hashing, vnodes), 1);
    RingIsEmpty(RingConfig(hashing, vnodes), AgentWeights(agents), ring.ring, agents[0]);
    SharesPartition(RingConfig(hashing, vnodes), agents, roots, served, ring.ring);
  }

  lemma ServedOnce(c: Config, agents: seq<string>, root: string, ring: seq<Star>)
    requires Exact(c, AgentWeights(agents), ring) && ring != []
    ensures exists a ::
      a in agents && ServedBy(c, agents, root, a) && forall b :: ServedBy(c, agents, root, b) ==> b == a
  {
    var at := SomeSplit(ring, c.hashing.Key(root));
    ReplicaCount(ring, at, 1);
    DedupNonEmpty(Walk(Owners(ring), at));
    var d := Candidates(ring, at);
    var a := d[0];
    assert FirstOf(d, 1) == [a];
    assert a in FirstOf(d, 1);
    var s :| s in ring && s.node == a;
    assert c.IsStar(AgentWeights(agents), s);
    FirstServes(c, root, ring, at, a);
    ServedOnTheRing(c, agents, root, ring, a);
    forall b | ServedBy(c, agents, root, b) ensures b == a {
      ServedOnTheRing(c, agents, root, ring, b);
      FirstServes(c, root, ring, at, b);
    }
  }

  lemma {:induction false} SomeSplit(ring: seq<Star>, h: int) returns (at: nat)
    requires SortedRing(ring)
    ensures IsSplit(ring, h, at)
  {
    at := 0;
    while at < |ring| && ring[at].h4sh <= h
      invariant at <= |ring| && forall i :: 0 <= i < at ==> ring[i].h4sh <= h
    {
      at := at + 1;
    }
  }

  /** An agent and one whose name is that of the former and a number low enough to meet its stars. */
  ghost predicate Namesakes(agents: seq<string>, vnodes: int, agent: string, v: nat) {
    v >= 1 && 10 * v < vnodes && agent in agents && agent + Decimal(v) in agents
  }

  /** With a digest that tells strings apart, agents have distinct stars exactly when none is a namesake of another. */
  lemma AgentsAreDistinct(agents: seq<string>, hashing: Hashing, vnodes: int)
    requires hashing.Injective()
    ensures RingConfig(hashing, vnodes).Distinct(AgentWeights(agents)) <==>
      forall a, v :: !Namesakes(agents, vnodes, a, v)
  {
    var c, nodes := RingConfig(hashing, vnodes), AgentWeights(agents);
    DistinctIffNotNested(c, nodes);
    forall a, v: nat ensures Namesakes(agents, vnodes, a, v) <==> Nested(c, nodes, a, v) {
      assert forall n :: n in nodes ==> c.Count(nodes[n]) == if vnodes < 0 then 0 else vnodes;
    }
  }
}
