/**
 Agents that see the same peers in different orders. Stars of one hash are kept in the order in which
 the peers came, so each agent may hold somebody else for the first of them.
 */
module TenantViews {
  import opened Keys
  import opened HashRing
  import opened TenantAssignment

  // ---------------------------------------------------------------- the star that serves a root

  ghost predicate HasStar(c: Config, nodes: Weights, h: int) {
    exists n :: StarAt(c, nodes, n, h)
  }

  /** The hash of the first star after `k`, or the least one when none comes after. */
  ghost predicate Next(c: Config, nodes: Weights, k: int, h: int) {
    && HasStar(c, nodes, h)
    && if k < h then forall g {:trigger HasStar(c, nodes, g)} :: HasStar(c, nodes, g) && k < g ==> h <= g
       else forall g {:trigger HasStar(c, nodes, g)} :: HasStar(c, nodes, g) ==> g <= k && h <= g
  }

  lemma NextIsUnique(c: Config, nodes: Weights, k: int, g: int, h: int)
    requires Next(c, nodes, k, g) && Next(c, nodes, k, h)
    ensures g == h
  {}

  /** Of the nodes with a star of this hash, the one that came first. */
  ghost predicate CameFirstAt(c: Config, nodes: Weights, order: seq<string>, h: int, a: string) {
    exists i :: 0 <= i < |order| && order[i] == a && IsFirst(c, nodes, order, h, i)
  }

  ghost predicate IsFirst(c: Config, nodes: Weights, order: seq<string>, h: int, i: nat)
    requires i < |order|
  {
    StarAt(c, nodes, order[i], h) && forall j :: 0 <= j < i ==> !StarAt(c, nodes, order[j], h)
  }

  /** Only one node can be that. */
  lemma OnlyOneFirst(c: Config, nodes: Weights, order: seq<string>, h: int, a: string, b: string)
    requires CameFirstAt(c, nodes, order, h, a) && CameFirstAt(c, nodes, order, h, b)
    ensures a == b
  {
    var i :| 0 <= i < |order| && order[i] == a && IsFirst(c, nodes, order, h, i);
    var j :| 0 <= j < |order| && order[j] == b && IsFirst(c, nodes, order, h, j);
    assert i == j;
  }

  lemma FirstStays(c: Config, nodes: Weights, front: seq<string>, last: string, h: int, a: string)
    requires CameFirstAt(c, nodes, front, h, a)
    ensures CameFirstAt(c, nodes, front + [last], h, a)
  {
    var i :| 0 <= i < |front| && front[i] == a && IsFirst(c, nodes, front, h, i);
    var order := front + [last];
    assert forall j :: 0 <= j < |front| ==> order[j] == front[j];
    assert order[i] == a && IsFirst(c, nodes, order, h, i);
  }

  ghost predicate NoneOf(c: Config, nodes: Weights, order: seq<string>, h: int) {
    forall j :: 0 <= j < |order| ==> !StarAt(c, nodes, order[j], h)
  }

  lemma LastIsFirst(c: Config, nodes: Weights, front: seq<string>, last: string, h: int)
    requires NoneOf(c, nodes, front, h)
    ensures if StarAt(c, nodes, last, h) then CameFirstAt(c, nodes, front + [last], h, last)
            else NoneOf(c, nodes, front + [last], h)
  {
    var order := front + [last];
    assert forall j :: 0 <= j < |front| ==> order[j] == front[j];
    if StarAt(c, nodes, last, h) {
      assert order[|front|] == last && IsFirst(c, nodes, order, h, |front|);
    }
  }

  /** The owner that comes first at a hash is the first node of the order that has a star there. */
  lemma {:induction false} FirstOwner(c: Config, nodes: Weights, order: seq<string>, h: int)
    requires forall n :: n in order ==> n in nodes
    ensures var os := c.Came([], nodes, order, h);
      if os == [] then NoneOf(c, nodes, order, h) else CameFirstAt(c, nodes, order, h, os[0])
  {
    if order == [] {
    } else {
      var front, last := order[..|order| - 1], order[|order| - 1];
      assert front + [last] == order;
      FirstOwner(c, nodes, front, h);
      var os := c.Came([], nodes, front, h);
      if os == [] {
        LastIsFirst(c, nodes, front, last, h);
      } else {
        FirstStays(c, nodes, front, last, h, os[0]);
      }
    }
  }

  lemma HasOwner(c: Config, nodes: Weights, order: seq<string>, ring: seq<Star>, h: int)
    requires c.Laid(nodes, order, ring)
    ensures OwnersAt(ring, h) != [] <==> HasStar(c, nodes, h)
  {
    assert OwnersAt(ring, h) == c.Came([], nodes, order, h);
    FirstOwner(c, nodes, order, h);
    if OwnersAt(ring, h) != [] {
      assert StarAt(c, nodes, OwnersAt(ring, h)[0], h);
    } else {
      forall n ensures !StarAt(c, nodes, n, h) {
        assert n in nodes <==> n in order;
      }
    }
  }

  lemma StarHasOwner(ring: seq<Star>, i: nat)
    requires i < |ring|
    ensures OwnersAt(ring, ring[i].h4sh) != []
  {
    assert ring == ring[..i + 1] + ring[i + 1..];
    OwnersAtConcat(ring[..i + 1], ring[i + 1..], ring[i].h4sh);
    LastHasOwner(ring[..i + 1]);
  }

  lemma {:induction false} OwnerHasStar(ring: seq<Star>, h: int) returns (i: nat)
    requires OwnersAt(ring, h) != []
    ensures i < |ring| && ring[i].h4sh == h
  {
    if ring[|ring| - 1].h4sh == h {
      i := |ring| - 1;
    } else {
      i := OwnerHasStar(ring[..|ring| - 1], h);
    }
  }

  lemma FirstOfParts(p: seq<Star>, s: Star, q: seq<Star>)
    requires OwnersAt(p, s.h4sh) == []
    ensures OwnersAt(p + [s] + q, s.h4sh) != [] && OwnersAt(p + [s] + q, s.h4sh)[0] == s.node
  {
    OwnersAtOne(s, s.h4sh);
    OwnersAtConcat(p, [s], s.h4sh);
    OwnersAtConcat(p + [s], q, s.h4sh);
  }

  lemma NoneBefore(ring: seq<Star>, i: nat)
    requires SortedRing(ring) && i < |ring| && (i > 0 ==> ring[i - 1].h4sh < ring[i].h4sh)
    ensures OwnersAt(ring[..i], ring[i].h4sh) == []
  {
    var p := ring[..i];
    forall j | 0 <= j < |p| ensures p[j].h4sh != ring[i].h4sh {
      assert p[j] == ring[j] && ring[j].h4sh <= ring[i - 1].h4sh;
    }
    OwnersAtNone(p, ring[i].h4sh);
  }

  /** The first star of a hash belongs to its first owner. */
  lemma FirstStarOfHash(ring: seq<Star>, i: nat)
    requires SortedRing(ring) && i < |ring| && (i > 0 ==> ring[i - 1].h4sh < ring[i].h4sh)
    ensures OwnersAt(ring, ring[i].h4sh) != [] && OwnersAt(ring, ring[i].h4sh)[0] == ring[i].node
  {
    NoneBefore(ring, i);
    FirstOfParts(ring[..i], ring[i], ring[i + 1..]);
    PartedAt(ring, i);
  }

  /** The star where the walk for a key starts has the next hash. */
  lemma WalkStartsAtNext(c: Config, nodes: Weights, order: seq<string>, ring: seq<Star>, k: int, at: nat)
    requires c.Laid(nodes, order, ring) && ring != [] && IsSplit(ring, k, at)
    ensures var i := if at == |ring| then 0 else at;
      && Next(c, nodes, k, ring[i].h4sh)
      && OwnersAt(ring, ring[i].h4sh) != [] && OwnersAt(ring, ring[i].h4sh)[0] == ring[i].node
  {
    var i := if at == |ring| then 0 else at;
    FirstStarOfHash(ring, i);
    HasOwner(c, nodes, order, ring, ring[i].h4sh);
    forall g | HasStar(c, nodes, g)
      ensures if k < ring[i].h4sh then k < g ==> ring[i].h4sh <= g else g <= k && ring[i].h4sh <= g
    {
      HasOwner(c, nodes, order, ring, g);
      var j := OwnerHasStar(ring, g);
      NotSkipped(ring, k, at, j);
    }
  }

  lemma NotSkipped(ring: seq<Star>, k: int, at: nat, j: nat)
    requires SortedRing(ring) && IsSplit(ring, k, at) && j < |ring|
    ensures var h := ring[if at == |ring| then 0 else at].h4sh;
      if k < h then k < ring[j].h4sh ==> h <= ring[j].h4sh else ring[j].h4sh <= k && h <= ring[j].h4sh
  {}

  /** On the ring of agents that came in this order, the first owner of the next star serves a root. */
  lemma ServedByFirst(c: Config, nodes: Weights, order: seq<string>, ring: seq<Star>, root: string, h: int, a: string)
    requires c.Laid(nodes, order, ring) && ring != [] && Next(c, nodes, c.hashing.Key(root), h)
    ensures ServedOn(c, ring, root, a) <==> CameFirstAt(c, nodes, order, h, a)
  {
    var k := c.hashing.Key(root);
    var at := SomeSplit(ring, k);
    var i := if at == |ring| then 0 else at;
    WalkStartsAtNext(c, nodes, order, ring, k, at);
    NextIsUnique(c, nodes, k, h, ring[i].h4sh);
    FirstServes(c, root, ring, at, a);
    FirstCandidate(ring, at);
    FirstOwner(c, nodes, order, h);
    assert OwnersAt(ring, h) == c.Came([], nodes, order, h);
    if CameFirstAt(c, nodes, order, h, a) {
      OnlyOneFirst(c, nodes, order, h, a, ring[i].node);
    }
  }

  lemma FirstCandidate(ring: seq<Star>, at: nat)
    requires ring != [] && at <= |ring|
    ensures FirstOf(Candidates(ring, at), 1) == [ring[if at == |ring| then 0 else at].node]
  {
    var walk := Walk(Owners(ring), at);
    WalkIs(ring, at, 0);
    DedupStarts(walk);
  }

  lemma {:induction false} DedupStarts(s: seq<string>)
    requires s != []
    ensures Dedup(s) != [] && Dedup(s)[0] == s[0]
  {
    if |s| == 1 {
      assert s[..0] == [];
    } else {
      DedupStarts(s[..|s| - 1]);
    }
  }

  // ---------------------------------------------------------------- the views of all agents

  /** The order in which each agent lists all of them. */
  type Views = map<string, seq<string>>

  ghost predicate ViewsOf(agents: set<string>, views: Views) {
    views.Keys == agents && forall a {:trigger views[a]} :: a in agents ==> Listing(views[a], agents)
  }

  /** The agents that take a root with this star for theirs. */
  ghost function Servers(c: Config, nodes: Weights, views: Views, h: int): set<string> {
    set a | a in views && CameFirstAt(c, nodes, views[a], h, a)
  }

  /** Only one node has stars of this hash. */
  ghost predicate Unshared(c: Config, nodes: Weights, h: int) {
    forall n, m {:trigger StarAt(c, nodes, n, h), StarAt(c, nodes, m, h)} ::
      StarAt(c, nodes, n, h) && StarAt(c, nodes, m, h) ==> n == m
  }

  lemma AloneIsFirst(c: Config, nodes: Weights, order: seq<string>, h: int, n: string)
    requires Listing(order, nodes.Keys) && StarAt(c, nodes, n, h) && Unshared(c, nodes, h)
    ensures forall a :: CameFirstAt(c, nodes, order, h, a) <==> a == n
  {
    assert n in order;
    var i :| 0 <= i < |order| && order[i] == n;
    forall j | 0 <= j < i ensures !StarAt(c, nodes, order[j], h) {
      assert order[j] != order[i];
    }
    assert IsFirst(c, nodes, order, h, i);
    forall a | CameFirstAt(c, nodes, order, h, a) ensures a == n {
      OnlyOneFirst(c, nodes, order, h, a, n);
    }
  }

  lemma {:induction false} SomeListing(nodes: set<string>) returns (order: seq<string>)
    ensures Listing(order, nodes)
  {
    if nodes == {} {
      order := [];
    } else {
      var n :| n in nodes;
      var rest := SomeListing(nodes - {n});
      order := rest + [n];
      OneMoreListed(rest, nodes - {n}, n);
      assert nodes - {n} + {n} == nodes;
    }
  }

  /** A list of all nodes that starts with this one. */
  lemma ListingFrom(nodes: set<string>, n: string) returns (order: seq<string>)
    requires n in nodes
    ensures Listing(order, nodes) && order[..1] == [n]
  {
    var rest := SomeListing(nodes - {n});
    order := [n] + rest;
    forall i, j | 0 <= i < j < |order| ensures order[i] != order[j] {
      if i == 0 {
        assert order[j] == rest[j - 1] && rest[j - 1] in rest;
      } else {
        assert order[i] == rest[i - 1] && order[j] == rest[j - 1];
      }
    }
  }

  lemma StartIsFirst(c: Config, nodes: Weights, order: seq<string>, h: int, n: string)
    requires order != [] && order[0] == n && StarAt(c, nodes, n, h)
    ensures forall a :: CameFirstAt(c, nodes, order, h, a) <==> a == n
  {
    assert IsFirst(c, nodes, order, h, 0);
    forall a | CameFirstAt(c, nodes, order, h, a) ensures a == n {
      OnlyOneFirst(c, nodes, order, h, a, n);
    }
  }

  /** Agents that list this one first, and one agent that lists another first. */
  ghost function AllBut(agents: set<string>, first: seq<string>, m: string, second: seq<string>): Views {
    map a | a in agents :: if a == m then second else first
  }

  lemma AllButIsViews(agents: set<string>, first: seq<string>, m: string, second: seq<string>)
    requires Listing(first, agents) && Listing(second, agents)
    ensures ViewsOf(agents, AllBut(agents, first, m, second))
  {}

  lemma TwoViews(c: Config, nodes: Weights, first: seq<string>, second: seq<string>, h: int, n: string, m: string)
    requires n != m && StarAt(c, nodes, n, h) && StarAt(c, nodes, m, h)
    requires Listing(first, nodes.Keys) && first[..1] == [n] && Listing(second, nodes.Keys) && second[..1] == [m]
    ensures Servers(c, nodes, AllBut(nodes.Keys, first, m, second), h) == {n, m}
    ensures Servers(c, nodes, AllBut(nodes.Keys, second, m, first), h) == {}
  {
    assert first[0] == first[..1][0] && second[0] == second[..1][0];
    StartIsFirst(c, nodes, first, h, n);
    StartIsFirst(c, nodes, second, h, m);
  }

  /** Where two agents share a star, both of them may take a root for theirs, and so may neither. */
  lemma SharedStar(c: Config, nodes: Weights, h: int, n: string, m: string) returns (twice: Views, nobody: Views)
    requires n != m && StarAt(c, nodes, n, h) && StarAt(c, nodes, m, h)
    ensures ViewsOf(nodes.Keys, twice) && Servers(c, nodes, twice, h) == {n, m}
    ensures ViewsOf(nodes.Keys, nobody) && Servers(c, nodes, nobody, h) == {}
  {
    var first := ListingFrom(nodes.Keys, n);
    var second := ListingFrom(nodes.Keys, m);
    twice, nobody := AllBut(nodes.Keys, first, m, second), AllBut(nodes.Keys, second, m, first);
    AllButIsViews(nodes.Keys, first, m, second);
    AllButIsViews(nodes.Keys, second, m, first);
    TwoViews(c, nodes, first, second, h, n, m);
  }

  /**
   Whatever the order in which each agent sees the others, a root has exactly one server if and only if
   the star that serves it is of one agent alone.
   */
  lemma OneServerIffUnshared(c: Config, nodes: Weights, h: int)
    requires HasStar(c, nodes, h)
    ensures (forall views :: ViewsOf(nodes.Keys, views) ==> |Servers(c, nodes, views, h)| == 1) <==>
            Unshared(c, nodes, h)
  {
    var n :| StarAt(c, nodes, n, h);
    if Unshared(c, nodes, h) {
      forall views | ViewsOf(nodes.Keys, views) ensures |Servers(c, nodes, views, h)| == 1 {
        forall a | a in nodes ensures CameFirstAt(c, nodes, views[a], h, a) <==> a == n {
          AloneIsFirst(c, nodes, views[a], h, n);
        }
        assert Servers(c, nodes, views, h) == {n};
      }
    } else {
      var x, y :| StarAt(c, nodes, x, h) && StarAt(c, nodes, y, h) && x != y;
      var twice, nobody := SharedStar(c, nodes, h, x, y);
    }
  }

  /** Two agents of which one is a namesake of the other share a star, whatever the digest is. */
  lemma NamesakesShare(agents: seq<string>, hashing: Hashing, vnodes: int, agent: string, v: nat)
    requires Namesakes(agents, vnodes, agent, v)
    ensures var c, nodes, h := RingConfig(hashing, vnodes), AgentWeights(agents), hashing.Point(agent, 10 * v);
      StarAt(c, nodes, agent, h) && StarAt(c, nodes, agent + Decimal(v), h) && agent != agent + Decimal(v)
  {
    var c, h, other := RingConfig(hashing, vnodes), hashing.Point(agent, 10 * v), agent + Decimal(v);
    DecimalTimesTen(v);
    assert agent + (Decimal(v) + Decimal(0)) == other + Decimal(0);
    assert hashing.Point(agent, 10 * v) == hashing.Point(other, 0);
    assert |other| == |agent| + |Decimal(v)|;
    HitsIfStar(c, agent, vnodes, h);
    HitsIfStar(c, other, vnodes, h);
  }

  /** With a digest that tells strings apart and no namesakes, no star is shared. */
  lemma NoNamesakesNoSharing(agents: seq<string>, hashing: Hashing, vnodes: int, h: int)
    requires hashing.Injective() && forall a, v :: !Namesakes(agents, vnodes, a, v)
    ensures Unshared(RingConfig(hashing, vnodes), AgentWeights(agents), h)
  {
    var c, nodes := RingConfig(hashing, vnodes), AgentWeights(agents);
    AgentsAreDistinct(agents, hashing, vnodes);
    forall n, m | StarAt(c, nodes, n, h) && StarAt(c, nodes, m, h) ensures n == m {
      HitsIfStar(c, n, c.Count(nodes[n]), h);
      HitsIfStar(c, m, c.Count(nodes[m]), h);
    }
  }

  // ---------------------------------------------------------------- every agent at work

  /** What the agents serve is what they take for theirs in these views. */
  ghost predicate AsSeen(c: Config, nodes: Weights, roots: seq<string>, views: Views,
                         served: map<string, seq<string>>)
  {
    views.Keys == served.Keys && forall a {:trigger served[a]} :: a in served ==>
      SeenBy(c, nodes, roots, views[a], a, served[a])
  }

  ghost predicate SeenBy(c: Config, nodes: Weights, roots: seq<string>, order: seq<string>, a: string,
                         result: seq<string>)
  {
    Listing(order, nodes.Keys) && forall r, h {:trigger Next(c, nodes, c.hashing.Key(r), h)} ::
      r in roots && Next(c, nodes, c.hashing.Key(r), h) ==>
        (r in result <==> CameFirstAt(c, nodes, order, h, a))
  }

  lemma MineAsSeen(c: Config, nodes: Weights, roots: seq<string>, order: seq<string>, ring: seq<Star>, a: string)
    requires c.Laid(nodes, order, ring) && ring != []
    ensures SeenBy(c, nodes, roots, order, a, Mine(c, ring, roots, a))
  {
    forall r, h {:trigger Next(c, nodes, c.hashing.Key(r), h)} |
      r in roots && Next(c, nodes, c.hashing.Key(r), h)
      ensures r in Mine(c, ring, roots, a) <==> CameFirstAt(c, nodes, order, h, a)
    {
      ServedByFirst(c, nodes, order, ring, r, h, a);
    }
  }

  lemma RingOfAgents(c: Config, nodes: Weights, order: seq<string>, ring: seq<Star>, a: string)
    requires c.Laid(nodes, order, ring) && a in nodes && c.Count(nodes[a]) > 0
    ensures ring != []
  {
    var h := c.hashing.Point(a, 0);
    HitsIfStar(c, a, c.Count(nodes[a]), h);
    assert StarAt(c, nodes, a, h);
    HasOwner(c, nodes, order, ring, h);
  }

  ghost predicate HasNext(c: Config, nodes: Weights, k: int) {
    exists h :: Next(c, nodes, k, h)
  }

  /** Every key has a next star. */
  lemma SomeNext(c: Config, nodes: Weights, order: seq<string>, ring: seq<Star>, k: int)
    requires c.Laid(nodes, order, ring) && ring != []
    ensures HasNext(c, nodes, k)
  {
    var at := SomeSplit(ring, k);
    WalkStartsAtNext(c, nodes, order, ring, k, at);
  }

  /** One agent's share is what it takes for its own in the order in which it saw the others. */
  method OneView(me: string, agents: seq<string>, roots: seq<string>, hashing: Hashing, vnodes: int)
    returns (result: seq<string>, ghost order: seq<string>)
    requires vnodes > 0 && me in agents
    ensures SeenBy(RingConfig(hashing, vnodes), AgentWeights(agents), roots, order, me, result)
    ensures forall r :: r in result ==> r in roots
    ensures forall k :: HasNext(RingConfig(hashing, vnodes), AgentWeights(agents), k)
  {
    ghost var c, nodes := RingConfig(hashing, vnodes), AgentWeights(agents);
    var err;
    result, err := TenantAssignation(me, agents, roots, hashing, vnodes);
    ghost var ring;
    order, ring :| c.Laid(nodes, order, ring) && result == Mine(c, ring, roots, me);
    RingOfAgents(c, nodes, order, ring, me);
    MineAsSeen(c, nodes, roots, order, ring, me);
    forall k ensures HasNext(c, nodes, k) {
      SomeNext(c, nodes, order, ring, k);
    }
  }

  /**
   Every agent works out its share from the same agents and roots, in whatever order it sees them. Each
   root is then served by exactly the agents that take it for theirs in their own view.
   */
  method EachView(agents: seq<string>, roots: seq<string>, hashing: Hashing, vnodes: int)
    returns (served: map<string, seq<string>>, ghost views: Views)
    requires vnodes > 0
    ensures served.Keys == AgentWeights(agents).Keys && ViewsOf(AgentWeights(agents).Keys, views)
    ensures forall r, h {:trigger Next(RingConfig(hashing, vnodes), AgentWeights(agents), hashing.Key(r), h)} ::
      r in roots && Next(RingConfig(hashing, vnodes), AgentWeights(agents), hashing.Key(r), h) ==>
        (set a | a in served && r in served[a]) == Servers(RingConfig(hashing, vnodes), AgentWeights(agents), views, h)
    ensures agents != [] ==> forall k :: HasNext(RingConfig(hashing, vnodes), AgentWeights(agents), k)
  {
    ghost var c, nodes := RingConfig(hashing, vnodes), AgentWeights(agents);
    served, views := map[], map[];
    for i := 0 to |agents|
      invariant forall a :: a in served <==> a in agents[..i]
      invariant AsSeen(c, nodes, roots, views, served)
      invariant i > 0 ==> forall k :: HasNext(c, nodes, k)
    {
      var result;
      ghost var order;
      result, order := OneView(agents[i], agents, roots, hashing, vnodes);
      SeenMore(c, nodes, roots, views, served, agents[i], order, result);
      served, views := served[agents[i] := result], views[agents[i] := order];
      assert agents[..i + 1] == agents[..i] + [agents[i]];
    }
    assert agents[..|agents|] == agents;
    SeenIsServed(c, nodes, roots, views, served);
  }

  lemma SeenMore(c: Config, nodes: Weights, roots: seq<string>, views: Views, served: map<string, seq<string>>,
                 a: string, order: seq<string>, result: seq<string>)
    requires AsSeen(c, nodes, roots, views, served) && SeenBy(c, nodes, roots, order, a, result)
    ensures AsSeen(c, nodes, roots, views[a := order], served[a := result])
  {
    assert views[a := order].Keys == served[a := result].Keys;
  }

  lemma SeenIsServed(c: Config, nodes: Weights, roots: seq<string>, views: Views, served: map<string, seq<string>>)
    requires AsSeen(c, nodes, roots, views, served) && served.Keys == nodes.Keys
    ensures ViewsOf(nodes.Keys, views)
    ensures forall r, h {:trigger Next(c, nodes, c.hashing.Key(r), h)} ::
      r in roots && Next(c, nodes, c.hashing.Key(r), h) ==>
        (set a | a in served && r in served[a]) == Servers(c, nodes, views, h)
  {
    forall a {:trigger views[a]} | a in nodes ensures Listing(views[a], nodes.Keys) {
      assert SeenBy(c, nodes, roots, views[a], a, served[a]);
    }
  }
}
