/** What is on the ring and who serves a key, star by star. */
module RingLaws {
  import opened Keys
  import opened HashRing
  import opened TenantAssignment

  /** The digits of a number, the last one for what is left over by ten. */
  lemma DecimalMeans(x: nat)
    ensures x < 10 ==> Decimal(x) == [('0' as int + x) as char]
    ensures x >= 10 ==> Decimal(x) == Decimal(x / 10) + [('0' as int + x % 10) as char]
  {
    var digits := ['0', '1', '2', '3', '4', '5', '6', '7', '8', '9'];
    assert forall d :: 0 <= d < 10 ==> digits[d] == ('0' as int + d) as char;
  }

  /** A node has a star of a hash when one of its numbered names has this hash. */
  lemma {:induction false} HitsMean(c: Config, node: string, n: nat, h: int)
    ensures c.Hits(node, n, h) > 0 <==> exists x :: 0 <= x < n && c.hashing.hash(node + Decimal(x)) == h
  {
    if n == 0 {
    } else {
      HitsMean(c, node, n - 1, h);
      if x :| 0 <= x < n && c.hashing.hash(node + Decimal(x)) == h {
        assert x < n - 1 || c.hashing.Point(node, n - 1) == h;
      }
      if c.Hits(node, n - 1, h) > 0 {
        var x :| 0 <= x < n - 1 && c.hashing.hash(node + Decimal(x)) == h;
        assert 0 <= x < n;
      }
      if c.hashing.Point(node, n - 1) == h {
        assert c.hashing.hash(node + Decimal(n - 1)) == h;
      }
    }
  }

  lemma {:induction false} OwnersMean(ring: seq<Star>, h: int, node: string)
    ensures node in OwnersAt(ring, h) <==> Star(h, node) in ring
  {
    if ring == [] {
    } else {
      var before, last := ring[..|ring| - 1], ring[|ring| - 1];
      assert ring == before + [last];
      OwnersMean(before, h, node);
    }
  }

  /** The stars that a new node brings are those of its numbered names, and no star goes. */
  lemma JoinedMeans(c: Config, was: seq<Star>, node: string, n: nat, ring: seq<Star>, s: Star)
    requires c.JoinedStars(was, node, n, ring)
    ensures s in ring <==>
      s in was || (s.node == node && exists x :: 0 <= x < n && s.h4sh == c.hashing.hash(node + Decimal(x)))
  {
    assert OwnersAt(ring, s.h4sh) == OwnersAt(was, s.h4sh) + Times(node, c.Hits(node, n, s.h4sh));
    OwnersMean(ring, s.h4sh, s.node);
    OwnersMean(was, s.h4sh, s.node);
    HitsMean(c, node, n, s.h4sh);
    var times := Times(node, c.Hits(node, n, s.h4sh));
    assert times != [] ==> times[0] == node;
  }

  /** A node that goes takes no star of a hash that none of its numbered names has. */
  lemma TakenMeans(c: Config, was: seq<Star>, node: string, n: nat, ring: seq<Star>, s: Star)
    requires c.TakenStars(was, node, n, ring)
    ensures s in ring ==> s in was
    ensures (forall x :: 0 <= x < n ==> s.h4sh != c.hashing.hash(node + Decimal(x))) ==> (s in ring <==> s in was)
  {
    assert OwnersAt(ring, s.h4sh) == Drop(OwnersAt(was, s.h4sh), c.Hits(node, n, s.h4sh));
    OwnersMean(ring, s.h4sh, s.node);
    OwnersMean(was, s.h4sh, s.node);
    HitsMean(c, node, n, s.h4sh);
  }

  lemma {:induction false} PointBagSize(c: Config, node: string, n: nat)
    ensures |c.PointBag(node, n)| == n
  {
    if n == 0 {
    } else {
      PointBagSize(c, node, n - 1);
    }
  }

  lemma SizesAdd(was: seq<Star>, more: multiset<int>, ring: seq<Star>)
    requires HashBag(ring) == HashBag(was) + more
    ensures |ring| == |was| + |more|
  {
    assert |HashBag(ring)| == |ring| && |HashBag(was)| == |was|;
  }

  lemma GrowsByCount(c: Config, before: Weights, was: seq<Star>, node: string, weight: Option<int>, ring: seq<Star>)
    requires node !in before && HashBag(was) == c.Bag(before) && HashBag(ring) == c.Bag(before[node := weight])
    ensures |ring| == |was| + c.Count(weight)
  {
    var after := before[node := weight];
    c.BagWithout(after, node);
    assert after - {node} == before;
    PointBagSize(c, node, c.Count(weight));
    SizesAdd(was, c.PointBag(node, c.Count(weight)), ring);
  }

  /** A node adds to the ring as many stars as its weight times the number of virtual nodes, and none below zero. */
  lemma GrowsByWeight(c: Config, before: Weights, was: seq<Star>, node: string, weight: Option<int>, ring: seq<Star>)
    requires node !in before && HashBag(was) == c.Bag(before) && HashBag(ring) == c.Bag(before[node := weight])
    ensures var n := c.vnodes * (if weight.Some? then weight.value else c.defaultWeight);
      |ring| == |was| + if n < 0 then 0 else n
  {
    GrowsByCount(c, before, was, node, weight, ring);
  }

  // ---------------------------------------------------------------- who serves a key

  /** The place of the `x`-th star of the walk: one step back from star to star, and around to the last one. */
  lemma WalksBack(n: nat, at: nat, x: nat)
    requires x < n && at <= n
    ensures var start := if at == n then 0 else at;
      StepBack(n, at, x) == if x <= start then start - x else n + start - x
  {}

  /** The first occurrences are in the order in which they are met, and nothing else is met before. */
  lemma {:induction false} FirstsInOrder(walk: seq<string>, p: nat)
    requires p < |Dedup(walk)|
    ensures exists x ::
      0 <= x < |walk| && walk[x] == Dedup(walk)[p] && forall y :: 0 <= y < x ==> walk[y] in Dedup(walk)[..p]
    decreases |walk|
  {
    var before, last := walk[..|walk| - 1], walk[|walk| - 1];
    var d := Dedup(before);
    if p < |d| {
      FirstsInOrder(before, p);
      var x :| 0 <= x < |before| && before[x] == d[p] && forall y :: 0 <= y < x ==> before[y] in d[..p];
      assert Dedup(walk)[..p] == d[..p] && walk[x] == Dedup(walk)[p];
      forall y | 0 <= y < x ensures walk[y] in Dedup(walk)[..p] {
        assert before[y] == walk[y];
      }
    } else {
      DedupIsDistinct(before);
      assert Dedup(walk)[..p] == d && walk[|walk| - 1] == last;
      forall y | 0 <= y < |walk| - 1 ensures walk[y] in d {
        assert before[y] in before;
      }
    }
  }

  /**
   The nodes that serve a key, in order: each is met at some star of the walk, before which the walk has met
   only nodes that come earlier in the result.
   */
  lemma ServedAnticlockwise(ring: seq<Star>, at: nat, replicas: int, p: nat)
    requires ring != [] && at <= |ring| && p < |FirstOf(Candidates(ring, at), replicas)|
    ensures var result := FirstOf(Candidates(ring, at), replicas);
      exists x: nat ::
        && x < |ring| && ring[StepBack(|ring|, at, x)].node == result[p]
        && forall y: nat :: y < x ==> ring[StepBack(|ring|, at, y)].node in result[..p]
  {
    var walk, result := Walk(Owners(ring), at), FirstOf(Candidates(ring, at), replicas);
    FirstsInOrder(walk, p);
    var x :| 0 <= x < |walk| && walk[x] == Dedup(walk)[p] && forall y :: 0 <= y < x ==> walk[y] in Dedup(walk)[..p];
    assert Dedup(walk)[..p] == result[..p];
    WalkIs(ring, at, x);
    forall y: nat | y < x ensures ring[StepBack(|ring|, at, y)].node in result[..p] {
      WalkIs(ring, at, y);
    }
  }

  /** A root is served by the owner of the first star after its hash, or of the first star of all. */
  lemma ServedMeans(c: Config, ring: seq<Star>, root: string, agent: string, at: nat)
    requires ring != [] && at <= |ring|
    requires forall i :: 0 <= i < at ==> ring[i].h4sh <= c.hashing.hash(root)
    requires forall i :: at <= i < |ring| ==> c.hashing.hash(root) < ring[i].h4sh
    ensures ServedOn(c, ring, root, agent) <==> agent == ring[if at == |ring| then 0 else at].node
  {
    assert IsSplit(ring, c.hashing.Key(root), at);
    FirstServes(c, root, ring, at, agent);
    FirstIsAtStart(ring, at);
    assert FirstOf(Candidates(ring, at), 1) == [Candidates(ring, at)[0]];
  }

  lemma FirstIsAtStart(ring: seq<Star>, at: nat)
    requires ring != [] && at <= |ring|
    ensures Candidates(ring, at) != [] && Candidates(ring, at)[0] == ring[if at == |ring| then 0 else at].node
  {
    var walk := Walk(Owners(ring), at);
    WalkIs(ring, at, 0);
    SeenStarts(walk);
    SeenIsPrefix(walk, 0);
  }

  /** An agent's roots are taken in the order in which they were given. */
  lemma {:induction false} MineInTurn(c: Config, ring: seq<Star>, a: seq<string>, b: seq<string>, me: string)
    ensures Mine(c, ring, a + b, me) == Mine(c, ring, a, me) + Mine(c, ring, b, me)
  {
    if b == [] {
      assert a + b == a;
    } else {
      assert (a + b)[..|a + b| - 1] == a + b[..|b| - 1];
      MineInTurn(c, ring, a, b[..|b| - 1], me);
    }
  }

  lemma MineOfOne(c: Config, ring: seq<Star>, root: string, me: string)
    ensures Mine(c, ring, [root], me) == if ServedOn(c, ring, root, me) then [root] else []
  {
    assert [root][..0] == [] && Mine(c, ring, [], me) == [];
  }
}
