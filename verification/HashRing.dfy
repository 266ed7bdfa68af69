/** Consistent hashing: the ring of virtual nodes and the assignment of keys to nodes. */
module HashRing {
  import opened Keys

  /** The decimal digits of a number. */
  function Decimal(x: nat): (ds: string)
    ensures ds != []
  {
    if x < 10 then [['0', '1', '2', '3', '4', '5', '6', '7', '8', '9'][x]] else Decimal(x / 10) + Decimal(x % 10)
  }

  /** The program hashes with MD5; here any function of a string will do. */
  datatype Hashing = Hashing(hash: string -> int) {
    /** Where the `x`-th star of a node is: the name of the node and the number are hashed together. */
    function Point(node: string, x: nat): int {
      hash(node + Decimal(x))
    }

    function Key(k: string): int {
      hash(k)
    }

    /** No two strings have the same hash. */
    ghost predicate Injective() {
      forall a, b {:trigger hash(a), hash(b)} :: hash(a) == hash(b) ==> a == b
    }
  }

  datatype Star = Star(h4sh: int, node: string)

  type Weights = map<string, Option<int>>

  datatype Config = Config(hashing: Hashing, vnodes: int, defaultWeight: int) {
    /** How many stars a node of this weight has. */
    function Count(weight: Option<int>): nat {
      var n := vnodes * (if weight.Some? then weight.value else defaultWeight);
      if n < 0 then 0 else n
    }

    /** The hashes of the first `n` stars of a node. */
    ghost function PointBag(node: string, n: nat): multiset<int> {
      if n == 0 then multiset{} else PointBag(node, n - 1) + multiset{hashing.Point(node, n - 1)}
    }

    /** What is left of a bag of hashes when the first `n` stars of a node are taken out one by one. */
    ghost function LeftBag(b: multiset<int>, node: string, n: nat): multiset<int> {
      if n == 0 then b else LeftBag(b, node, n - 1) - multiset{hashing.Point(node, n - 1)}
    }

    lemma {:induction false} LeftBagIsDifference(b: multiset<int>, node: string, n: nat)
      ensures LeftBag(b, node, n) == b - PointBag(node, n)
    {
      if n == 0 {
      } else {
        LeftBagIsDifference(b, node, n - 1);
        OneMoreTaken(b, PointBag(node, n - 1), PointBag(node, n), hashing.Point(node, n - 1), LeftBag(b, node, n - 1));
      }
    }

    static lemma OneMoreTaken(b: multiset<int>, p: multiset<int>, q: multiset<int>, h: int, left: multiset<int>)
      requires q == p + multiset{h} && left == b - p
      ensures left - multiset{h} == b - q
    {}

    lemma LeftBagOfSum(b: multiset<int>, node: string, n: nat)
      ensures LeftBag(b + PointBag(node, n), node, n) == b
    {
      LeftBagIsDifference(b + PointBag(node, n), node, n);
    }

    /** A bag of hashes with the first `n` stars of a node put in one by one. */
    ghost function MoreBag(b: multiset<int>, node: string, n: nat): multiset<int> {
      if n == 0 then b else MoreBag(b, node, n - 1) + multiset{hashing.Point(node, n - 1)}
    }

    lemma {:induction false} MoreBagIsSum(b: multiset<int>, node: string, n: nat)
      ensures MoreBag(b, node, n) == b + PointBag(node, n)
    {
      if n == 0 {
      } else {
        MoreBagIsSum(b, node, n - 1);
        OneMoreJoined(b, PointBag(node, n - 1), PointBag(node, n), hashing.Point(node, n - 1), MoreBag(b, node, n - 1));
      }
    }

    static lemma OneMoreJoined(b: multiset<int>, p: multiset<int>, q: multiset<int>, h: int, more: multiset<int>)
      requires q == p + multiset{h} && more == b + p
      ensures more + multiset{h} == b + q
    {}

    /** The hashes of all stars of a cluster. */
    ghost function Bag(nodes: Weights): multiset<int> {
      if nodes == map[] then multiset{} else
        var node :| node in nodes;
        Bag(nodes - {node}) + PointBag(node, Count(nodes[node]))
    }

    lemma SomeNodeFirst(nodes: Weights) returns (first: string)
      requires nodes != map[]
      ensures first in nodes && Bag(nodes) == Bag(nodes - {first}) + PointBag(first, Count(nodes[first]))
    {
      first :| first in nodes && Bag(nodes) == Bag(nodes - {first}) + PointBag(first, Count(nodes[first]));
    }

    /** The nodes can be taken in any order. */
    lemma {:induction false} BagWithout(nodes: Weights, node: string)
      requires node in nodes
      ensures Bag(nodes) == Bag(nodes - {node}) + PointBag(node, Count(nodes[node]))
    {
      var first := SomeNodeFirst(nodes);
      if first == node {
      } else {
        var a, b := nodes - {first}, nodes - {node};
        BagWithout(a, node);
        BagWithout(b, first);
        SameRest(nodes, first, node);
        TwoTaken(Bag(nodes), Bag(a), Bag(b), Bag(a - {node}), PointBag(node, Count(nodes[node])),
          PointBag(first, Count(nodes[first])));
      }
    }

    static lemma SameRest(nodes: Weights, first: string, node: string)
      ensures nodes - {first} - {node} == nodes - {node} - {first}
    {}

    static lemma TwoTaken(all: multiset<int>, a: multiset<int>, b: multiset<int>, rest: multiset<int>,
                          x: multiset<int>, y: multiset<int>)
      requires all == a + y && a == rest + x && b == rest + y
      ensures all == b + x
    {}

    ghost predicate IsStar(nodes: Weights, s: Star) {
      s.node in nodes && exists x: nat :: x < Count(nodes[s.node]) && s.h4sh == hashing.Point(s.node, x)
    }

    /** One of the first `n` stars of the node. */
    ghost predicate FirstStars(node: string, n: nat, s: Star) {
      s.node == node && exists x: nat :: x < n && s.h4sh == hashing.Point(node, x)
    }

    lemma FirstStarsStep(node: string, n: nat, s: Star)
      ensures FirstStars(node, n + 1, s) <==> FirstStars(node, n, s) || s == Star(hashing.Point(node, n), node)
    {
      if FirstStars(node, n + 1, s) {
        var x: nat :| x < n + 1 && s.h4sh == hashing.Point(node, x);
      }
    }

    lemma StarsOfOther(nodes: Weights, node: string, s: Star)
      ensures IsStar(nodes - {node}, s) <==> IsStar(nodes, s) && s.node != node
      ensures s.node == node && node in nodes ==> (IsStar(nodes, s) <==> FirstStars(node, Count(nodes[node]), s))
    {
    }

    /** How many of the first `n` stars of a node have this hash. */
    ghost function Hits(node: string, n: nat, h: int): nat {
      if n == 0 then 0 else Hits(node, n - 1, h) + if hashing.Point(node, n - 1) == h then 1 else 0
    }

    /** The owners of the stars with this hash after more nodes have come, in this order. */
    ghost function Came(os: seq<string>, nodes: Weights, order: seq<string>, h: int): seq<string>
      requires forall n :: n in order ==> n in nodes
    {
      if order == [] then os else
        var last := order[|order| - 1];
        Came(os, nodes, order[..|order| - 1], h) + Times(last, Hits(last, Count(nodes[last]), h))
    }

    /** The owners of the stars with this hash after nodes have gone: each takes the first stars, whoever owns them. */
    ghost function Gone(os: seq<string>, nodes: Weights, order: seq<string>, h: int): seq<string>
      requires forall n :: n in order ==> n in nodes
    {
      if order == [] then os else
        var last := order[|order| - 1];
        Drop(Gone(os, nodes, order[..|order| - 1], h), Hits(last, Count(nodes[last]), h))
    }

    /** What is left of a ring when the first `n` stars of a node have been taken out by their hashes. */
    ghost predicate TakenStars(was: seq<Star>, node: string, n: nat, ring: seq<Star>) {
      forall h {:trigger OwnersAt(ring, h)} :: OwnersAt(ring, h) == Drop(OwnersAt(was, h), Hits(node, n, h))
    }

    /** A ring that the first `n` stars of a node have joined. */
    ghost predicate JoinedStars(was: seq<Star>, node: string, n: nat, ring: seq<Star>) {
      forall h {:trigger OwnersAt(ring, h)} :: OwnersAt(ring, h) == OwnersAt(was, h) + Times(node, Hits(node, n, h))
    }

    /** What is left of a ring when nodes have gone in this order. */
    ghost predicate AfterGone(was: seq<Star>, nodes: Weights, order: seq<string>, ring: seq<Star>)
      requires forall n :: n in order ==> n in nodes
    {
      forall h {:trigger OwnersAt(ring, h)} :: OwnersAt(ring, h) == Gone(OwnersAt(was, h), nodes, order, h)
    }

    /** A ring that nodes have joined in this order. */
    ghost predicate AfterCame(was: seq<Star>, nodes: Weights, order: seq<string>, ring: seq<Star>)
      requires forall n :: n in order ==> n in nodes
    {
      forall h {:trigger OwnersAt(ring, h)} :: OwnersAt(ring, h) == Came(OwnersAt(was, h), nodes, order, h)
    }

    lemma StarsStart(was: seq<Star>, node: string)
      ensures TakenStars(was, node, 0, was) && JoinedStars(was, node, 0, was)
    {
    }

    lemma OneMoreStarTaken(was: seq<Star>, node: string, x: nat, now: seq<Star>, ring: seq<Star>)
      requires TakenStars(was, node, x, now)
      requires forall h {:trigger OwnersAt(ring, h)} ::
        OwnersAt(ring, h) == Drop(OwnersAt(now, h), if h == hashing.Point(node, x) then 1 else 0)
      ensures TakenStars(was, node, x + 1, ring)
    {
      forall h {:trigger OwnersAt(ring, h)} ensures OwnersAt(ring, h) == Drop(OwnersAt(was, h), Hits(node, x + 1, h)) {
        assert OwnersAt(now, h) == Drop(OwnersAt(was, h), Hits(node, x, h));
      }
    }

    lemma OneMoreStarJoined(was: seq<Star>, node: string, x: nat, now: seq<Star>, ring: seq<Star>)
      requires JoinedStars(was, node, x, now)
      requires forall h {:trigger OwnersAt(ring, h)} ::
        OwnersAt(ring, h) == OwnersAt(now, h) + if hashing.Point(node, x) == h then [node] else []
      ensures JoinedStars(was, node, x + 1, ring)
    {
      forall h {:trigger OwnersAt(ring, h)}
        ensures OwnersAt(ring, h) == OwnersAt(was, h) + Times(node, Hits(node, x + 1, h)) {
        assert OwnersAt(now, h) == OwnersAt(was, h) + Times(node, Hits(node, x, h));
      }
    }

    lemma OneMoreGone(was: seq<Star>, nodes: Weights, order: seq<string>, node: string, now: seq<Star>, ring: seq<Star>)
      requires (forall n :: n in order ==> n in nodes) && node in nodes
      requires AfterGone(was, nodes, order, now) && TakenStars(now, node, Count(nodes[node]), ring)
      ensures (forall n :: n in order + [node] ==> n in nodes) && AfterGone(was, nodes, order + [node], ring)
    {
      assert (order + [node])[..|order|] == order;
      forall h {:trigger OwnersAt(ring, h)}
        ensures OwnersAt(ring, h) == Gone(OwnersAt(was, h), nodes, order + [node], h) {
        assert OwnersAt(now, h) == Gone(OwnersAt(was, h), nodes, order, h);
      }
    }

    /** A ring that some nodes have left and others have joined. */
    ghost predicate AfterGoneAndCame(was: seq<Star>, nodes: Weights, gone: seq<string>, more: Weights,
                                     came: seq<string>,
                                     ring: seq<Star>)
      requires (forall n :: n in gone ==> n in nodes) && (forall n :: n in came ==> n in more)
    {
      forall h {:trigger OwnersAt(ring, h)} ::
        OwnersAt(ring, h) == Came(Gone(OwnersAt(was, h), nodes, gone, h), more, came, h)
    }

    lemma GoneThenCame(was: seq<Star>, nodes: Weights, gone: seq<string>, now: seq<Star>, more: Weights,
                       came: seq<string>,
                       ring: seq<Star>)
      requires (forall n :: n in gone ==> n in nodes) && (forall n :: n in came ==> n in more)
      requires AfterGone(was, nodes, gone, now) && AfterCame(now, more, came, ring)
      ensures AfterGoneAndCame(was, nodes, gone, more, came, ring)
    {
      forall h {:trigger OwnersAt(ring, h)}
        ensures OwnersAt(ring, h) == Came(Gone(OwnersAt(was, h), nodes, gone, h), more, came, h) {
        assert OwnersAt(now, h) == Gone(OwnersAt(was, h), nodes, gone, h);
      }
    }

    lemma OneMoreCame(was: seq<Star>, nodes: Weights, order: seq<string>, node: string, now: seq<Star>, ring: seq<Star>)
      requires (forall n :: n in order ==> n in nodes) && node in nodes
      requires AfterCame(was, nodes, order, now) && JoinedStars(now, node, Count(nodes[node]), ring)
      ensures (forall n :: n in order + [node] ==> n in nodes) && AfterCame(was, nodes, order + [node], ring)
    {
      assert (order + [node])[..|order|] == order;
      forall h {:trigger OwnersAt(ring, h)}
        ensures OwnersAt(ring, h) == Came(OwnersAt(was, h), nodes, order + [node], h) {
        assert OwnersAt(now, h) == Came(OwnersAt(was, h), nodes, order, h);
      }
    }

    /** The ring of nodes that came in this order. */
    ghost predicate Laid(nodes: Weights, order: seq<string>, ring: seq<Star>) {
      SortedRing(ring) && Listing(order, nodes.Keys) && AfterCame([], nodes, order, ring)
    }

    lemma OneCame(was: seq<Star>, nodes: Weights, gone: seq<string>, node: string, weight: Option<int>,
                  came: seq<string>,
                  ring: seq<Star>)
      requires Listing(gone, nodes.Keys * {node}) && Listing(came, {node})
      requires AfterGoneAndCame(was, nodes, gone, map[node := weight], came, ring)
      ensures node !in nodes ==> JoinedStars(was, node, Count(weight), ring)
    {
      if node !in nodes {
        assert nodes.Keys * {node} == {};
        EmptyListing(gone);
        SingleListing(came, node);
        forall h {:trigger OwnersAt(ring, h)}
          ensures OwnersAt(ring, h) == OwnersAt(was, h) + Times(node, Hits(node, Count(weight), h)) {
          OneInOrder(OwnersAt(was, h), map[node := weight], node, h);
        }
      }
    }

    lemma OneInOrder(os: seq<string>, nodes: Weights, node: string, h: int)
      requires node in nodes
      ensures Came(os, nodes, [node], h) == os + Times(node, Hits(node, Count(nodes[node]), h))
      ensures Gone(os, nodes, [node], h) == Drop(os, Hits(node, Count(nodes[node]), h))
    {
      assert [node][..0] == [];
    }

    lemma OneGone(was: seq<Star>, nodes: Weights, node: string, order: seq<string>, ring: seq<Star>)
      requires node in nodes && Listing(order, nodes.Keys * {node}) && AfterGone(was, nodes, order, ring)
      ensures TakenStars(was, node, Count(nodes[node]), ring)
    {
      assert nodes.Keys * {node} == {node};
      SingleListing(order, node);
      forall h {:trigger OwnersAt(ring, h)}
        ensures OwnersAt(ring, h) == Drop(OwnersAt(was, h), Hits(node, Count(nodes[node]), h)) {
        OneInOrder(OwnersAt(was, h), nodes, node, h);
      }
    }

    lemma OnlyCame(nodes: Weights, gone: seq<string>, came: seq<string>, ring: seq<Star>)
      requires SortedRing(ring) && Listing(gone, {}) && Listing(came, nodes.Keys)
      requires AfterGoneAndCame([], map[], gone, nodes, came, ring)
      ensures Laid(nodes, came, ring)
    {
      EmptyListing(gone);
    }

    /** No two stars of the cluster have the same hash. */
    ghost predicate Distinct(nodes: Weights) {
      forall n, m, x: nat, y: nat {:trigger hashing.Point(n, x), hashing.Point(m, y)} ::
        (n in nodes && m in nodes && x < Count(nodes[n]) && y < Count(nodes[m]) &&
         hashing.Point(n, x) == hashing.Point(m, y)) ==> n == m && x == y
    }
  }

  ghost predicate SortedRing(ring: seq<Star>) {
    forall i, j :: 0 <= i < j < |ring| ==> ring[i].h4sh <= ring[j].h4sh
  }

  /** The owners of the stars with this hash, in the order of the ring. */
  ghost function OwnersAt(ring: seq<Star>, h: int): seq<string> {
    if ring == [] then [] else
      OwnersAt(ring[..|ring| - 1], h) + if ring[|ring| - 1].h4sh == h then [ring[|ring| - 1].node] else []
  }

  ghost function Times(node: string, n: nat): (s: seq<string>)
    ensures |s| == n && forall i :: 0 <= i < n ==> s[i] == node
  {
    seq(n, _ => node)
  }

  /** The list without its first `n` elements. */
  ghost function Drop(s: seq<string>, n: nat): seq<string> {
    if n <= |s| then s[n..] else []
  }

  lemma EmptyListing(order: seq<string>)
    requires Listing(order, {})
    ensures order == []
  {
    if order != [] {
      ListedAt(order, {}, 0);
    }
  }

  lemma ListedAt(order: seq<string>, nodes: set<string>, i: nat)
    requires Listing(order, nodes) && i < |order|
    ensures order[i] in nodes
  {
    assert order[i] in order;
  }

  lemma SingleListing(order: seq<string>, node: string)
    requires Listing(order, {node})
    ensures order == [node]
  {
    assert node in order;
    ListedAt(order, {node}, 0);
    if |order| > 1 {
      ListedAt(order, {node}, 1);
    }
  }

  lemma OneMoreListed(order: seq<string>, nodes: set<string>, node: string)
    requires Listing(order, nodes) && node !in nodes
    ensures Listing(order + [node], nodes + {node})
  {
  }

  /** Every one of these once. */
  ghost predicate Listing(order: seq<string>, nodes: set<string>) {
    NoRepeats(order) && forall n :: n in order <==> n in nodes
  }

  function Hashes(ring: seq<Star>): (hs: seq<int>)
    ensures |hs| == |ring| && forall i :: 0 <= i < |ring| ==> hs[i] == ring[i].h4sh
  {
    seq(|ring|, i requires 0 <= i < |ring| => ring[i].h4sh)
  }

  ghost function HashBag(ring: seq<Star>): multiset<int> {
    multiset(Hashes(ring))
  }

  /** The ring holds exactly the stars of the cluster, each once. */
  ghost predicate Exact(c: Config, nodes: Weights, ring: seq<Star>) {
    && Strict(ring)
    && forall s :: s in ring <==> c.IsStar(nodes, s)
  }

  /** Reproducibility: the ring depends on nothing but the nodes and their weights. */
  lemma {:induction false} ExactIsUnique(c: Config, nodes: Weights, a: seq<Star>, b: seq<Star>)
    requires Exact(c, nodes, a) && Exact(c, nodes, b)
    ensures a == b
  {
    assert forall s :: s in a <==> s in b;
    StrictlySortedUnique(a, b);
  }

  /** The first star has the least hash. */
  lemma FirstIsLeast(a: seq<Star>, s: Star)
    requires Strict(a) && s in a
    ensures s == a[0] || a[0].h4sh < s.h4sh
  {
    var i :| 0 <= i < |a| && a[i] == s;
  }

  lemma FirstIsIn(b: seq<Star>)
    requires b != []
    ensures b[0] in b
  {}

  lemma EmptyWhenNone(b: seq<Star>)
    requires forall s :: s !in b
    ensures b == []
  {
    if b != [] {
      FirstIsIn(b);
    }
  }

  lemma TailsSame(a: seq<Star>, b: seq<Star>, s: Star)
    requires Strict(a) && Strict(b) && a != [] && b != [] && a[0] == b[0] && s in a[1..]
    requires forall s :: s in a ==> s in b
    ensures s in b[1..]
  {
    var i :| 0 <= i < |a[1..]| && a[1..][i] == s;
    assert a[i + 1] == s && s in a;
    var j :| 0 <= j < |b| && b[j] == s;
    assert j > 0 && b[1..][j - 1] == s;
  }

  lemma {:induction false} StrictlySortedUnique(a: seq<Star>, b: seq<Star>)
    requires Strict(a) && Strict(b)
    requires forall s :: s in a <==> s in b
    ensures a == b
  {
    if a == [] {
      EmptyWhenNone(b);
    } else {
      assert a[0] in a;
      FirstIsLeast(b, a[0]);
      assert b[0] in b;
      FirstIsLeast(a, b[0]);
      forall s ensures s in a[1..] <==> s in b[1..] {
        if s in a[1..] {
          TailsSame(a, b, s);
        } else if s in b[1..] {
          TailsSame(b, a, s);
        }
      }
      StrictlySortedUnique(a[1..], b[1..]);
      assert a == [a[0]] + a[1..] && b == [b[0]] + b[1..];
    }
  }

  // ---------------------------------------------------------------- inserting and removing stars

  lemma InsertedBag(ring: seq<Star>, s: Star, at: nat)
    requires at <= |ring|
    ensures HashBag(ring[..at] + [s] + ring[at..]) == HashBag(ring) + multiset{s.h4sh}
  {
    var hs := Hashes(ring);
    assert Hashes(ring[..at] + [s] + ring[at..]) == hs[..at] + [s.h4sh] + hs[at..];
    assert hs == hs[..at] + hs[at..];
  }

  lemma RemovedSorted(ring: seq<Star>, at: nat)
    requires at < |ring| && SortedRing(ring)
    ensures SortedRing(ring[..at] + ring[at + 1..])
  {}

  lemma NothingToRemove(ring: seq<Star>, h: int)
    requires forall i :: 0 <= i < |ring| ==> ring[i].h4sh != h
    ensures HashBag(ring) - multiset{h} == HashBag(ring)
  {
    assert h !in Hashes(ring);
  }

  lemma RemovedBag(ring: seq<Star>, at: nat)
    requires at < |ring|
    ensures HashBag(ring[..at] + ring[at + 1..]) == HashBag(ring) - multiset{ring[at].h4sh}
  {
    var hs := Hashes(ring);
    assert Hashes(ring[..at] + ring[at + 1..]) == hs[..at] + hs[at + 1..];
    assert hs == hs[..at] + [hs[at]] + hs[at + 1..];
  }

  lemma {:induction false} OwnersAtConcat(a: seq<Star>, b: seq<Star>, h: int)
    ensures OwnersAt(a + b, h) == OwnersAt(a, h) + OwnersAt(b, h)
  {
    if b == [] {
      assert a + b == a;
    } else {
      assert (a + b)[..|a + b| - 1] == a + b[..|b| - 1];
      OwnersAtConcat(a, b[..|b| - 1], h);
    }
  }

  lemma {:induction false} OwnersAtNone(ring: seq<Star>, h: int)
    requires forall i :: 0 <= i < |ring| ==> ring[i].h4sh != h
    ensures OwnersAt(ring, h) == []
  {
    if ring == [] {
    } else {
      OwnersAtNone(ring[..|ring| - 1], h);
    }
  }

  lemma OwnersAtOne(s: Star, h: int)
    ensures OwnersAt([s], h) == if s.h4sh == h then [s.node] else []
  {
    assert [s][..0] == [];
  }

  lemma InsertedOwners(ring: seq<Star>, s: Star, at: nat, h: int)
    requires at <= |ring| && forall i :: at <= i < |ring| ==> s.h4sh < ring[i].h4sh
    ensures OwnersAt(ring[..at] + [s] + ring[at..], h) == OwnersAt(ring, h) + if s.h4sh == h then [s.node] else []
  {
    OwnersAtConcat(ring[..at] + [s], ring[at..], h);
    OwnersAtConcat(ring[..at], [s], h);
    OwnersAtOne(s, h);
    assert ring == ring[..at] + ring[at..];
    OwnersAtConcat(ring[..at], ring[at..], h);
    if s.h4sh == h {
      OwnersAtNone(ring[at..], h);
    }
  }

  lemma RemovedOwners(ring: seq<Star>, at: nat, h: int)
    requires at < |ring| && forall i :: 0 <= i < at ==> ring[i].h4sh != ring[at].h4sh
    ensures OwnersAt(ring[..at] + ring[at + 1..], h) == Drop(OwnersAt(ring, h), if ring[at].h4sh == h then 1 else 0)
  {
    PartedAt(ring, at);
    if ring[at].h4sh == h {
      OwnersAtNone(ring[..at], h);
    }
    RemovedBetween(ring[..at], ring[at], ring[at + 1..], h);
  }

  lemma PartedAt(ring: seq<Star>, at: nat)
    requires at < |ring|
    ensures ring == ring[..at] + [ring[at]] + ring[at + 1..]
  {
  }

  lemma DropBetween(a: seq<string>, x: string, b: seq<string>, there: bool)
    requires there ==> a == []
    ensures a + b == Drop(a + (if there then [x] else []) + b, if there then 1 else 0)
  {
  }

  lemma RemovedBetween(p: seq<Star>, s: Star, q: seq<Star>, h: int)
    requires s.h4sh == h ==> OwnersAt(p, h) == []
    ensures OwnersAt(p + q, h) == Drop(OwnersAt(p + [s] + q, h), if s.h4sh == h then 1 else 0)
  {
    OwnersAtConcat(p, q, h);
    OwnersAtConcat(p + [s], q, h);
    OwnersAtConcat(p, [s], h);
    OwnersAtOne(s, h);
    DropBetween(OwnersAt(p, h), s.node, OwnersAt(q, h), s.h4sh == h);
  }

  lemma LastHasOwner(a: seq<Star>)
    requires a != []
    ensures OwnersAt(a, a[|a| - 1].h4sh) != []
  {
  }

  lemma LastOwner(a: seq<Star>, h: int)
    requires a != []
    ensures var os, last := OwnersAt(a, h), a[|a| - 1];
      if last.h4sh == h then os != [] && os[|os| - 1] == last.node && OwnersAt(a[..|a| - 1], h) == os[..|os| - 1]
      else OwnersAt(a[..|a| - 1], h) == os
  {
  }

  lemma LastIsGreatest(a: seq<Star>, b: seq<Star>)
    requires SortedRing(b) && a != [] && b != []
    requires OwnersAt(a, a[|a| - 1].h4sh) == OwnersAt(b, a[|a| - 1].h4sh)
    ensures a[|a| - 1].h4sh <= b[|b| - 1].h4sh
  {
    if b[|b| - 1].h4sh < a[|a| - 1].h4sh {
      OwnersAtNone(b, a[|a| - 1].h4sh);
    }
  }

  /** A sorted ring is determined by the owners at every hash. */
  lemma {:induction false} OwnersDetermine(a: seq<Star>, b: seq<Star>)
    requires SortedRing(a) && SortedRing(b)
    requires forall h {:trigger OwnersAt(a, h)} {:trigger OwnersAt(b, h)} :: OwnersAt(a, h) == OwnersAt(b, h)
    ensures a == b
  {
    if a == [] {
      if b != [] {
        LastHasOwner(b);
      }
    } else if b == [] {
      LastHasOwner(a);
    } else {
      var x, y := a[|a| - 1], b[|b| - 1];
      assert OwnersAt(a, y.h4sh) == OwnersAt(b, y.h4sh);
      LastIsGreatest(a, b);
      LastIsGreatest(b, a);
      LastOwner(a, x.h4sh);
      LastOwner(b, x.h4sh);
      forall h {:trigger OwnersAt(a[..|a| - 1], h)} ensures OwnersAt(a[..|a| - 1], h) == OwnersAt(b[..|b| - 1], h) {
        assert OwnersAt(a, h) == OwnersAt(b, h);
        LastOwner(a, h);
        LastOwner(b, h);
      }
      OwnersDetermine(a[..|a| - 1], b[..|b| - 1]);
      assert a == a[..|a| - 1] + [x] && b == b[..|b| - 1] + [y];
    }
  }

  /** Where a new star goes: after those of the same hash. */
  method BisectRight(ring: seq<Star>, h: int) returns (at: nat)
    requires SortedRing(ring)
    ensures at <= |ring|
    ensures forall i :: 0 <= i < at ==> ring[i].h4sh <= h
    ensures forall i :: at <= i < |ring| ==> h < ring[i].h4sh
  {
    var lo, hi := 0, |ring|;
    while lo < hi
      invariant 0 <= lo <= hi <= |ring|
      invariant forall i :: 0 <= i < lo ==> ring[i].h4sh <= h
      invariant forall i :: hi <= i < |ring| ==> h < ring[i].h4sh
    {
      var mid := (lo + hi) / 2;
      if h < ring[mid].h4sh {
        hi := mid;
      } else {
        lo := mid + 1;
      }
    }
    at := lo;
  }

  class ConsistentHashRing {
    const config: Config
    const replicas: int
    var nodes: Weights
    var ring: seq<Star>

    /** The ring is sorted and its hashes are those of the nodes' stars, collisions or not. */
    ghost predicate Valid()
      reads this
    {
      SortedRing(ring) && HashBag(ring) == config.Bag(nodes)
    }

    constructor (nodes: Weights, config: Config, replicas: int)
      ensures this.config == config && this.replicas == replicas
      ensures Valid() && this.nodes == nodes
      ensures config.Distinct(nodes) ==> Exact(config, nodes, ring)
      ensures exists order :: config.Laid(nodes, order, ring)
    {
      this.config, this.replicas, this.nodes, this.ring := config, replicas, map[], [];
      new;
      assert nodes == map[] + nodes;
      ghost var gone, came := AddNodes(nodes);
      config.OnlyCame(nodes, gone, came, ring);
    }

    /** Insert a star where it belongs. */
    method Insort(s: Star)
      requires SortedRing(ring)
      modifies this`ring
      ensures SortedRing(ring) && HashBag(ring) == HashBag(old(ring)) + multiset{s.h4sh}
      ensures forall t :: t in ring <==> t in old(ring) || t == s
      ensures forall h {:trigger OwnersAt(ring, h)} ::
        OwnersAt(ring, h) == OwnersAt(old(ring), h) + if s.h4sh == h then [s.node] else []
      ensures Strict(old(ring)) && (forall t :: t in old(ring) ==> t.h4sh != s.h4sh) ==> Strict(ring)
    {
      var at := BisectRight(ring, s.h4sh);
      InsertedBag(ring, s, at);
      if Strict(ring) && forall t :: t in ring ==> t.h4sh != s.h4sh {
        InsertedStrict(ring, s, at);
      }
      forall h
        ensures OwnersAt(ring[..at] + [s] + ring[at..], h) == OwnersAt(ring, h) + if s.h4sh == h then [s.node] else []
      {
        InsertedOwners(ring, s, at, h);
      }
      ring := ring[..at] + [s] + ring[at..];
    }

    /** Removes the first star of this hash, whoever owns it. */
    method RemoveHash(h: int)
      requires SortedRing(ring)
      modifies this`ring
      ensures SortedRing(ring) && HashBag(ring) == HashBag(old(ring)) - multiset{h}
      ensures forall g {:trigger OwnersAt(ring, g)} ::
        OwnersAt(ring, g) == Drop(OwnersAt(old(ring), g), if g == h then 1 else 0)
      ensures Strict(old(ring)) ==> Strict(ring) && forall t :: t in ring <==> t in old(ring) && t.h4sh != h
    {
      var at := 0;
      while at < |ring| && ring[at].h4sh != h
        invariant 0 <= at <= |ring|
        invariant forall i :: 0 <= i < at ==> ring[i].h4sh != h
      {
        at := at + 1;
      }
      if at < |ring| {
        RemovedBag(ring, at);
        RemovedSorted(ring, at);
        if Strict(ring) {
          RemovedStrict(ring, at);
        }
        forall g ensures OwnersAt(ring[..at] + ring[at + 1..], g) == Drop(OwnersAt(ring, g), if g == h then 1 else 0) {
          RemovedOwners(ring, at, g);
        }
        ring := ring[..at] + ring[at + 1..];
      } else {
        NothingToRemove(ring, h);
        OwnersAtNone(ring, h);
      }
    }

    /** One round of a node's removal. */
    method RemoveStar(node: string, x: nat, ghost before: Weights, ghost bag: multiset<int>, ghost was: seq<Star>,
                      ghost exact: bool)
      requires SortedRing(ring) && HashBag(ring) == config.LeftBag(bag, node, x)
      requires exact ==> config.Distinct(before) && node in before && x < config.Count(before[node])
      requires exact ==> ExactMinus(config, before, node, x, ring)
      requires config.TakenStars(was, node, x, ring)
      modifies this`ring
      ensures SortedRing(ring) && HashBag(ring) == config.LeftBag(bag, node, x + 1)
      ensures exact ==> ExactMinus(config, before, node, x + 1, ring)
      ensures config.TakenStars(was, node, x + 1, ring)
    {
      if exact {
        RemovedOne(config, before, node, x);
      }
      ghost var now := ring;
      RemoveHash(config.hashing.Point(node, x));
      config.OneMoreStarTaken(was, node, x, now, ring);
    }

    /** The stars of one node leave the ring. */
    method TakeOut(node: string)
      requires Valid() && node in nodes
      modifies this
      ensures Valid() && nodes == old(nodes) - {node}
      ensures old(Exact(config, nodes, ring)) && config.Distinct(old(nodes)) ==> Exact(config, nodes, ring)
      ensures config.TakenStars(old(ring), node, config.Count(old(nodes)[node]), ring)
    {
      ghost var before, bag, was := nodes, HashBag(ring), ring;
      ghost var exact := Exact(config, nodes, ring) && config.Distinct(nodes);
      var count := config.Count(nodes[node]);
      if exact {
        MinusStarts(config, nodes, node, ring);
      }
      nodes := nodes - {node};
      config.BagWithout(before, node);
      config.LeftBagOfSum(config.Bag(nodes), node, count);
      assert bag == config.Bag(nodes) + config.PointBag(node, count);
      var x := 0;
      while x < count
        invariant 0 <= x <= count && SortedRing(ring) && nodes == before - {node}
        invariant HashBag(ring) == config.LeftBag(bag, node, x)
        invariant config.TakenStars(was, node, x, ring)
        invariant exact ==> ExactMinus(config, before, node, x, ring)
      {
        RemoveStar(node, x, before, bag, was, exact);
        x := x + 1;
      }
      if exact {
        MinusEnds(config, before, node, ring);
      }
    }

    /** The nodes in `done` have left, in this order, the ring that was there. */
    ghost predicate Leaving(before: Weights, done: set<string>, was: seq<Star>, order: seq<string>, exact: bool)
      reads this
    {
      && Valid() && nodes == before - done
      && Listing(order, before.Keys * done) && config.AfterGone(was, before, order, ring)
      && (exact ==> Exact(config, nodes, ring) && config.Distinct(before))
    }

    method RemoveNodes(gone: set<string>) returns (ghost order: seq<string>)
      requires Valid()
      modifies this
      ensures Listing(order, old(nodes).Keys * gone) && config.AfterGone(old(ring), old(nodes), order, ring)
      ensures Valid() && nodes == old(nodes) - gone
      ensures old(Exact(config, nodes, ring)) && config.Distinct(old(nodes)) ==> Exact(config, nodes, ring)
    {
      ghost var before, was := nodes, ring;
      ghost var exact := Exact(config, nodes, ring) && config.Distinct(nodes);
      var todo := gone;
      order := [];
      assert before - {} == before && gone - gone == {} && before.Keys * {} == {};
      while todo != {}
        invariant todo <= gone && Leaving(before, gone - todo, was, order, exact)
      {
        var node :| node in todo;
        assert gone - (todo - {node}) == gone - todo + {node};
        order := RemoveNext(node, before, gone - todo, was, order, exact);
        todo := todo - {node};
      }
      assert gone - {} == gone;
    }

    method RemoveNext(node: string, ghost before: Weights, ghost done: set<string>, ghost was: seq<Star>,
                      ghost order: seq<string>, ghost exact: bool)
      returns (ghost longer: seq<string>)
      requires node !in done && Leaving(before, done, was, order, exact)
      modifies this
      ensures Leaving(before, done + {node}, was, longer, exact)
    {
      RemoveOneMore(before, done, node);
      longer := order;
      if node in nodes {
        if exact {
          DistinctSubset(config, before, nodes);
        }
        ghost var now := ring;
        TakeOut(node);
        config.OneMoreGone(was, before, order, node, now, ring);
        OneMoreListed(order, before.Keys * done, node);
        longer := order + [node];
      }
    }

    /** One round of a node's insertion. */
    method InsertStar(node: string, x: nat, ghost base: Weights, ghost weight: Option<int>, ghost bag: multiset<int>,
                      ghost was: seq<Star>, ghost exact: bool)
      requires SortedRing(ring) && HashBag(ring) == config.MoreBag(bag, node, x)
      requires exact ==> config.Distinct(base[node := weight]) && node !in base && x < config.Count(weight)
      requires exact ==> ExactPlus(config, base, node, x, ring)
      requires config.JoinedStars(was, node, x, ring)
      modifies this`ring
      ensures SortedRing(ring) && HashBag(ring) == config.MoreBag(bag, node, x + 1)
      ensures exact ==> ExactPlus(config, base, node, x + 1, ring)
      ensures config.JoinedStars(was, node, x + 1, ring)
    {
      if exact {
        InsertedOne(config, base, node, weight, x);
      }
      ghost var now := ring;
      Insort(Star(config.hashing.Point(node, x), node));
      config.OneMoreStarJoined(was, node, x, now, ring);
    }

    /** The stars of one node join the ring; `base` are the nodes whose stars are there already. */
    method InsertNode(node: string, weight: Option<int>, ghost base: Weights)
      requires SortedRing(ring) && node !in base && HashBag(ring) == config.Bag(base)
      modifies this`ring
      ensures SortedRing(ring) && HashBag(ring) == config.Bag(base[node := weight])
      ensures old(Exact(config, base, ring)) && config.Distinct(base[node := weight]) ==>
        Exact(config, base[node := weight], ring)
      ensures config.JoinedStars(old(ring), node, config.Count(weight), ring)
    {
      ghost var after, bag, was := base[node := weight], HashBag(ring), ring;
      ghost var exact := Exact(config, base, ring) && config.Distinct(after);
      var count := config.Count(weight);
      if exact {
        PlusStarts(config, base, node, ring);
      }
      config.BagWithout(after, node);
      assert after - {node} == base;
      config.MoreBagIsSum(bag, node, count);
      config.StarsStart(was, node);
      var x := 0;
      while x < count
        invariant 0 <= x <= count && SortedRing(ring)
        invariant HashBag(ring) == config.MoreBag(bag, node, x)
        invariant exact ==> ExactPlus(config, base, node, x, ring)
        invariant config.JoinedStars(was, node, x, ring)
      {
        InsertStar(node, x, base, weight, bag, was, exact);
        x := x + 1;
      }
      if exact {
        PlusEnds(config, base, node, weight, ring);
      }
    }

    /** All new nodes but `left` have joined, in this order, the ring that was there. */
    ghost predicate Joining(kept: Weights, more: Weights, left: set<string>, was: seq<Star>, order: seq<string>,
                            exact: bool)
      reads this
    {
      && left <= more.Keys && kept.Keys !! more.Keys
      && SortedRing(ring) && HashBag(ring) == config.Bag(Inserted(kept, more, left))
      && (exact ==> Exact(config, Inserted(kept, more, left), ring) && config.Distinct(kept + more))
      && Listing(order, more.Keys - left) && config.AfterCame(was, more, order, ring)
    }

    /** Inserts the stars of new nodes. */
    method InsertNodes(more: Weights, ghost kept: Weights) returns (ghost order: seq<string>)
      requires SortedRing(ring) && kept.Keys !! more.Keys && HashBag(ring) == config.Bag(kept)
      modifies this`ring
      ensures SortedRing(ring) && HashBag(ring) == config.Bag(kept + more)
      ensures old(Exact(config, kept, ring)) && config.Distinct(kept + more) ==> Exact(config, kept + more, ring)
      ensures Listing(order, more.Keys) && config.AfterCame(old(ring), more, order, ring)
    {
      ghost var exact, was := Exact(config, kept, ring) && config.Distinct(kept + more), ring;
      var left := more.Keys;
      order := [];
      NoneInserted(kept, more);
      while left != {}
        invariant Joining(kept, more, left, was, order, exact)
      {
        var node :| node in left;
        order := InsertNext(node, more, left, kept, was, order, exact);
        left := left - {node};
      }
      NoneInserted(kept, more);
    }

    method InsertNext(node: string, more: Weights, ghost left: set<string>, ghost kept: Weights, ghost was: seq<Star>,
                      ghost order: seq<string>, ghost exact: bool)
      returns (ghost longer: seq<string>)
      requires node in left && Joining(kept, more, left, was, order, exact)
      modifies this`ring
      ensures Joining(kept, more, left - {node}, was, longer, exact)
    {
      NextInserted(kept, more, left, node);
      ghost var base, now := Inserted(kept, more, left), ring;
      if exact {
        DistinctSubset(config, kept + more, base[node := more[node]]);
      }
      InsertNode(node, more[node], base);
      config.OneMoreCame(was, more, order, node, now, ring);
      OneMoreListed(order, more.Keys - left, node);
      longer := order + [node];
      assert more.Keys - (left - {node}) == more.Keys - left + {node};
    }

    /** Adds nodes, or gives nodes in the ring a new weight. */
    method AddNodes(more: Weights) returns (ghost gone: seq<string>, ghost came: seq<string>)
      requires Valid()
      modifies this
      ensures Valid() && nodes == old(nodes) + more
      ensures old(Exact(config, nodes, ring)) && config.Distinct(old(nodes)) && config.Distinct(old(nodes) + more)
        ==> Exact(config, nodes, ring)
      ensures Listing(gone, old(nodes).Keys * more.Keys) && Listing(came, more.Keys)
      ensures config.AfterGoneAndCame(old(ring), old(nodes), gone, more, came, ring)
    {
      ghost var before, was := nodes, ring;
      gone := RemoveNodes(nodes.Keys * more.Keys);
      ReplacedOrNew(before, more);
      ghost var now := ring;
      came := InsertNodes(more, nodes);
      config.GoneThenCame(was, before, gone, now, more, came, ring);
      nodes := nodes + more;
    }

    method AddNode(node: string, weight: Option<int> := None)
      requires Valid()
      modifies this
      ensures Valid() && nodes == old(nodes)[node := weight]
      ensures old(Exact(config, nodes, ring)) && config.Distinct(old(nodes)) ==>
        config.Distinct(nodes) ==> Exact(config, nodes, ring)
      ensures node !in old(nodes) ==> config.JoinedStars(old(ring), node, config.Count(weight), ring)
    {
      assert nodes + map[node := weight] == nodes[node := weight];
      ghost var was, before := ring, nodes;
      ghost var gone, came := AddNodes(map[node := weight]);
      config.OneCame(was, before, gone, node, weight, came, ring);
    }

    method RemoveNode(node: string)
      requires Valid()
      modifies this
      ensures Valid() && nodes == old(nodes) - {node}
      ensures old(Exact(config, nodes, ring)) && config.Distinct(old(nodes)) ==> Exact(config, nodes, ring)
      ensures node in old(nodes) ==> config.TakenStars(old(ring), node, config.Count(old(nodes)[node]), ring)
    {
      ghost var was, before := ring, nodes;
      ghost var order := RemoveNodes({node});
      if node in before {
        config.OneGone(was, before, node, order, ring);
      }
    }

    /** The nodes that serve a key: the walk starts at the first star after the key, anticlockwise. */
    method AssignKey(key: string) returns (result: seq<string>, err: Option<Error>, at: nat)
      requires Valid()
      ensures err == if ring == [] then Some(IndexError) else None
      ensures ring != [] ==>
        IsSplit(ring, config.hashing.Key(key), at) && result == FirstOf(Candidates(ring, at), replicas)
      ensures ring != [] ==>
        && at <= |ring|
        && (forall i :: 0 <= i < at ==> ring[i].h4sh <= config.hashing.hash(key))
        && (forall i :: at <= i < |ring| ==> config.hashing.hash(key) < ring[i].h4sh)
    {
      at := BisectRight(ring, config.hashing.Key(key));
      if ring == [] {
        return [], Some(IndexError), at;
      }
      result := CollectNodes(at);
      err := None;
    }

    /** Goes once around the ring against the clock, until there are enough nodes. */
    method CollectNodes(at: nat) returns (result: seq<string>)
      requires ring != [] && at <= |ring|
      ensures result == FirstOf(Candidates(ring, at), replicas)
    {
      CollectStarts(ring, at);
      result := [ring[StepBack(|ring|, at, 0)].node];
      var x := 0;
      while x < |ring|
        invariant x <= |ring| && Collected(ring, at, x, replicas, result)
      {
        CollectStep(ring, at, x, replicas, result);
        if |result| == replicas {
          return;
        }
        result := WithNode(result, ring[StepBack(|ring|, at, x)].node);
        x := x + 1;
      }
      CollectEnds(ring, at, replicas, result);
    }
  }

  /** What was found in `x` steps; it is never more than asked for. */
  ghost predicate Collected(ring: seq<Star>, at: nat, x: nat, replicas: int, result: seq<string>)
    requires ring != [] && at <= |ring| && x <= |ring|
  {
    result == Seen(Walk(Owners(ring), at), x) && (replicas < 1 || |result| <= replicas)
  }

  lemma CollectStarts(ring: seq<Star>, at: nat)
    requires ring != [] && at <= |ring|
    ensures Seen(Walk(Owners(ring), at), 0) == [ring[StepBack(|ring|, at, 0)].node]
  {
    WalkIs(ring, at, 0);
    SeenStarts(Walk(Owners(ring), at));
  }

  lemma CollectEnds(ring: seq<Star>, at: nat, replicas: int, result: seq<string>)
    requires ring != [] && at <= |ring| && Collected(ring, at, |ring|, replicas, result)
    ensures result == FirstOf(Candidates(ring, at), replicas)
  {
    SeenAll(Walk(Owners(ring), at));
  }

  lemma CollectStep(ring: seq<Star>, at: nat, x: nat, replicas: int, result: seq<string>)
    requires ring != [] && at <= |ring| && x < |ring| && Collected(ring, at, x, replicas, result)
    ensures if |result| == replicas then result == FirstOf(Candidates(ring, at), replicas)
            else Collected(ring, at, x + 1, replicas, WithNode(result, ring[StepBack(|ring|, at, x)].node))
  {
    var walk := Walk(Owners(ring), at);
    WalkIs(ring, at, x);
    SeenStep(walk, x);
    if |result| == replicas {
      TakenEnough(result, Dedup(walk), replicas);
    }
  }

  function WithNode(nodes: seq<string>, node: string): seq<string> {
    if node in nodes then nodes else nodes + [node]
  }

  datatype Error = IndexError

  // ---------------------------------------------------------------- walking the ring

  function Owners(ring: seq<Star>): (os: seq<string>)
    ensures |os| == |ring| && forall i :: 0 <= i < |ring| ==> os[i] == ring[i].node
  {
    seq(|ring|, i requires 0 <= i < |ring| => ring[i].node)
  }

  /** The first `at` stars are at or before the hash, the others after it. */
  ghost predicate IsSplit(ring: seq<Star>, h: int, at: nat) {
    && at <= |ring|
    && (forall i :: 0 <= i < at ==> ring[i].h4sh <= h)
    && (forall i :: at <= i < |ring| ==> h < ring[i].h4sh)
  }

  ghost function Reverse(s: seq<string>): (r: seq<string>)
    ensures |r| == |s| && forall i :: 0 <= i < |s| ==> r[i] == s[|s| - 1 - i]
  {
    if s == [] then [] else Reverse(s[1..]) + [s[0]]
  }

  /** The owners met from the first star after the key, anticlockwise, once around. */
  ghost function Walk(os: seq<string>, at: nat): (w: seq<string>)
    requires os != [] && at <= |os|
    ensures |w| == |os|
  {
    var index := if at == |os| then 0 else at;
    Reverse(os[..index + 1]) + Reverse(os[index + 1..])
  }

  /** The index of the `x`-th star of the walk around `n` stars; indices below zero count from the end. */
  function StepBack(n: nat, at: nat, x: nat): (i: nat)
    requires x < n && at <= n
    ensures i < n
  {
    var index := if at == n then 0 else at;
    if x <= index then index - x else n + index - x
  }

  lemma WalkAt(os: seq<string>, at: nat, x: nat)
    requires at <= |os| && x < |os|
    ensures Walk(os, at)[x] == os[StepBack(|os|, at, x)]
  {
    var index := if at == |os| then 0 else at;
    var a, b := os[..index + 1], os[index + 1..];
    if x <= index {
      assert Reverse(a)[x] == a[index - x];
    } else {
      assert Reverse(b)[x - index - 1] == b[|b| - 1 - (x - index - 1)];
    }
  }

  lemma WalkIs(ring: seq<Star>, at: nat, x: nat)
    requires at <= |ring| && x < |ring|
    ensures Walk(Owners(ring), at)[x] == ring[StepBack(|ring|, at, x)].node
  {
    WalkAt(Owners(ring), at, x);
  }

  /** The first occurrences, in order. */
  ghost function Dedup(s: seq<string>): seq<string> {
    if s == [] then [] else
      var d := Dedup(s[..|s| - 1]);
      if s[|s| - 1] in d then d else d + [s[|s| - 1]]
  }

  ghost function Candidates(ring: seq<Star>, at: nat): seq<string>
    requires ring != [] && at <= |ring|
  {
    Dedup(Walk(Owners(ring), at))
  }

  /** At most `n` of them; the program takes all when asked for less than one. */
  function FirstOf(s: seq<string>, n: int): seq<string> {
    if 1 <= n <= |s| then s[..n] else s
  }

  lemma DedupNonEmpty(s: seq<string>)
    requires s != []
    ensures Dedup(s) != []
  {
  }

  lemma TakenEnough(s: seq<string>, d: seq<string>, n: int)
    requires s <= d && |s| == n
    ensures s != [] ==> FirstOf(d, n) == s
  {
  }

  /** The nodes found when `x` steps of the walk are done; the first star counts from the start. */
  ghost function Seen(walk: seq<string>, x: nat): seq<string>
    requires 0 < |walk| && x <= |walk|
    ensures Seen(walk, x) != []
  {
    DedupNonEmpty(walk[..if x == 0 then 1 else x]);
    Dedup(walk[..if x == 0 then 1 else x])
  }

  lemma SeenStarts(walk: seq<string>)
    requires 0 < |walk|
    ensures Seen(walk, 0) == Seen(walk, 1) == [walk[0]]
  {
    assert walk[..1] == [] + [walk[0]] == [walk[0]];
    DedupSnoc([], walk[0]);
  }

  lemma SeenIsPrefix(walk: seq<string>, x: nat)
    requires x < |walk|
    ensures Seen(walk, x) <= Dedup(walk)
  {
    DedupPrefix(walk, if x == 0 then 1 else x);
  }

  lemma SeenNext(walk: seq<string>, x: nat)
    requires 0 < x < |walk|
    ensures Seen(walk, x + 1) == if walk[x] in Seen(walk, x) then Seen(walk, x) else Seen(walk, x) + [walk[x]]
  {
    var t := walk[..x];
    assert walk[..x + 1] == t + [walk[x]];
    DedupSnoc(t, walk[x]);
  }

  lemma SeenStep(walk: seq<string>, x: nat)
    requires x < |walk|
    ensures Seen(walk, x + 1) == WithNode(Seen(walk, x), walk[x])
    ensures Seen(walk, x) <= Dedup(walk)
  {
    SeenIsPrefix(walk, x);
    if x == 0 {
      SeenStarts(walk);
    } else {
      SeenNext(walk, x);
    }
  }

  lemma SeenAll(walk: seq<string>)
    requires 0 < |walk|
    ensures Seen(walk, |walk|) == Dedup(walk)
  {
    assert walk[..|walk|] == walk;
  }

  lemma DedupSnoc(t: seq<string>, last: string)
    ensures Dedup(t + [last]) == if last in Dedup(t) then Dedup(t) else Dedup(t) + [last]
  {
    assert (t + [last])[..|t|] == t;
  }

  lemma {:induction false} DedupPrefix(w: seq<string>, x: nat)
    requires x <= |w|
    ensures Dedup(w[..x]) <= Dedup(w)
  {
    if x < |w| {
      DedupPrefix(w[..|w| - 1], x);
      assert w[..|w| - 1][..x] == w[..x];
    } else {
      assert w[..x] == w;
    }
  }

  /** The nodes when all new ones but `left` have been inserted. */
  ghost function Inserted(kept: Weights, more: Weights, left: set<string>): Weights {
    kept + (more - left)
  }

  lemma NoneInserted(kept: Weights, more: Weights)
    ensures Inserted(kept, more, more.Keys) == kept && more.Keys - more.Keys == {}
    ensures Inserted(kept, more, {}) == kept + more && more.Keys - {} == more.Keys
  {
  }

  lemma NextInserted(kept: Weights, more: Weights, left: set<string>, node: string)
    requires kept.Keys !! more.Keys && left <= more.Keys && node in left
    ensures node !in Inserted(kept, more, left)
    ensures Inserted(kept, more, left - {node}) == Inserted(kept, more, left)[node := more[node]]
    ensures var now := Inserted(kept, more, left)[node := more[node]];
      forall n :: n in now ==> n in kept + more && (kept + more)[n] == now[n]
  {
  }

  lemma ReplacedOrNew(before: Weights, more: Weights)
    ensures before - (before.Keys * more.Keys) + more == before + more
  {
  }

  lemma RemoveOneMore(before: Weights, done: set<string>, node: string)
    ensures before - done - {node} == before - (done + {node})
    ensures node !in before - done ==> before - done == before - (done + {node})
    ensures before.Keys * (done + {node}) == before.Keys * done + if node in before then {node} else {}
  {
  }

  /** The stars of `nodes`, without the first `x` stars of `node`. */
  ghost predicate ExactMinus(c: Config, nodes: Weights, node: string, x: nat, ring: seq<Star>) {
    Strict(ring) && forall s :: s in ring <==> c.IsStar(nodes, s) && !c.FirstStars(node, x, s)
  }

  /** The stars of `nodes`, and the first `x` stars of `node`. */
  ghost predicate ExactPlus(c: Config, nodes: Weights, node: string, x: nat, ring: seq<Star>) {
    Strict(ring) && forall s :: s in ring <==> c.IsStar(nodes, s) || c.FirstStars(node, x, s)
  }

  lemma MinusStarts(c: Config, nodes: Weights, node: string, ring: seq<Star>)
    requires Exact(c, nodes, ring)
    ensures ExactMinus(c, nodes, node, 0, ring)
  {
  }

  lemma MinusEnds(c: Config, nodes: Weights, node: string, ring: seq<Star>)
    requires node in nodes && ExactMinus(c, nodes, node, c.Count(nodes[node]), ring)
    ensures Exact(c, nodes - {node}, ring)
  {
    forall s ensures s in ring <==> c.IsStar(nodes - {node}, s) {
      c.StarsOfOther(nodes, node, s);
    }
  }

  lemma PlusStarts(c: Config, nodes: Weights, node: string, ring: seq<Star>)
    requires Exact(c, nodes, ring)
    ensures ExactPlus(c, nodes, node, 0, ring)
  {
  }

  lemma PlusEnds(c: Config, nodes: Weights, node: string, weight: Option<int>, ring: seq<Star>)
    requires node !in nodes && ExactPlus(c, nodes, node, c.Count(weight), ring)
    ensures Exact(c, nodes[node := weight], ring)
  {
    var after := nodes[node := weight];
    assert after - {node} == nodes;
    forall s ensures s in ring <==> c.IsStar(after, s) {
      c.StarsOfOther(after, node, s);
    }
  }

  /** No two stars have the same hash, and they are in order. */
  ghost predicate Strict(ring: seq<Star>) {
    forall i, j :: 0 <= i < j < |ring| ==> ring[i].h4sh < ring[j].h4sh
  }

  lemma InsertedStrict(ring: seq<Star>, s: Star, at: nat)
    requires at <= |ring| && Strict(ring) && forall t :: t in ring ==> t.h4sh != s.h4sh
    requires forall i :: 0 <= i < at ==> ring[i].h4sh <= s.h4sh
    requires forall i :: at <= i < |ring| ==> s.h4sh < ring[i].h4sh
    ensures Strict(ring[..at] + [s] + ring[at..])
  {
    assert forall i :: 0 <= i < |ring| ==> ring[i] in ring;
  }

  lemma RemovedStrict(ring: seq<Star>, at: nat)
    requires at < |ring| && Strict(ring)
    ensures Strict(ring[..at] + ring[at + 1..])
    ensures forall t :: t in ring[..at] + ring[at + 1..] <==> t in ring && t.h4sh != ring[at].h4sh
  {
    var r := ring[..at] + ring[at + 1..];
    forall t | t in ring && t.h4sh != ring[at].h4sh ensures t in r {
      var i :| 0 <= i < |ring| && ring[i] == t;
      assert t == if i < at then r[i] else r[i - 1];
    }
  }

  lemma DistinctSubset(c: Config, nodes: Weights, fewer: Weights)
    requires c.Distinct(nodes) && forall n :: n in fewer ==> n in nodes && fewer[n] == nodes[n]
    ensures c.Distinct(fewer)
  {
  }

  /** With distinct hashes, removing by hash removes the node's own star and no other. */
  lemma RemovedOne(c: Config, nodes: Weights, node: string, x: nat)
    requires c.Distinct(nodes) && node in nodes && x < c.Count(nodes[node])
    ensures forall s :: c.IsStar(nodes, s) && !c.FirstStars(node, x + 1, s) <==>
      c.IsStar(nodes, s) && !c.FirstStars(node, x, s) && s.h4sh != c.hashing.Point(node, x)
  {
    forall s | c.IsStar(nodes, s)
      ensures s == Star(c.hashing.Point(node, x), node) <==> s.h4sh == c.hashing.Point(node, x)
    {
      var y: nat :| y < c.Count(nodes[s.node]) && s.h4sh == c.hashing.Point(s.node, y);
    }
    forall s
      ensures c.FirstStars(node, x + 1, s) <==> c.FirstStars(node, x, s) || s == Star(c.hashing.Point(node, x), node)
    {
      c.FirstStarsStep(node, x, s);
    }
  }

  lemma InsertedOne(c: Config, base: Weights, node: string, weight: Option<int>, x: nat)
    requires c.Distinct(base[node := weight]) && node !in base && x < c.Count(weight)
    ensures forall s :: c.IsStar(base, s) || c.FirstStars(node, x, s) ==> s.h4sh != c.hashing.Point(node, x)
    ensures forall s :: c.IsStar(base, s) || c.FirstStars(node, x + 1, s) <==>
      c.IsStar(base, s) || c.FirstStars(node, x, s) || s == Star(c.hashing.Point(node, x), node)
  {
    var after := base[node := weight];
    forall s | c.IsStar(base, s) || c.FirstStars(node, x, s) ensures s.h4sh != c.hashing.Point(node, x) {
      if c.IsStar(base, s) {
        var y: nat :| y < c.Count(base[s.node]) && s.h4sh == c.hashing.Point(s.node, y);
        assert s.node in after && after[s.node] == base[s.node];
      } else {
        var y: nat :| y < x && s.h4sh == c.hashing.Point(node, y);
      }
    }
    forall s
      ensures c.FirstStars(node, x + 1, s) <==> c.FirstStars(node, x, s) || s == Star(c.hashing.Point(node, x), node)
    {
      c.FirstStarsStep(node, x, s);
    }
  }

  // ---------------------------------------------------------------- the replicas of a key

  ghost predicate NoRepeats(s: seq<string>) {
    forall i, j :: 0 <= i < j < |s| ==> s[i] != s[j]
  }

  lemma {:induction false} DedupIsDistinct(s: seq<string>)
    ensures NoRepeats(Dedup(s)) && forall e :: e in Dedup(s) <==> e in s
  {
    if s == [] {
    } else {
      DedupIsDistinct(s[..|s| - 1]);
      assert s == s[..|s| - 1] + [s[|s| - 1]];
    }
  }

  ghost function OwnersOf(ring: seq<Star>): set<string> {
    set s | s in ring :: s.node
  }

  lemma {:induction false} NoRepeatsCount(s: seq<string>, e: set<string>)
    requires NoRepeats(s) && forall x :: x in s <==> x in e
    ensures |s| == |e|
  {
    if s == [] {
      assert e == {};
    } else {
      var last := s[|s| - 1];
      var t := s[..|s| - 1];
      assert s == t + [last];
      NoRepeatsCount(t, e - {last});
    }
  }

  lemma WalkVisitsAll(os: seq<string>, at: nat)
    requires os != [] && at <= |os|
    ensures forall e :: e in Walk(os, at) <==> e in os
  {
    var index := if at == |os| then 0 else at;
    var a, b := os[..index + 1], os[index + 1..];
    assert os == a + b;
    ReverseSame(a);
    ReverseSame(b);
  }

  lemma {:induction false} ReverseSame(s: seq<string>)
    ensures forall e :: e in Reverse(s) <==> e in s
  {
    if s == [] {
    } else {
      ReverseSame(s[1..]);
      assert s == [s[0]] + s[1..];
    }
  }

  /** A key is served by distinct nodes, as many as asked for or as there are. */
  lemma ReplicaCount(ring: seq<Star>, at: nat, replicas: int)
    requires ring != [] && at <= |ring| && replicas >= 1
    ensures var r := FirstOf(Candidates(ring, at), replicas);
      && NoRepeats(r)
      && (forall n :: n in r ==> n in OwnersOf(ring))
      && |r| == if replicas < |OwnersOf(ring)| then replicas else |OwnersOf(ring)|
  {
    var os := Owners(ring);
    var d := Candidates(ring, at);
    WalkVisitsAll(os, at);
    DedupIsDistinct(Walk(os, at));
    forall e ensures e in d <==> e in OwnersOf(ring) {
      if e in d {
        var i :| 0 <= i < |os| && os[i] == e;
        assert ring[i] in ring;
      }
      if e in OwnersOf(ring) {
        var s :| s in ring && s.node == e;
        var i :| 0 <= i < |ring| && ring[i] == s;
        assert os[i] == e;
      }
    }
    NoRepeatsCount(d, OwnersOf(ring));
  }

  // ---------------------------------------------------------------- leaving one node out

  ghost function Filter(s: seq<string>, n: string): seq<string> {
    if s == [] then [] else Filter(s[..|s| - 1], n) + if s[|s| - 1] == n then [] else [s[|s| - 1]]
  }

  lemma {:induction false} FilterConcat(a: seq<string>, b: seq<string>, n: string)
    ensures Filter(a + b, n) == Filter(a, n) + Filter(b, n)
  {
    if b == [] {
      assert a + b == a;
    } else {
      assert (a + b)[..|a + b| - 1] == a + b[..|b| - 1];
      FilterConcat(a, b[..|b| - 1], n);
    }
  }

  lemma FilterOne(x: string, n: string)
    ensures Filter([x], n) == if x == n then [] else [x]
  {
    assert [x][..0] == [];
  }

  lemma FilterCons(x: string, s: seq<string>, n: string)
    ensures Filter([x] + s, n) == if x == n then Filter(s, n) else [x] + Filter(s, n)
  {
    FilterConcat([x], s, n);
    FilterOne(x, n);
  }

  lemma {:induction false} FilterReverse(s: seq<string>, n: string)
    ensures Filter(Reverse(s), n) == Reverse(Filter(s, n))
  {
    if s == [] {
    } else {
      var x, t := s[0], s[1..];
      FilterReverse(t, n);
      FilterSnoc(Reverse(t), x, n);
      assert s == [x] + t;
      FilterCons(x, t, n);
      ReverseCons(x, Filter(t, n));
    }
  }

  lemma ReverseCons(x: string, s: seq<string>)
    ensures Reverse([x] + s) == Reverse(s) + [x]
  {
  }

  lemma {:induction false} FilterElements(s: seq<string>, n: string)
    ensures forall e :: e in Filter(s, n) <==> e in s && e != n
    ensures |Filter(s, n)| <= |s|
    ensures n !in s ==> Filter(s, n) == s
  {
    if s == [] {
    } else {
      FilterElements(s[..|s| - 1], n);
      assert s == s[..|s| - 1] + [s[|s| - 1]];
    }
  }

  lemma FilterSnoc(t: seq<string>, last: string, n: string)
    ensures Filter(t + [last], n) == if last == n then Filter(t, n) else Filter(t, n) + [last]
  {
    assert (t + [last])[..|t|] == t;
  }

  lemma {:induction false} DedupFilter(s: seq<string>, n: string)
    ensures Dedup(Filter(s, n)) == Filter(Dedup(s), n)
  {
    if s == [] {
    } else {
      var t, last := s[..|s| - 1], s[|s| - 1];
      assert s == t + [last];
      DedupFilter(t, n);
      FilterSnoc(t, last, n);
      DedupSnoc(t, last);
      DedupSnoc(Filter(t, n), last);
      FilterSnoc(Dedup(t), last, n);
      FilterElements(Dedup(t), n);
    }
  }

  /** Leaving out a node only brings other candidates forward. */
  lemma FilterPrefix(d: seq<string>, n: string, r: nat)
    requires r <= |d|
    ensures forall e :: e in d[..r] && e != n ==> e in FirstUpTo(Filter(d, n), r)
  {
    assert d == d[..r] + d[r..];
    FilterConcat(d[..r], d[r..], n);
    FilterElements(d[..r], n);
    forall e | e in Filter(d[..r], n) ensures e in FirstUpTo(Filter(d, n), r) {
      PrefixElement(Filter(d[..r], n), Filter(d, n), r, e);
    }
  }

  lemma PrefixElement(a: seq<string>, b: seq<string>, r: nat, e: string)
    requires a <= b && |a| <= r && e in a
    ensures e in FirstUpTo(b, r)
  {
    var i :| 0 <= i < |a| && a[i] == e;
    assert FirstUpTo(b, r)[i] == e;
  }

  ghost function FirstUpTo(s: seq<string>, r: nat): seq<string> {
    if r <= |s| then s[..r] else s
  }

  /** Without its first element `n`, a list without repeats is the list without `n`. */
  lemma FilterFirst(d: seq<string>, n: string)
    requires NoRepeats(d) && d != [] && d[0] == n
    ensures Filter(d, n) == d[1..]
  {
    assert d == [n] + d[1..];
    FilterConcat([n], d[1..], n);
    FilterOne(n, n);
    FilterElements(d[1..], n);
  }

  lemma {:induction false} DedupFirst(x: string, p: seq<string>)
    ensures Dedup([x] + p) == [x] + Filter(Dedup(p), x)
  {
    if p == [] {
      assert [x] + p == [] + [x];
      DedupSnoc([], x);
    } else {
      var t, last := p[..|p| - 1], p[|p| - 1];
      assert p == t + [last] && [x] + p == ([x] + t) + [last];
      DedupFirst(x, t);
      DedupSnoc([x] + t, last);
      DedupFirstSnoc(x, t, last);
    }
  }

  lemma DedupFirstSnoc(x: string, t: seq<string>, last: string)
    ensures var d := [x] + Filter(Dedup(t), x);
      [x] + Filter(Dedup(t + [last]), x) == if last in d then d else d + [last]
  {
    DedupSnoc(t, last);
    FilterMore(x, Dedup(t), last);
  }

  lemma FilterMore(x: string, d: seq<string>, last: string)
    ensures var f := [x] + Filter(d, x);
      [x] + Filter(if last in d then d else d + [last], x) == if last in f then f else f + [last]
  {
    FilterSnoc(d, last, x);
    FilterElements(d, x);
    assert last in [x] + Filter(d, x) <==> last == x || last in Filter(d, x);
    if last !in d && last != x {
      assert ([x] + Filter(d, x)) + [last] == [x] + (Filter(d, x) + [last]);
    }
  }

  /** Moving the start of a walk to its end costs at most one place. */
  lemma RotationCostsOne(x: string, p: seq<string>, r: nat)
    requires r >= 1
    ensures forall e :: e in FirstUpTo(Dedup(p + [x]), r - 1) ==> e in FirstUpTo(Dedup([x] + p), r)
  {
    DedupFirst(x, p);
    DedupSnoc(p, x);
    var d := Dedup(p);
    var n := if r - 1 <= |d| then r - 1 else |d|;
    FilterPrefix(d, x, n);
    forall e | e in FirstUpTo(Dedup(p + [x]), r - 1) ensures e in FirstUpTo(Dedup([x] + p), r) {
      if e == x {
        assert FirstUpTo(Dedup([x] + p), r)[0] == x;
      } else {
        assert e in d[..n];
        BehindFirst(x, Filter(d, x), n, r, e);
      }
    }
  }

  lemma BehindFirst(x: string, f: seq<string>, n: nat, r: nat, e: string)
    requires n < r && e in FirstUpTo(f, n)
    ensures e in FirstUpTo([x] + f, r)
  {
    var i :| 0 <= i < |FirstUpTo(f, n)| && FirstUpTo(f, n)[i] == e;
    assert FirstUpTo([x] + f, r)[i + 1] == e;
  }

  /**
   The walk over a ring with node `n`, without `n`, is the walk over the ring without `n`, or that
   walk with its first star moved to the end when the walk starts at one of the stars of `n`.
   */
  lemma WalkWithout(os: seq<string>, at: nat, n: string)
    requires at <= |os| && Filter(os, n) != []
    ensures var fewer, at' := Filter(os, n), |Filter(os[..at], n)|;
      && at' <= |fewer|
      && var w, v := Walk(os, at), Walk(fewer, at');
        if w[0] != n then Filter(w, n) == v else Filter(w, n) == v[1..] + [v[0]]
  {
    var index := if at == |os| then 0 else at;
    var a, s, b := os[..index], os[index], os[index + 1..];
    assert os == a + [s] + b;
    WalkFrom(a, s, b, at);
    FilteredWalk(a, s, b, n);
    ReverseSnoc(a, s);
    FilterSnoc(a, s, n);
    if s != n {
      WalkWithoutOther(a, s, b, at, n);
    } else {
      WalkWithoutFirst(a, b, at, n);
    }
  }

  /** A walk that starts after `a`; from the end of the ring it starts at the beginning. */
  ghost predicate StartsAfter(a: seq<string>, b: seq<string>, at: nat) {
    at == |a| || (a == [] && at == |b| + 1)
  }

  lemma WalkFrom(a: seq<string>, s: string, b: seq<string>, at: nat)
    requires StartsAfter(a, b, at)
    ensures at <= |a + [s] + b| && Walk(a + [s] + b, at) == Reverse(a + [s]) + Reverse(b)
  {
    var os := a + [s] + b;
    assert os[..|a| + 1] == a + [s] && os[|a| + 1..] == b;
  }

  lemma FilteredWalk(a: seq<string>, s: string, b: seq<string>, n: string)
    ensures Filter(Reverse(a + [s]) + Reverse(b), n) == Reverse(Filter(a + [s], n)) + Reverse(Filter(b, n))
  {
    FilterConcat(Reverse(a + [s]), Reverse(b), n);
    FilterReverse(a + [s], n);
    FilterReverse(b, n);
  }

  lemma FilteredParts(a: seq<string>, s: string, b: seq<string>, at: nat, n: string)
    requires StartsAfter(a, b, at)
    ensures Filter(a + [s] + b, n) == Filter(a, n) + (if s == n then [] else [s]) + Filter(b, n)
    ensures Filter((a + [s] + b)[..at], n) == if at == |a| then Filter(a, n) else Filter(a + [s] + b, n)
  {
    FilterConcat(a + [s], b, n);
    FilterSnoc(a, s, n);
    assert (a + [s] + b)[..at] == if at == |a| then a else a + [s] + b;
  }

  lemma WalkWithoutOther(a: seq<string>, s: string, b: seq<string>, at: nat, n: string)
    requires StartsAfter(a, b, at) && s != n
    ensures var fewer, at' := Filter(a + [s] + b, n), |Filter((a + [s] + b)[..at], n)|;
      fewer != [] && at' <= |fewer| && Walk(fewer, at') == Reverse(Filter(a, n) + [s]) + Reverse(Filter(b, n))
  {
    FilteredParts(a, s, b, at, n);
    WalkFrom(Filter(a, n), s, Filter(b, n), if at == |a| then |Filter(a, n)| else |Filter(b, n)| + 1);
  }

  /** Going round from the star after `a`, or from the first star when the walk starts at the end. */
  lemma RotateFrom(a: seq<string>, b: seq<string>, at: nat, all: seq<string>)
    requires all == a + b && all != [] && (at == |a| || (a == [] && at == |all|))
    ensures at <= |all| && var v := Walk(all, at); v[1..] + [v[0]] == Reverse(a) + Reverse(b)
  {
    if at == |a| && b != [] {
      RotateWalk(a, b);
    } else {
      RotateOne(a, b, at == |a|);
    }
  }

  lemma WalkWithoutFirst(a: seq<string>, b: seq<string>, at: nat, n: string)
    requires StartsAfter(a, b, at) && Filter(a + [n] + b, n) != []
    ensures var fewer, at' := Filter(a + [n] + b, n), |Filter((a + [n] + b)[..at], n)|;
      at' <= |fewer| && var v := Walk(fewer, at'); v[1..] + [v[0]] == Reverse(Filter(a, n)) + Reverse(Filter(b, n))
  {
    FilteredParts(a, n, b, at, n);
    var fa, fb, fewer := Filter(a, n), Filter(b, n), Filter(a + [n] + b, n);
    assert fewer == fa + fb;
    RotateFrom(fa, fb, if at == |a| then |fa| else |fewer|, fewer);
  }

  lemma ReverseSnoc(a: seq<string>, s: string)
    ensures Reverse(a + [s]) == [s] + Reverse(a)
  {
  }

  /** Going round from the star after `a`, which is the first of `b`, against going round from `a`. */
  lemma RotateWalk(a: seq<string>, b: seq<string>)
    requires b != []
    ensures var v := Walk(a + b, |a|); v[1..] + [v[0]] == Reverse(a) + Reverse(b)
  {
    var x, t := b[0], b[1..];
    assert b == [x] + t && a + b == a + [x] + t;
    WalkFrom(a, x, t, |a|);
    ReverseSnoc(a, x);
    ReverseCons(x, t);
    MoveFirst(x, Reverse(a), Reverse(t));
  }

  /** When one side is empty, or the walk starts at the end, it goes round from the first star. */
  lemma RotateOne(a: seq<string>, b: seq<string>, atA: bool)
    requires a + b != [] && if atA then b == [] else a == []
    ensures var v := Walk(a + b, if atA then |a| else |b|); v[1..] + [v[0]] == Reverse(a) + Reverse(b)
  {
    var s := if atA then a else b;
    assert a + b == s == [] + s;
    RotateWalk([], s);
    assert Walk(s, |s|) == Walk(s, 0);
  }

  lemma MoveFirst(x: string, p: seq<string>, q: seq<string>)
    ensures var v := ([x] + p) + q; v[1..] + [v[0]] == p + (q + [x])
  {
  }

  lemma ReplicasWithoutOther(d: seq<string>, n: string, r: nat)
    requires r >= 1
    ensures forall e :: e in FirstUpTo(d, r) && e != n ==> e in FirstUpTo(Filter(d, n), r)
  {
    var m := if r <= |d| then r else |d|;
    FilterPrefix(d, n, m);
    forall e | e in FirstUpTo(d, r) && e != n ensures e in FirstUpTo(Filter(d, n), r) {
      FirstUpToMonotonic(Filter(d, n), m, r, e);
    }
  }

  lemma FirstIsNode(d: seq<string>, n: string, r: nat, e: string)
    requires r >= 1 && d != [] && d[0] == n && e in FirstUpTo(d, r) && e != n
    ensures e in FirstUpTo(d[1..], r - 1)
  {
    var i :| 0 <= i < |FirstUpTo(d, r)| && d[i] == e;
    assert FirstUpTo(d[1..], r - 1)[i - 1] == e;
  }

  /** Leaving node `n` out of the walk leaves every other replica among the replicas. */
  lemma ReplicasWithout(os: seq<string>, at: nat, n: string, r: nat)
    requires at <= |os| && Filter(os, n) != [] && r >= 1
    ensures var fewer, at' := Filter(os, n), |Filter(os[..at], n)|;
      && at' <= |fewer|
      && forall e :: e in FirstUpTo(Dedup(Walk(os, at)), r) && e != n ==> e in FirstUpTo(Dedup(Walk(fewer, at')), r)
  {
    var fewer, at' := Filter(os, n), |Filter(os[..at], n)|;
    WalkWithout(os, at, n);
    var w, v := Walk(os, at), Walk(fewer, at');
    DedupFilter(w, n);
    if w[0] != n {
      ReplicasWithoutOther(Dedup(w), n, r);
    } else {
      ReplicasWithoutFirst(w, v, n, r);
    }
  }

  /** Without the node it starts with, the walk meets the others in the same order. */
  lemma DedupWithoutFirst(w: seq<string>, n: string)
    requires w != [] && w[0] == n
    ensures Dedup(w) != [] && Dedup(w)[0] == n && Dedup(Filter(w, n)) == Dedup(w)[1..]
  {
    assert w == [n] + w[1..];
    DedupFilter(w, n);
    DedupIsDistinct(w);
    DedupFirst(n, w[1..]);
    FilterFirst(Dedup(w), n);
  }

  lemma ReplicasWithoutFirst(w: seq<string>, v: seq<string>, n: string, r: nat)
    requires w != [] && w[0] == n && v != [] && Filter(w, n) == v[1..] + [v[0]] && r >= 1
    ensures forall e :: e in FirstUpTo(Dedup(w), r) && e != n ==> e in FirstUpTo(Dedup(v), r)
  {
    var d := Dedup(w);
    DedupWithoutFirst(w, n);
    assert v == [v[0]] + v[1..];
    RotationCostsOne(v[0], v[1..], r);
    forall e | e in FirstUpTo(d, r) && e != n ensures e in FirstUpTo(Dedup(v), r) {
      FirstIsNode(d, n, r, e);
    }
  }

  lemma FirstUpToMonotonic(s: seq<string>, r: nat, q: nat, e: string)
    requires r <= q && e in FirstUpTo(s, r)
    ensures e in FirstUpTo(s, q)
  {
    var i :| 0 <= i < |FirstUpTo(s, r)| && FirstUpTo(s, r)[i] == e;
    assert FirstUpTo(s, q)[i] == e;
  }

  // ---------------------------------------------------------------- minimal disruption

  /** The ring of a cluster without node `n`. */
  ghost function RingWithout(ring: seq<Star>, n: string): seq<Star> {
    if ring == [] then [] else
      RingWithout(ring[..|ring| - 1], n) + if ring[|ring| - 1].node == n then [] else [ring[|ring| - 1]]
  }

  lemma {:induction false} RingWithoutElements(ring: seq<Star>, n: string)
    requires Strict(ring)
    ensures Strict(RingWithout(ring, n))
    ensures forall s :: s in RingWithout(ring, n) <==> s in ring && s.node != n
  {
    if ring == [] {
    } else {
      var t, last := ring[..|ring| - 1], ring[|ring| - 1];
      assert ring == t + [last];
      RingWithoutElements(t, n);
      RingWithoutSnoc(t, last, n);
      StrictSnoc(t, RingWithout(t, n), last);
    }
  }

  /** Leaving stars out keeps the order, and the last star can be put back. */
  lemma StrictSnoc(t: seq<Star>, fewer: seq<Star>, last: Star)
    requires Strict(t + [last]) && Strict(fewer) && forall s :: s in fewer ==> s in t
    ensures Strict(fewer + [last])
  {
    forall i | 0 <= i < |fewer| ensures fewer[i].h4sh < last.h4sh {
      assert fewer[i] in t;
      var j :| 0 <= j < |t| && t[j] == fewer[i];
      assert (t + [last])[j] == t[j] && (t + [last])[|t|] == last;
    }
  }

  lemma {:induction false} OwnersWithout(ring: seq<Star>, n: string)
    ensures Owners(RingWithout(ring, n)) == Filter(Owners(ring), n)
  {
    if ring == [] {
    } else {
      var t, last := ring[..|ring| - 1], ring[|ring| - 1];
      OwnersWithout(t, n);
      assert ring == t + [last];
      assert Owners(ring) == Owners(t) + [last.node];
      FilterSnoc(Owners(t), last.node, n);
      OwnersConcat(RingWithout(t, n), if last.node == n then [] else [last]);
    }
  }

  lemma OwnersConcat(a: seq<Star>, b: seq<Star>)
    ensures Owners(a + b) == Owners(a) + Owners(b)
  {
  }

  lemma SplitOfInit(t: seq<Star>, last: Star, h: int, at: nat)
    requires IsSplit(t + [last], h, at)
    ensures IsSplit(t, h, if at == |t| + 1 then |t| else at)
  {
    assert forall i :: 0 <= i < |t| ==> (t + [last])[i] == t[i];
  }

  lemma SplitSnoc(t: seq<Star>, last: Star, h: int, at: nat)
    requires IsSplit(t, h, at) && (last.h4sh <= h ==> at == |t|)
    ensures IsSplit(t + [last], h, if last.h4sh <= h then at + 1 else at)
  {}

  ghost function OwnersTaken(ring: seq<Star>, at: nat, n: string): seq<string>
    requires at <= |ring|
  {
    Filter(Owners(ring)[..at], n)
  }

  lemma OwnersTakenSnoc(t: seq<Star>, last: Star, at: nat, n: string)
    requires at <= |t| + 1
    ensures OwnersTaken(t + [last], at, n) ==
      if at <= |t| then OwnersTaken(t, at, n) else OwnersTaken(t, |t|, n) + if last.node == n then [] else [last.node]
  {
    OwnersConcat(t, [last]);
    if at <= |t| {
      assert Owners(t + [last])[..at] == Owners(t)[..at];
    } else {
      assert Owners(t + [last])[..at] == Owners(t) + [last.node] && Owners(t)[..|t|] == Owners(t);
      FilterSnoc(Owners(t), last.node, n);
    }
  }

  lemma RingWithoutSnoc(t: seq<Star>, last: Star, n: string)
    ensures RingWithout(t + [last], n) == if last.node == n then RingWithout(t, n) else RingWithout(t, n) + [last]
  {
    assert (t + [last])[..|t|] == t;
  }

  lemma {:induction false} SplitWithout(ring: seq<Star>, h: int, at: nat, n: string)
    requires Strict(ring) && IsSplit(ring, h, at)
    ensures IsSplit(RingWithout(ring, n), h, |Filter(Owners(ring)[..at], n)|)
  {
    if ring == [] {
    } else {
      var t, last := ring[..|ring| - 1], ring[|ring| - 1];
      assert ring == t + [last];
      SplitOfInit(t, last, h, at);
      SplitWithout(t, h, if at == |t| + 1 then |t| else at, n);
      SplitWithoutSnoc(t, last, h, at, n);
    }
  }

  /** The last star is taken in again, unless it is one of those to leave out. */
  lemma SplitWithoutSnoc(t: seq<Star>, last: Star, h: int, at: nat, n: string)
    requires IsSplit(t + [last], h, at)
    requires var at' := if at == |t| + 1 then |t| else at; IsSplit(RingWithout(t, n), h, |OwnersTaken(t, at', n)|)
    ensures IsSplit(RingWithout(t + [last], n), h, |OwnersTaken(t + [last], at, n)|)
  {
    OwnersTakenSnoc(t, last, at, n);
    RingWithoutSnoc(t, last, n);
    SplitTells(t + [last], h, at, |t|);
    if last.node != n {
      if at == |t| + 1 {
        OwnersWithout(t, n);
        assert Owners(t)[..|t|] == Owners(t);
      }
      SplitSnoc(RingWithout(t, n), last, h, |OwnersTaken(t, if at == |t| + 1 then |t| else at, n)|);
    }
  }

  lemma SplitIsFirst(ring: seq<Star>, h: int, a: nat, b: nat)
    requires IsSplit(ring, h, a) && IsSplit(ring, h, b)
    ensures a >= b
  {
    if a < b {
      SplitTells(ring, h, a, a);
    }
  }

  lemma SplitTells(ring: seq<Star>, h: int, at: nat, i: nat)
    requires IsSplit(ring, h, at) && i < |ring|
    ensures i < at <==> ring[i].h4sh <= h
  {}

  lemma SplitIsUnique(ring: seq<Star>, h: int, a: nat, b: nat)
    requires IsSplit(ring, h, a) && IsSplit(ring, h, b)
    ensures a == b
  {
    SplitIsFirst(ring, h, a, b);
    SplitIsFirst(ring, h, b, a);
  }

  lemma SmallIsLargeWithout(c: Config, nodes: Weights, n: string, weight: Option<int>, small: seq<Star>,
                            large: seq<Star>)
    requires n !in nodes && Exact(c, nodes, small) && Exact(c, nodes[n := weight], large)
    ensures small == RingWithout(large, n)
  {
    var more := nodes[n := weight];
    assert more - {n} == nodes;
    RingWithoutElements(large, n);
    forall s ensures s in small <==> s in RingWithout(large, n) {
      c.StarsOfOther(more, n, s);
      assert s in large <==> c.IsStar(more, s);
      assert s in small <==> c.IsStar(nodes, s);
    }
    StrictlySortedUnique(small, RingWithout(large, n));
  }

  lemma ReplicasOnRings(small: seq<Star>, large: seq<Star>, n: string, h: int, at: nat, at': nat, replicas: int)
    requires Strict(large) && small == RingWithout(large, n) && small != []
    requires IsSplit(small, h, at) && IsSplit(large, h, at') && replicas >= 1
    ensures large != []
    ensures forall e :: e in FirstOf(Candidates(large, at'), replicas) && e != n ==>
      e in FirstOf(Candidates(small, at), replicas)
  {
    OwnersWithout(large, n);
    SplitWithout(large, h, at', n);
    SplitIsUnique(small, h, at, |Filter(Owners(large)[..at'], n)|);
    var os, fewer := Owners(large), Owners(small);
    ReplicasWithout(os, at', n, replicas);
    assert large != [];
    SameFirst(Dedup(Walk(os, at')), replicas);
    SameFirst(Dedup(Walk(fewer, at)), replicas);
  }

  lemma SameFirst(s: seq<string>, n: int)
    requires n >= 1
    ensures FirstOf(s, n) == FirstUpTo(s, n)
  {
  }

  /**
   Minimal disruption, for adding node `n` to `nodes` and for removing it again: every node other
   than `n` that serves a key in the larger cluster serves it in the smaller one too.
   */
  lemma MinimalDisruption(c: Config, nodes: Weights, n: string, weight: Option<int>, small: seq<Star>, large: seq<Star>,
                          h: int, at: nat, at': nat, replicas: int)
    requires n !in nodes
    requires Exact(c, nodes, small) && Exact(c, nodes[n := weight], large)
    requires small != [] && IsSplit(small, h, at) && IsSplit(large, h, at') && replicas >= 1
    ensures large != []
    ensures forall e :: e in FirstOf(Candidates(large, at'), replicas) && e != n ==>
      e in FirstOf(Candidates(small, at), replicas)
  {
    SmallIsLargeWithout(c, nodes, n, weight, small, large);
    ReplicasOnRings(small, large, n, h, at, at', replicas);
  }

  // ---------------------------------------------------------------- stars of the same hash

  lemma {:induction false} HitsIfStar(c: Config, node: string, n: nat, h: int)
    ensures c.Hits(node, n, h) > 0 <==> exists x: nat :: x < n && c.hashing.Point(node, x) == h
  {
    if n == 0 {
    } else {
      HitsIfStar(c, node, n - 1, h);
      if exists x: nat :: x < n && c.hashing.Point(node, x) == h {
        var x: nat :| x < n && c.hashing.Point(node, x) == h;
        if x < n - 1 {
          assert exists y: nat :: y < n - 1 && c.hashing.Point(node, y) == h;
        }
      }
    }
  }

  /** No hash is shared by stars of two nodes. */
  ghost predicate Apart(c: Config, nodes: Weights) {
    forall n, m, h {:trigger StarAt(c, nodes, n, h), StarAt(c, nodes, m, h)} ::
      StarAt(c, nodes, n, h) && StarAt(c, nodes, m, h) ==> n == m
  }

  ghost predicate StarAt(c: Config, nodes: Weights, n: string, h: int) {
    n in nodes && c.Hits(n, c.Count(nodes[n]), h) > 0
  }

  /** The only node with stars at a hash owns all of them. */
  lemma {:induction false} CameAlone(c: Config, nodes: Weights, order: seq<string>, h: int, n: string)
    requires NoRepeats(order) && forall m :: m in order ==> m in nodes && (StarAt(c, nodes, m, h) ==> m == n)
    ensures c.Came([], nodes, order, h) == if n in order then Times(n, c.Hits(n, c.Count(nodes[n]), h)) else []
  {
    if order == [] {
    } else {
      var front, last := order[..|order| - 1], order[|order| - 1];
      assert order == front + [last];
      CameAlone(c, nodes, front, h, n);
      assert !StarAt(c, nodes, last, h) || last == n;
      if last == n {
        LastNotBefore(order);
      }
    }
  }

  lemma LastNotBefore(order: seq<string>)
    requires NoRepeats(order) && order != []
    ensures order[|order| - 1] !in order[..|order| - 1]
  {
    var front := order[..|order| - 1];
    forall i | 0 <= i < |front| ensures front[i] != order[|order| - 1] {
      assert front[i] == order[i];
    }
  }

  lemma CameTogether(c: Config, nodes: Weights, a: seq<string>, b: seq<string>, h: int)
    requires Apart(c, nodes) && Listing(a, nodes.Keys) && Listing(b, nodes.Keys)
    ensures c.Came([], nodes, a, h) == c.Came([], nodes, b, h)
  {
    var n: string :| (exists m :: StarAt(c, nodes, m, h)) ==> StarAt(c, nodes, n, h);
    CameAlone(c, nodes, a, h, n);
    CameAlone(c, nodes, b, h, n);
  }

  /** Where no two nodes share a hash, the order in which nodes come does not matter. */
  lemma ApartIsReproducible(c: Config, nodes: Weights, a: seq<string>, b: seq<string>, ringA: seq<Star>,
                            ringB: seq<Star>)
    requires Apart(c, nodes) && c.Laid(nodes, a, ringA) && c.Laid(nodes, b, ringB)
    ensures ringA == ringB
  {
    forall h {:trigger OwnersAt(ringA, h)} ensures OwnersAt(ringA, h) == OwnersAt(ringB, h) {
      CameTogether(c, nodes, a, b, h);
    }
    OwnersDetermine(ringA, ringB);
  }

  lemma {:induction false} CameFirst(c: Config, nodes: Weights, n: string, order: seq<string>, h: int)
    requires StarAt(c, nodes, n, h) && forall m :: m in [n] + order ==> m in nodes
    ensures var os := c.Came([], nodes, [n] + order, h); os != [] && os[0] == n
  {
    if order == [] {
      assert [n] + order == [n];
      c.OneInOrder([], nodes, n, h);
    } else {
      assert ([n] + order)[..|order|] == [n] + order[..|order| - 1];
      CameFirst(c, nodes, n, order[..|order| - 1], h);
    }
  }

  /** Where two nodes share a hash, whoever comes first is first. */
  lemma SharedIsFirstCome(c: Config, nodes: Weights, n: string, m: string, a: seq<string>, b: seq<string>, h: int,
                          ringA: seq<Star>, ringB: seq<Star>)
    requires n != m && StarAt(c, nodes, n, h) && StarAt(c, nodes, m, h)
    requires c.Laid(nodes, [n] + a, ringA) && c.Laid(nodes, [m] + b, ringB)
    ensures ringA != ringB
  {
    CameFirst(c, nodes, n, a, h);
    CameFirst(c, nodes, m, b, h);
    assert OwnersAt(ringA, h)[0] == n && OwnersAt(ringB, h)[0] == m;
  }

  lemma {:induction false} OwnersAtOwner(ring: seq<Star>, h: int, node: string)
    requires node in OwnersAt(ring, h)
    ensures Star(h, node) in ring
  {
    if ring == [] {
    } else {
      var t := ring[..|ring| - 1];
      LastOwner(ring, h);
      if node in OwnersAt(t, h) {
        OwnersAtOwner(t, h, node);
      }
      assert ring == t + [ring[|ring| - 1]];
    }
  }

  /** Some of the first `n` stars of the node fall on the hash of a star of the ring. */
  ghost predicate Clash(c: Config, ring: seq<Star>, node: string, n: nat) {
    exists h :: c.Hits(node, n, h) > 0 && OwnersAt(ring, h) != []
  }

  /**
   Adding a node and removing it again gives the ring back exactly when none of its stars falls on
   a star that was there: the removal takes the first star of each hash, whoever owns it.
   */
  lemma RemovalUndoesAddition(c: Config, node: string, n: nat, was: seq<Star>, more: seq<Star>, back: seq<Star>)
    requires SortedRing(was) && SortedRing(back) && node !in OwnersOf(was)
    requires c.JoinedStars(was, node, n, more) && c.TakenStars(more, node, n, back)
    ensures back == was <==> !Clash(c, was, node, n)
  {
    if Clash(c, was, node, n) {
      var h :| c.Hits(node, n, h) > 0 && OwnersAt(was, h) != [];
      var os, k := OwnersAt(was, h), c.Hits(node, n, h);
      assert OwnersAt(more, h) == os + Times(node, k) && OwnersAt(back, h) == Drop(os + Times(node, k), k);
      LastStays(os, node, k);
      if node in os {
        OwnersAtOwner(was, h, node);
      }
    } else {
      forall h {:trigger OwnersAt(back, h)} ensures OwnersAt(back, h) == OwnersAt(was, h) {
        assert OwnersAt(more, h) == OwnersAt(was, h) + Times(node, c.Hits(node, n, h));
      }
      OwnersDetermine(back, was);
    }
  }

  lemma LastStays(os: seq<string>, node: string, k: nat)
    requires os != [] && k > 0
    ensures node in Drop(os + Times(node, k), k)
  {
    var all := os + Times(node, k);
    assert all[|all| - 1] == node && Drop(all, k)[|os| - 1] == node;
  }

  /** A node that has left the cluster can keep a star and serve every key, whatever the digest is. */
  method StrayStar(hashing: Hashing) returns (r: ConsistentHashRing)
    ensures fresh(r) && r.Valid() && r.nodes == map["a1" := Some(1)]
    ensures r.ring == [Star(hashing.hash("a10"), "a")]
  {
    var nodes := map["a1" := Some(1)];
    r := new ConsistentHashRing(nodes, Config(hashing, 1, 1), 1);
    ghost var order :| r.config.Laid(nodes, order, r.ring);
    ghost var first := r.ring;
    r.AddNode("a", Some(11));
    ghost var second := r.ring;
    assert r.nodes - {"a"} == nodes;
    r.RemoveNode("a");
    StrayOwners(r.config, order, first, second, r.ring);
  }

  lemma StrayOwners(c: Config, order: seq<string>, first: seq<Star>, second: seq<Star>, ring: seq<Star>)
    requires c.vnodes == 1 && c.Laid(map["a1" := Some(1)], order, first) && SortedRing(ring)
    requires c.JoinedStars(first, "a", 11, second) && c.TakenStars(second, "a", 11, ring)
    ensures ring == [Star(c.hashing.hash("a10"), "a")]
  {
    SingleListing(order, "a1");
    forall h {:trigger OwnersAt(ring, h)} ensures OwnersAt(ring, h) == OwnersAt([Star(c.hashing.hash("a10"), "a")], h) {
      assert OwnersAt(first, h) == c.Came([], map["a1" := Some(1)], ["a1"], h);
      assert OwnersAt(second, h) == OwnersAt(first, h) + Times("a", c.Hits("a", 11, h));
      StrayAt(c, h);
    }
    OwnersDetermine(ring, [Star(c.hashing.hash("a10"), "a")]);
  }

  lemma StrayAt(c: Config, h: int)
    requires c.vnodes == 1
    ensures Drop(c.Came([], map["a1" := Some(1)], ["a1"], h) + Times("a", c.Hits("a", 11, h)), c.Hits("a", 11, h)) ==
            OwnersAt([Star(c.hashing.hash("a10"), "a")], h)
  {
    var nodes: Weights := map["a1" := Some(1)];
    StrayHits(c, h);
    c.OneInOrder([], nodes, "a1", h);
    OwnersAtOne(Star(c.hashing.hash("a10"), "a"), h);
    assert c.Came([], nodes, ["a1"], h) == if h == c.hashing.hash("a10") then ["a1"] else [];
  }

  lemma StrayHits(c: Config, h: int)
    ensures c.Hits("a", 11, c.hashing.hash("a10")) > 0
    ensures c.Hits("a1", 1, h) == if h == c.hashing.hash("a10") then 1 else 0
  {
    assert Decimal(10) == "10" && Decimal(0) == "0";
    assert "a" + "10" == "a10" == "a1" + "0";
    assert c.hashing.Point("a", 10) == c.hashing.hash("a10") == c.hashing.Point("a1", 0);
    HitsIfStar(c, "a", 11, c.hashing.hash("a10"));
    assert c.Hits("a1", 0, h) == 0;
  }

  /** Two rings of the same nodes that differ, as the nodes came in different orders, whatever the digest is. */
  method TwoOrders(hashing: Hashing) returns (r: ConsistentHashRing, s: ConsistentHashRing)
    ensures r.Valid() && s.Valid() && r.config == s.config && r.nodes == s.nodes
    ensures r.nodes == map["a" := Some(11), "a1" := Some(1)]
    ensures r.ring != s.ring
  {
    r := OneAfterAnother(Config(hashing, 1, 1), "a", 11, "a1", 1);
    s := OneAfterAnother(Config(hashing, 1, 1), "a1", 1, "a", 11);
    OrdersDiffer(r.config, r.ring, s.ring);
    EitherOrder("a", Some(11), "a1", Some(1));
  }

  /** The ring of two nodes, the second of which came after the first. */
  ghost predicate InThisOrder(c: Config, ring: seq<Star>, one: string, n: nat, two: string, m: nat) {
    forall h {:trigger OwnersAt(ring, h)} ::
      OwnersAt(ring, h) == Times(one, c.Hits(one, n, h)) + Times(two, c.Hits(two, m, h))
  }

  method OneAfterAnother(config: Config, one: string, n: nat, two: string, m: nat) returns (r: ConsistentHashRing)
    requires one != two && config.vnodes == 1
    ensures fresh(r) && r.Valid() && r.config == config && r.nodes == map[one := Some(n), two := Some(m)]
    ensures InThisOrder(config, r.ring, one, n, two, m)
  {
    r := new ConsistentHashRing(map[], config, 1);
    r.AddNode(one, Some(n));
    r.AddNode(two, Some(m));
  }

  lemma EitherOrder(one: string, n: Option<int>, two: string, m: Option<int>)
    requires one != two
    ensures map[one := n, two := m] == map[two := m, one := n]
  {}

  lemma OrdersDiffer(c: Config, ringA: seq<Star>, ringB: seq<Star>)
    requires InThisOrder(c, ringA, "a", 11, "a1", 1) && InThisOrder(c, ringB, "a1", 1, "a", 11)
    ensures ringA != ringB
  {
    var h := c.hashing.hash("a10");
    StrayHits(c, h);
    assert OwnersAt(ringA, h)[0] == "a" && OwnersAt(ringB, h)[0] == "a1";
  }

  // ---------------------------------------------------------------- when no two stars share a hash

  /** A proper part of a number from its front is a smaller number. */
  lemma {:induction false} FrontOfDecimal(x: nat, front: string, rest: string) returns (v: nat)
    requires Decimal(x) == front + rest && front != [] && rest != []
    ensures front == Decimal(v) && v >= 1 && 10 * v <= x
  {
    v := x / 10;
    if x < 10 {
      ShortDecimal(x);
    } else {
      var most := Decimal(x / 10);
      assert |Decimal(x % 10)| == 1;
      assert |front + rest| == |most| + 1;
      assert most == (front + rest)[..|most|];
      if |rest| == 1 {
        assert (front + rest)[..|front|] == front;
      } else {
        assert (front + rest)[..|most|] == front + rest[..|rest| - 1];
        v := FrontOfDecimal(x / 10, front, rest[..|rest| - 1]);
      }
    }
  }

  lemma {:induction false} DecimalIsInjective(x: nat, y: nat)
    requires Decimal(x) == Decimal(y)
    ensures x == y
  {
    if x < 10 && y < 10 {
    } else if x < 10 {
      LongDecimal(y);
    } else if y < 10 {
      LongDecimal(x);
    } else {
      assert |Decimal(x % 10)| == 1 && |Decimal(y % 10)| == 1;
      assert Decimal(x)[..|Decimal(x)| - 1] == Decimal(x / 10) && Decimal(y)[..|Decimal(y)| - 1] == Decimal(y / 10);
      assert Decimal(x)[|Decimal(x)| - 1..] == Decimal(x % 10) && Decimal(y)[|Decimal(y)| - 1..] == Decimal(y % 10);
      DecimalIsInjective(x / 10, y / 10);
    }
  }

  lemma ShortDecimal(x: nat)
    requires x < 10
    ensures |Decimal(x)| == 1
  {
  }

  lemma LongDecimal(x: nat)
    requires x >= 10
    ensures |Decimal(x)| >= 2
  {
  }

  /** The names of two nodes differ by a number, and the shorter one has a star with that number and a zero. */
  ghost predicate Nested(c: Config, nodes: Weights, n: string, v: nat) {
    && v >= 1 && n in nodes && n + Decimal(v) in nodes
    && c.Count(nodes[n + Decimal(v)]) > 0 && c.Count(nodes[n]) > 10 * v
  }

  /** The longer of two names that give the same string is the shorter one and a number. */
  lemma SameStringIsNested(c: Config, nodes: Weights, n: string, m: string, x: nat, y: nat)
    requires n in nodes && m in nodes && x < c.Count(nodes[n]) && y < c.Count(nodes[m])
    requires n + Decimal(x) == m + Decimal(y) && |n| < |m|
    ensures exists v :: Nested(c, nodes, n, v)
  {
    var all := n + Decimal(x);
    var front := m[|n|..];
    assert all[..|n|] == n && all[..|m|] == m && m == n + front;
    assert Decimal(x) == all[|n|..] == (m + Decimal(y))[|n|..] == front + Decimal(y);
    var v := FrontOfDecimal(x, front, Decimal(y));
    assert Nested(c, nodes, n, v);
  }

  lemma SameStar(n: string, m: string, x: nat, y: nat)
    requires n + Decimal(x) == m + Decimal(y) && |n| == |m|
    ensures n == m && x == y
  {
    assert (n + Decimal(x))[..|n|] == n && (m + Decimal(y))[..|m|] == m;
    assert (n + Decimal(x))[|n|..] == Decimal(x) && (m + Decimal(y))[|m|..] == Decimal(y);
    DecimalIsInjective(x, y);
  }

  lemma DecimalTimesTen(v: nat)
    requires v >= 1
    ensures Decimal(10 * v) == Decimal(v) + Decimal(0)
  {
    assert 10 * v / 10 == v && 10 * v % 10 == 0;
  }

  /**
   With a digest that tells strings apart, the stars of a cluster are distinct exactly when no name
   is another name and a number whose tenfold is the number of a star of that other node.
   */
  lemma DistinctIffNotNested(c: Config, nodes: Weights)
    requires c.hashing.Injective()
    ensures c.Distinct(nodes) <==> forall n, v :: !Nested(c, nodes, n, v)
  {
    if exists n, v: nat :: Nested(c, nodes, n, v) {
      var n, v: nat :| Nested(c, nodes, n, v);
      DecimalTimesTen(v);
      assert n + (Decimal(v) + Decimal(0)) == (n + Decimal(v)) + Decimal(0);
      assert c.hashing.Point(n, 10 * v) == c.hashing.Point(n + Decimal(v), 0);
    }
    if forall n, v :: !Nested(c, nodes, n, v) {
      forall n, m, x: nat, y: nat {:trigger c.hashing.Point(n, x), c.hashing.Point(m, y)} |
        n in nodes && m in nodes && x < c.Count(nodes[n]) && y < c.Count(nodes[m]) &&
        c.hashing.Point(n, x) == c.hashing.Point(m, y)
        ensures n == m && x == y
      {
        if |n| < |m| {
          SameStringIsNested(c, nodes, n, m, x, y);
        } else if |m| < |n| {
          SameStringIsNested(c, nodes, m, n, y, x);
        } else {
          SameStar(n, m, x, y);
        }
      }
    }
  }
}
