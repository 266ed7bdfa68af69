/**
 What the nodes of a structured hash tree hold, as a map from node key to node record, and
 what it means for such a map to be a consistent hash tree.

 Hashes are terms, so two digests are equal exactly when the hashed contents are: the
 program hashes with SHA-256 and concatenates digests of fixed width.
 */
module TreeStore {
  import opened Keys

  /** JSON values; a digest is written as its own (hexadecimal) text. */
  datatype Json =
    | Null
    | Bool(b: bool)
    | Num(n: int)
    | Str(s: string)
    | Arr(items: seq<Json>)
    | Obj(fields: map<string, Json>)
    | Hex(digest: Digest)

  type Attrs = map<string, Json>

  datatype Digest =
    | AttrHash(key: Key, dummy: bool, attrs: Attrs)
    | NodeHash(partial: Digest, children: seq<Digest>)
    | KeyHash(key: Key)

  /** The fields of one node object; children are given by their keys. */
  datatype Rec = Rec(partial: Digest, full: Option<Digest>, dummy: bool, error: bool, meta: Attrs, kids: seq<Key>)

  type Store = map<Key, Rec>

  /** What a node means to the users of the tree. */
  datatype Val = Val(dummy: bool, attrs: Attrs, error: bool, meta: Attrs)

  type View = map<Key, Val>

  function PlaceholderVal(): Val {
    Val(true, map[], false, map[])
  }

  /** The node that stands for a key on the way to an added one. */
  function Placeholder(k: Key): Rec {
    var h := AttrHash(k, true, map[]);
    Rec(h, Some(h), true, false, map[], [])
  }

  function ValOf(r: Rec): Val {
    Val(r.dummy, if r.partial.AttrHash? then r.partial.attrs else map[], r.error, r.meta)
  }

  ghost function ViewOf(s: Store): View {
    map k | k in s :: ValOf(s[k])
  }

  // ---------------------------------------------------------------- consistency of a store

  ghost predicate ShapeAt(s: Store, root: Key, k: Key)
    requires k in s && root != []
  {
    && root <= k
    && (k != root ==> Parent(k) in s && k in s[Parent(k)].kids)
    && Sorted(s[k].kids)
    && forall c :: c in s[k].kids ==> c in s && |c| == |k| + 1 && k <= c
  }

  /** The nodes form one tree below `root`, with strictly sorted children one part longer. */
  ghost predicate Shape(s: Store, root: Key) {
    root != [] && root in s && forall k {:trigger ShapeAt(s, root, k)} :: k in s ==> ShapeAt(s, root, k)
  }

  ghost predicate PartialAt(s: Store, k: Key)
    requires k in s
  {
    && s[k].partial.AttrHash?
    && s[k].partial.key == k
    && s[k].partial.dummy == s[k].dummy
    && (s[k].dummy ==> s[k].partial.attrs == map[])
  }

  ghost predicate KidsHashed(s: Store, kids: seq<Key>) {
    forall c :: c in kids ==> c in s && s[c].full.Some?
  }

  ghost function KidHashes(s: Store, kids: seq<Key>): (hs: seq<Digest>)
    requires KidsHashed(s, kids)
    ensures |hs| == |kids|
  {
    seq(|kids|, i requires 0 <= i < |kids| => assert kids[i] in kids; s[kids[i]].full.value)
  }

  /** The full hash covers the node's own hash and its children's full hashes, in order. */
  ghost predicate HashAt(s: Store, k: Key)
    requires k in s
  {
    && KidsHashed(s, s[k].kids)
    && s[k].full == Some(NodeHash(s[k].partial, KidHashes(s, s[k].kids)))
  }

  ghost predicate LeafAt(s: Store, k: Key)
    requires k in s
  {
    s[k].dummy ==> s[k].kids != []
  }

  /** The class invariant of a non-empty tree. */
  ghost predicate Good(s: Store, root: Key) {
    && Shape(s, root)
    && (forall k {:trigger PartialAt(s, k)} :: k in s ==> PartialAt(s, k))
    && (forall k {:trigger HashAt(s, k)} :: k in s ==> HashAt(s, k))
    && (forall k {:trigger LeafAt(s, k)} :: k in s ==> LeafAt(s, k))
  }

  /**
   The invariant while the path to `top` is being worked on: the full hashes of the nodes
   on the path that have at most `n` parts are stale, and nodes on the path may be dummy leaves.
   */
  ghost predicate Stale(s: Store, root: Key, top: Key, n: int) {
    && Shape(s, root)
    && (forall k {:trigger PartialAt(s, k)} :: k in s ==> PartialAt(s, k))
    && (forall k {:trigger HashAt(s, k)} :: k in s && !(k <= top && |k| <= n) ==> HashAt(s, k))
    && (forall k {:trigger LeafAt(s, k)} :: k in s && !(k <= top) ==> LeafAt(s, k))
  }

  // ---------------------------------------------------------------- steps of the algorithms

  lemma HashAtUnchanged(s: Store, t: Store, k: Key)
    requires k in s && k in t && HashAt(s, k)
    requires s[k].partial == t[k].partial && s[k].full == t[k].full && s[k].kids == t[k].kids
    requires forall c :: c in s[k].kids ==> c in t && t[c].full == s[c].full
    ensures HashAt(t, k)
  {
    assert KidHashes(s, s[k].kids) == KidHashes(t, t[k].kids);
  }

  lemma KidsOfExtension(s: Store, root: Key, k: Key, c: Key)
    requires Shape(s, root) && k in s && c in s[k].kids
    ensures c in s && c != [] && Parent(c) == k && c != root && root <= k
  {
    assert ShapeAt(s, root, k);
    assert Parent(c) == k;
  }

  /** A first node makes a one-node tree. */
  lemma RootStep(root: Key)
    requires root != []
    ensures Stale(map[root := Placeholder(root)], root, root, |root|)
    ensures ViewOf(map[root := Placeholder(root)]) == map[root := PlaceholderVal()]
  {
  }

  ghost predicate AddsChild(s: Store, p: Key, c: Key, ks: seq<Key>, t: Store) {
    && p in s && c !in s && c != [] && Parent(c) == p
    && Sorted(ks) && (forall k :: k in ks <==> k in s[p].kids || k == c)
    && t == s[p := s[p].(kids := ks)][c := Placeholder(c)]
  }

  lemma AddChildShape(s: Store, root: Key, p: Key, c: Key, ks: seq<Key>, t: Store)
    requires Shape(s, root) && AddsChild(s, p, c, ks, t)
    ensures Shape(t, root)
  {
    assert ShapeAt(s, root, p);
    forall k | k in t ensures ShapeAt(t, root, k) {
      if k != c {
        assert ShapeAt(s, root, k);
      }
    }
  }

  lemma AddChildHash(s: Store, root: Key, p: Key, c: Key, ks: seq<Key>, t: Store, k: Key)
    requires Stale(s, root, p, |p|) && AddsChild(s, p, c, ks, t)
    requires k in t && !(k <= c && |k| <= |c|)
    ensures HashAt(t, k)
  {
    assert ShapeAt(s, root, k);
    assert !(k <= p);
    assert HashAt(s, k);
    HashAtUnchanged(s, t, k);
  }

  lemma AddChildView(s: Store, p: Key, c: Key, ks: seq<Key>, t: Store)
    requires AddsChild(s, p, c, ks, t)
    ensures ViewOf(t) == ViewOf(s)[c := PlaceholderVal()]
  {
  }

  lemma AddChildPartial(s: Store, p: Key, c: Key, ks: seq<Key>, t: Store)
    requires AddsChild(s, p, c, ks, t) && (forall k {:trigger PartialAt(s, k)} :: k in s ==> PartialAt(s, k))
    ensures forall k {:trigger PartialAt(t, k)} :: k in t ==> PartialAt(t, k)
  {
    forall k | k in t ensures PartialAt(t, k) {
      assert k != c ==> PartialAt(s, k);
    }
  }

  lemma AddChildLeaf(s: Store, root: Key, p: Key, c: Key, ks: seq<Key>, t: Store, k: Key)
    requires Stale(s, root, p, |p|) && AddsChild(s, p, c, ks, t)
    requires k in t && !(k <= c)
    ensures LeafAt(t, k)
  {
    assert p <= c;
    assert k != p && k != c && !(k <= p);
    assert LeafAt(s, k);
  }

  /** Hanging a new placeholder `c` under `p`. */
  lemma AddChildStep(s: Store, root: Key, p: Key, c: Key, ks: seq<Key>, t: Store)
    requires Stale(s, root, p, |p|) && AddsChild(s, p, c, ks, t)
    ensures Stale(t, root, c, |c|)
    ensures ViewOf(t) == ViewOf(s)[c := PlaceholderVal()]
  {
    AddChildShape(s, root, p, c, ks, t);
    forall k | k in t && !(k <= c && |k| <= |c|) ensures HashAt(t, k) {
      AddChildHash(s, root, p, c, ks, t, k);
    }
    forall k | k in t && !(k <= c) ensures LeafAt(t, k) {
      AddChildLeaf(s, root, p, c, ks, t, k);
    }
    AddChildPartial(s, p, c, ks, t);
    AddChildView(s, p, c, ks, t);
  }

  lemma DescendStep(s: Store, root: Key, p: Key, c: Key)
    requires Stale(s, root, p, |p|) && p in s
    requires c != [] && Parent(c) == p && c in s
    ensures c in s[p].kids
    ensures Stale(s, root, c, |c|)
  {
    assert ShapeAt(s, root, c);
    assert ShapeAt(s, root, p);
    forall k | k in s && !(k <= c && |k| <= |c|) ensures HashAt(s, k) {
      assert !(k <= p);
    }
  }

  /** The tree keeps its shape when no list of children changes. */
  lemma SameKidsSameShape(s: Store, root: Key, t: Store)
    requires Shape(s, root) && SameKids(s, t)
    ensures Shape(t, root)
  {
    forall j | j in t ensures ShapeAt(t, root, j) {
      assert ShapeAt(s, root, j);
    }
  }

  ghost predicate SameKids(s: Store, t: Store) {
    t.Keys == s.Keys && forall k :: k in s ==> t[k].kids == s[k].kids
  }

  lemma SetNodeHash(s: Store, root: Key, k: Key, r: Rec, t: Store, j: Key)
    requires Shape(s, root) && k in s && t == s[k := r]
    requires j in s && HashAt(s, j) && !(j <= k)
    ensures HashAt(t, j)
  {
    assert ShapeAt(s, root, j);
    HashAtUnchanged(s, t, j);
  }

  lemma SetNodeView(s: Store, k: Key, r: Rec)
    requires k in s
    ensures ViewOf(s[k := r]) == ViewOf(s)[k := ValOf(r)]
  {
  }

  lemma SetNodeRest(s: Store, k: Key, t: Store)
    requires k in s && k in t && t == s[k := t[k]] && PartialAt(t, k)
    requires forall j {:trigger PartialAt(s, j)} :: j in s ==> PartialAt(s, j)
    requires forall j {:trigger LeafAt(s, j)} :: j in s && !(j <= k) ==> LeafAt(s, j)
    ensures forall j {:trigger PartialAt(t, j)} :: j in t ==> PartialAt(t, j)
    ensures forall j {:trigger LeafAt(t, j)} :: j in t && !(j <= k) ==> LeafAt(t, j)
  {
    forall j | j in t ensures PartialAt(t, j) && (!(j <= k) ==> LeafAt(t, j)) {
      assert PartialAt(s, j);
      assert !(j <= k) ==> LeafAt(s, j);
    }
  }

  /** Changing what node `k` stands for. */
  lemma SetNodeStep(s: Store, root: Key, k: Key, r: Rec, t: Store)
    requires Stale(s, root, k, |k|) && k in s
    requires t == s[k := r] && r.kids == s[k].kids
    requires r.partial.AttrHash? && r.partial.key == k && r.partial.dummy == r.dummy
    requires r.dummy ==> r.partial.attrs == map[]
    ensures Stale(t, root, k, |k|)
    ensures ViewOf(t) == ViewOf(s)[k := ValOf(r)]
  {
    SameKidsSameShape(s, root, t);
    SetNodeView(s, k, r);
    forall j | j in t && !(j <= k && |j| <= |k|) ensures HashAt(t, j) {
      SetNodeHash(s, root, k, r, t, j);
    }
    SetNodeRest(s, k, t);
  }

  ghost predicate Rehashes(s: Store, k: Key, t: Store) {
    && k in s && KidsHashed(s, s[k].kids)
    && t == s[k := s[k].(full := Some(NodeHash(s[k].partial, KidHashes(s, s[k].kids))))]
  }

  lemma RehashOther(s: Store, root: Key, top: Key, k: Key, t: Store, j: Key)
    requires Stale(s, root, top, |k|) && Rehashes(s, k, t) && k <= top
    requires j in s && j != k && !(j <= top && |j| <= |k| - 1)
    ensures HashAt(t, j)
  {
    assert ShapeAt(s, root, j);
    if j <= top && |j| == |k| {
      PrefixesOfSameLength(j, k, top);
    }
    assert HashAt(s, j);
    HashAtUnchanged(s, t, j);
  }

  lemma RehashSelf(s: Store, root: Key, k: Key, t: Store)
    requires Shape(s, root) && Rehashes(s, k, t)
    ensures HashAt(t, k)
  {
    assert ShapeAt(s, root, k);
    assert KidHashes(s, s[k].kids) == KidHashes(t, t[k].kids);
  }

  lemma RehashRest(s: Store, top: Key, k: Key, t: Store)
    requires Rehashes(s, k, t)
    requires forall j {:trigger PartialAt(s, j)} :: j in s ==> PartialAt(s, j)
    requires forall j {:trigger LeafAt(s, j)} :: j in s && !(j <= top) ==> LeafAt(s, j)
    ensures forall j {:trigger PartialAt(t, j)} :: j in t ==> PartialAt(t, j)
    ensures forall j {:trigger LeafAt(t, j)} :: j in t && !(j <= top) ==> LeafAt(t, j)
  {
    forall j | j in t ensures PartialAt(t, j) && (!(j <= top) ==> LeafAt(t, j)) {
      assert PartialAt(s, j);
      assert !(j <= top) ==> LeafAt(s, j);
    }
  }

  lemma RehashView(s: Store, k: Key, t: Store)
    requires Rehashes(s, k, t)
    ensures ViewOf(t) == ViewOf(s)
  {
  }

  /** Recomputing the full hash of the lowest stale node on the path. */
  lemma RehashStep(s: Store, root: Key, top: Key, k: Key, t: Store)
    requires Stale(s, root, top, |k|) && Rehashes(s, k, t) && k <= top
    ensures Stale(t, root, top, |k| - 1)
    ensures ViewOf(t) == ViewOf(s)
  {
    SameKidsSameShape(s, root, t);
    RehashView(s, k, t);
    RehashRest(s, top, k, t);
    forall j | j in t && !(j <= top && |j| <= |k| - 1) ensures HashAt(t, j) {
      if j == k {
        RehashSelf(s, root, k, t);
      } else {
        RehashOther(s, root, top, k, t, j);
      }
    }
  }

  /** The kids of the lowest stale node have their hashes. */
  lemma KidsAreHashed(s: Store, root: Key, top: Key, k: Key)
    requires Stale(s, root, top, |k|) && k in s
    ensures KidsHashed(s, s[k].kids)
  {
    assert ShapeAt(s, root, k);
    forall c | c in s[k].kids ensures c in s && s[c].full.Some? {
      assert HashAt(s, c);
    }
  }

  ghost function Without(s: Store, c: Key): Store {
    map k | k in s && !(c <= k) :: s[k]
  }

  ghost function ViewWithout(v: View, c: Key): View {
    map k | k in v && !(c <= k) :: v[k]
  }

  ghost predicate Cuts(s: Store, p: Key, c: Key, ks: seq<Key>, t: Store) {
    && p in s && c in s && c != [] && Parent(c) == p
    && Sorted(ks) && (forall k :: k in ks <==> k in s[p].kids && k != c)
    && t == Without(s, c)[p := s[p].(kids := ks)]
  }

  lemma CutKid(s: Store, root: Key, p: Key, c: Key, k: Key, d: Key)
    requires Shape(s, root) && c in s && c != [] && Parent(c) == p && p in s
    requires k in s && !(c <= k) && d in s[k].kids && d != c
    ensures !(c <= d)
  {
    KidsOfExtension(s, root, k, d);
  }

  lemma CutShapeAt(s: Store, root: Key, p: Key, c: Key, ks: seq<Key>, t: Store, k: Key)
    requires Shape(s, root) && Cuts(s, p, c, ks, t) && k in t
    requires root <= p
    ensures ShapeAt(t, root, k)
  {
    assert ShapeAt(s, root, k);
    forall d | d in t[k].kids ensures d in t && |d| == |k| + 1 && k <= d {
      assert d in s[k].kids;
      if d == c {
        KidsOfExtension(s, root, k, d);
      }
      CutKid(s, root, p, c, k, d);
    }
    if k != root {
      assert c <= Parent(k) ==> c <= k;
    }
  }

  lemma CutHash(s: Store, root: Key, p: Key, c: Key, ks: seq<Key>, t: Store, k: Key)
    requires Stale(s, root, c, |c|) && Cuts(s, p, c, ks, t)
    requires Shape(t, root) && k in t && !(k <= p)
    ensures HashAt(t, k) && LeafAt(t, k)
  {
    assert k != p && k in s && !(c <= k);
    assert !(k <= c);
    assert HashAt(s, k) && LeafAt(s, k);
    assert ShapeAt(t, root, k);
    HashAtUnchanged(s, t, k);
  }

  lemma CutView(s: Store, p: Key, c: Key, ks: seq<Key>, t: Store)
    requires Cuts(s, p, c, ks, t)
    ensures ViewOf(t) == ViewWithout(ViewOf(s), c)
  {
    assert p <= c && !(c <= p);
  }

  lemma CutPartial(s: Store, p: Key, c: Key, ks: seq<Key>, t: Store)
    requires Cuts(s, p, c, ks, t) && (forall k {:trigger PartialAt(s, k)} :: k in s ==> PartialAt(s, k))
    ensures forall k {:trigger PartialAt(t, k)} :: k in t ==> PartialAt(t, k)
  {
    forall k | k in t ensures PartialAt(t, k) {
      assert k in s && PartialAt(s, k);
    }
  }

  /** Cutting off the subtree at `c` from its parent `p`. */
  lemma CutStep(s: Store, root: Key, p: Key, c: Key, ks: seq<Key>, t: Store)
    requires Stale(s, root, c, |c|) && Cuts(s, p, c, ks, t)
    ensures Stale(t, root, p, |p|)
    ensures ViewOf(t) == ViewWithout(ViewOf(s), c)
  {
    assert ShapeAt(s, root, p);
    forall k | k in t ensures ShapeAt(t, root, k) {
      CutShapeAt(s, root, p, c, ks, t, k);
    }
    assert root in t by {
      assert root <= p && |root| < |c|;
    }
    forall k | k in t && !(k <= p) ensures HashAt(t, k) && LeafAt(t, k) {
      CutHash(s, root, p, c, ks, t, k);
    }
    assert forall k :: k in t && k <= p ==> |k| <= |p|;
    CutPartial(s, p, c, ks, t);
    CutView(s, p, c, ks, t);
  }

  ghost function Below(s: Store, c: Key): Store {
    map k | k in s && c <= k :: s[k]
  }

  ghost function ViewBelow(v: View, c: Key): View {
    map k | k in v && c <= k :: v[k]
  }

  lemma BelowShapeAt(s: Store, root: Key, c: Key, k: Key)
    requires Shape(s, root) && c in s && k in s && c <= k && c != []
    ensures ShapeAt(Below(s, c), c, k)
  {
    assert ShapeAt(s, root, k);
    forall d | d in s[k].kids ensures d in Below(s, c) {
      assert c <= d;
    }
    if k != c {
      assert ShapeAt(s, root, c);
      assert c <= Parent(k);
    }
  }

  /** What is below a node of a consistent tree is a consistent tree. */
  lemma BelowIsGood(s: Store, root: Key, c: Key)
    requires Good(s, root) && c in s
    ensures Good(Below(s, c), c)
    ensures ViewOf(Below(s, c)) == ViewBelow(ViewOf(s), c)
  {
    var t := Below(s, c);
    assert ShapeAt(s, root, c);
    forall k | k in t ensures ShapeAt(t, c, k) {
      BelowShapeAt(s, root, c, k);
    }
    forall k | k in t ensures PartialAt(t, k) && HashAt(t, k) && LeafAt(t, k) {
      assert PartialAt(s, k) && HashAt(s, k) && LeafAt(s, k) && ShapeAt(t, c, k);
      HashAtUnchanged(s, t, k);
    }
  }

  /** Every node above a node has a child. */
  lemma PathHasKids(s: Store, root: Key, top: Key, k: Key)
    requires Shape(s, root) && top in s && k in s && k <= top && k != top
    ensures s[k].kids != []
    decreases |top|
  {
    assert ShapeAt(s, root, top) && ShapeAt(s, root, k);
    assert Parent(top) in s;
    if Parent(top) == k {
      assert top in s[k].kids;
    } else {
      PathHasKids(s, root, Parent(top), k);
    }
  }

  /** All ancestors of a node down to the root are nodes. */
  lemma {:induction false} AncestorsPresent(s: Store, root: Key, top: Key, n: nat)
    requires Shape(s, root) && top in s && |root| <= n <= |top|
    ensures top[..n] in s
    decreases |top|
  {
    assert ShapeAt(s, root, top);
    if n < |top| {
      AncestorsPresent(s, root, Parent(top), n);
      assert Parent(top)[..n] == top[..n];
    } else {
      assert top[..n] == top;
    }
  }

  /** Once the path is rehashed and its lowest node is worth keeping, the invariant is back. */
  lemma SettledIsGood(s: Store, root: Key, top: Key)
    requires Stale(s, root, top, |root| - 1)
    requires top in s && LeafAt(s, top)
    ensures Good(s, root)
  {
    forall k | k in s ensures PartialAt(s, k) && HashAt(s, k) && LeafAt(s, k) {
      assert ShapeAt(s, root, k);
      if k <= top && k != top {
        PathHasKids(s, root, top, k);
      }
    }
  }

  lemma GoodIsStale(s: Store, root: Key, top: Key, n: int)
    requires Good(s, root)
    ensures Stale(s, root, top, n)
  {
  }

  // ---------------------------------------------------------------- dropping useless dummies

  /** A real node is at or below `k`. */
  ghost predicate Supported(v: View, k: Key) {
    exists r :: r in v && k <= r && !v[r].dummy
  }

  /** The view without the nodes that no real node needs. */
  ghost function Trim(v: View): View {
    map k | k in v && Supported(v, k) :: v[k]
  }

  /** A dummy leaf is not missed. */
  lemma TrimWithoutLeaf(v: View, k: Key)
    requires k in v && v[k].dummy && forall j :: j in v && k <= j ==> j == k
    ensures Trim(ViewWithout(v, k)) == Trim(v)
  {
    var w := ViewWithout(v, k);
    forall j | j in w ensures Supported(w, j) <==> Supported(v, j) {
      if Supported(v, j) {
        var r :| r in v && j <= r && !v[r].dummy;
        assert r in w;
      }
    }
    assert !Supported(v, k);
  }

  /** A node with another one below it has a child on the way to it. */
  lemma ChildTowards(s: Store, root: Key, k: Key, j: Key)
    requires Shape(s, root) && k in s && j in s && k <= j && j != k
    ensures j[..|k| + 1] in s[k].kids
  {
    assert ShapeAt(s, root, k);
    var c := j[..|k| + 1];
    AncestorsPresent(s, root, j, |k| + 1);
    assert Parent(c) == k;
    assert ShapeAt(s, root, c);
  }

  lemma NoKidsNoExtension(s: Store, root: Key, k: Key, j: Key)
    requires Shape(s, root) && k in s && s[k].kids == []
    requires j in s && k <= j
    ensures j == k
  {
    if j != k {
      ChildTowards(s, root, k, j);
    }
  }

  lemma NodeIsBelowRoot(s: Store, root: Key, k: Key)
    requires Shape(s, root) && k in s
    ensures root <= k
  {
    assert ShapeAt(s, root, k);
  }

  lemma WithoutRoot(s: Store, root: Key)
    requires Shape(s, root)
    ensures ViewWithout(ViewOf(s), root) == map[] && Trim(ViewWithout(ViewOf(s), root)) == map[]
  {
    forall k | k in s ensures root <= k {
      assert ShapeAt(s, root, k);
    }
  }

  ghost function Longest(keys: set<Key>): (n: nat)
    ensures forall k :: k in keys ==> |k| <= n
  {
    if keys == {} then 0 else
      var k :| k in keys;
      var n := Longest(keys - {k});
      if |k| > n then |k| else n
  }

  lemma {:induction false} GoodIsSupported(s: Store, root: Key, k: Key)
    requires Good(s, root) && k in s
    ensures Supported(ViewOf(s), k)
    decreases Longest(s.Keys) - |k|
  {
    assert LeafAt(s, k);
    if s[k].dummy {
      var c := s[k].kids[0];
      KidsOfExtension(s, root, k, c);
      assert ShapeAt(s, root, k);
      GoodIsSupported(s, root, c);
    } else {
      assert !ViewOf(s)[k].dummy;
    }
  }

  lemma TrimOfSupported(v: View)
    requires forall k :: k in v ==> Supported(v, k)
    ensures Trim(v) == v
  {
  }

  /** A consistent tree has no node that is not needed. */
  lemma TrimOfGood(s: Store, root: Key)
    requires Good(s, root)
    ensures Trim(ViewOf(s)) == ViewOf(s)
  {
    var v := ViewOf(s);
    forall k | k in v ensures Supported(v, k) {
      GoodIsSupported(s, root, k);
    }
    TrimOfSupported(v);
  }

  // ---------------------------------------------------------------- what the operations do to a view

  /** The `_metadata` argument of `add`: left out, None, or a dictionary. */
  datatype MetaArg = Absent | Unset | Given(fields: Attrs)

  function NewMeta(current: Attrs, m: MetaArg): Attrs {
    match m
    case Absent => current
    case Unset => map[]
    case Given(d) => current + d
  }

  /** The keys on the way down to `key`, itself included. */
  ghost function PathKeys(key: Key): set<Key> {
    set i | 1 <= i <= |key| :: key[..i]
  }

  lemma PathKeysAre(key: Key, k: Key)
    ensures k in PathKeys(key) <==> k != [] && k <= key
  {
    if k != [] && k <= key {
      assert k == key[..|k|];
    }
  }

  /** The view once every key in `keys` has a node. */
  ghost function WithPlaceholders(v: View, keys: set<Key>): View {
    map k | k in v.Keys + keys :: if k in v then v[k] else PlaceholderVal()
  }

  /** Adding `key`: placeholders above it where there was nothing, and the node itself real. */
  ghost function AddView(v: View, key: Key, attrs: Attrs, m: MetaArg, error: bool): View {
    WithPlaceholders(v, PathKeys(key))[key := Val(false, attrs, error,
      NewMeta(if key in v then v[key].meta else map[], m))]
  }

  lemma AddViewIs(v: View, key: Key, attrs: Attrs, m: MetaArg, error: bool)
    requires key != []
    ensures var w := WithPlaceholders(v, PathKeys(key));
      key in w && AddView(v, key, attrs, m, error) == w[key := Val(false, attrs, error, NewMeta(w[key].meta, m))]
  {
    PathKeysAre(key, key);
  }

  /** The placeholder root of a new tree makes no difference. */
  lemma AddToFresh(rk: Key, key: Key, attrs: Attrs, m: MetaArg, error: bool)
    requires key != [] && rk == [key[0]]
    ensures AddView(map[rk := PlaceholderVal()], key, attrs, m, error) == AddView(map[], key, attrs, m, error)
  {
    PathKeysAre(key, rk);
    assert WithPlaceholders(map[rk := PlaceholderVal()], PathKeys(key)) == WithPlaceholders(map[], PathKeys(key));
  }

  ghost function ClearView(v: View, key: Key): View {
    if key in v then Trim(v[key := v[key].(dummy := true, attrs := map[])]) else v
  }

  lemma PathKeysRoot(v: View, rk: Key)
    requires |rk| == 1 && rk in v
    ensures WithPlaceholders(v, PathKeys(rk)) == v
  {
    forall j | j in PathKeys(rk) ensures j == rk {
      PathKeysAre(rk, j);
    }
  }

  lemma PathKeysStep(v: View, key: Key, i: nat)
    requires i < |key|
    ensures WithPlaceholders(v, PathKeys(key[..i + 1])) ==
            if key[..i + 1] in v then WithPlaceholders(v, PathKeys(key[..i]))
            else WithPlaceholders(v, PathKeys(key[..i]))[key[..i + 1] := PlaceholderVal()]
    ensures key[..i + 1] in WithPlaceholders(v, PathKeys(key[..i])) <==> key[..i + 1] in v
  {
    var k := key[..i + 1];
    PathKeysAre(key[..i], k);
    forall j ensures j in PathKeys(k) <==> j in PathKeys(key[..i]) || j == k {
      PathKeysAre(k, j);
      PathKeysAre(key[..i], j);
      assert key[..i] == k[..i];
      if j <= k && j != k {
        assert j == k[..|j|] == key[..i][..|j|];
      }
    }
  }

  // ---------------------------------------------------------------- adding several nodes

  datatype Item = Item(key: Key, attrs: Attrs, meta: MetaArg, error: bool)

  ghost function AddItem(v: View, item: Item): View {
    if item.key == [] then v else AddView(v, item.key, item.attrs, item.meta, item.error)
  }

  ghost function AddAll(v: View, items: seq<Item>): View {
    if items == [] then v else AddItem(AddAll(v, items[..|items| - 1]), items[|items| - 1])
  }

  /** The root keys a batch asks for: the first parts of its keys, empty keys apart. */
  ghost function Firsts(items: seq<Item>): set<Key> {
    set item | item in items && item.key != [] :: item.key[..1]
  }

  lemma FirstsOfOne(item: Item)
    ensures Firsts([item]) == if item.key == [] then {} else {[item.key[0]]}
    ensures item.key != [] ==> item.key[..1] == [item.key[0]]
  {
    if item.key != [] {
      assert item.key[..1] == [item.key[0]];
      assert item in [item] && item.key[..1] in Firsts([item]);
      assert Firsts([item]) == {item.key[..1]};
    } else {
      assert Firsts([item]) == {};
    }
  }

  lemma FirstsMore(items: seq<Item>, i: nat)
    requires i < |items|
    ensures Firsts(items[..i + 1]) == Firsts(items[..i]) + Firsts([items[i]])
  {
    assert items[..i + 1] == items[..i] + [items[i]];
  }

  /** No two of these root keys differ. */
  ghost predicate OneRoot(roots: set<Key>) {
    forall x, y :: x in roots && y in roots ==> x == y
  }

  /** The key of an item clashes with the root that the items before it have led to. */
  lemma ClashInBatch(roots: set<Key>, items: seq<Item>, i: nat, root: Key)
    requires i < |items| && roots + Firsts(items[..i]) == {root}
    requires items[i].key != [] && root != items[i].key[..1]
    ensures !OneRoot(roots + Firsts(items))
  {
    var all := roots + Firsts(items);
    assert items[i] in items && items[i].key[..1] in all;
    assert root in roots + Firsts(items[..i]);
    assert root in all;
  }

  lemma AddAllStep(v: View, items: seq<Item>, i: nat)
    requires i < |items|
    ensures AddAll(v, items[..i + 1]) == AddItem(AddAll(v, items[..i]), items[i])
  {
    assert items[..i + 1][..i] == items[..i];
  }

  /** Every node above a node is in the view. */
  ghost predicate Closed(v: View) {
    forall k, n {:trigger k[..n]} :: k in v && 1 <= n <= |k| ==> k[..n] in v
  }

  lemma PrefixIsThere(v: View, key: Key, k: Key)
    requires Closed(v) && k in v && key <= k && key != []
    ensures key in v
  {
    assert k[..|key|] == key;
  }

  lemma NothingBelowAbsent(v: View, key: Key, k: Key)
    requires Closed(v) && k in v && key != [] && key !in v
    ensures !(key <= k)
  {
    if key <= k {
      PrefixIsThere(v, key, k);
    }
  }

  /**
   `v` holds what `before` holds; what else is real is among the keys tried, and the first `n`
   of these are no nodes any more.
   */
  ghost predicate Undone(before: View, v: View, tried: seq<Key>, n: nat) {
    && (forall k :: k in before ==> k in v && v[k] == before[k])
    && (forall k :: k in v && k !in before && !v[k].dummy ==> k in tried)
    && forall i :: 0 <= i < n && i < |tried| ==> tried[i] !in v
  }

  lemma UndoneByAdd(before: View, v: View, tried: seq<Key>, item: Item)
    requires Undone(before, v, tried, 0) && item.key !in before
    ensures Undone(before, v, tried + [item.key], 0)
    ensures Undone(before, AddItem(v, item), tried + [item.key], 0)
  {
  }

  lemma UndoneByPop(before: View, v: View, tried: seq<Key>, n: nat)
    requires n < |tried| && Undone(before, v, tried, n) && tried[n] !in before && tried[n] != []
    requires Closed(before) && Trim(before) == before
    ensures Undone(before, Trim(ViewWithout(v, tried[n])), tried, n + 1)
  {
    var w := ViewWithout(v, tried[n]);
    forall k | k in before ensures k in Trim(w) && Trim(w)[k] == before[k] {
      KeptByPop(before, v, tried[n], k);
    }
  }

  /** Popping a key that was no node before takes away nothing that was there. */
  lemma KeptByPop(before: View, v: View, x: Key, k: Key)
    requires Closed(before) && Trim(before) == before && x !in before && x != [] && k in before
    requires forall j :: j in before ==> j in v && v[j] == before[j]
    ensures k in ViewWithout(v, x) && Supported(ViewWithout(v, x), k) && ViewWithout(v, x)[k] == before[k]
  {
    assert k in Trim(before);
    var r :| r in before && k <= r && !before[r].dummy;
    NothingBelowAbsent(before, x, r);
    NothingBelowAbsent(before, x, k);
    assert r in ViewWithout(v, x);
  }

  lemma TriedIsGone(before: View, v: View, tried: seq<Key>, r: Key)
    requires Undone(before, v, tried, |tried|) && r in tried
    ensures r !in v
  {
    var i :| 0 <= i < |tried| && tried[i] == r;
  }

  lemma SupportedByBefore(before: View, v: View, tried: seq<Key>, k: Key)
    requires Undone(before, v, tried, |tried|) && Closed(before)
    requires k in v && k != [] && Supported(v, k)
    ensures k in before
  {
    var r :| r in v && k <= r && !v[r].dummy;
    if r !in before {
      TriedIsGone(before, v, tried, r);
    }
    PrefixIsThere(before, k, r);
  }

  lemma AllUndone(before: View, v: View, tried: seq<Key>)
    requires Undone(before, v, tried, |tried|) && Closed(before)
    requires forall k :: k in v ==> k != [] && Supported(v, k)
    ensures v == before
  {
    forall k | k in v ensures k in before {
      SupportedByBefore(before, v, tried, k);
    }
  }
}
