/** Putting AIM resources into hash trees: which nodes a resource becomes, and which ones go with it. */
module TreeMaker {
  import opened Keys
  import opened TreeStore
  import opened StructuredTree

  predicate Truthy(j: Json) {
    match j
    case Null => false
    case Bool(b) => b
    case Num(n) => n != 0
    case Str(s) => s != ""
    case Arr(items) => items != []
    case Obj(fields) => fields != map[]
    case Hex(_) => true
  }

  predicate IsRelated(meta: Attrs) {
    "related" in meta && Truthy(meta["related"])
  }

  /** All nodes from just below `top` down to `k` are related ones. */
  ghost predicate Chain(v: View, top: Key, k: Key) {
    top <= k && forall n {:trigger k[..n]} :: |top| < n <= |k| ==> k[..n] in v && IsRelated(v[k[..n]].meta)
  }

  /** The nodes below `top` that are reached through related nodes only. */
  ghost function RelatedBelow(v: View, top: Key): set<Key> {
    set k | k in v && k != top && Chain(v, top, k)
  }

  /** The same starting from a child. */
  ghost function RelatedFrom(v: View, c: Key): set<Key> {
    set k | k in v && c in v && IsRelated(v[c].meta) && Chain(v, c, k)
  }

  ghost function Dummied(v: View, ks: set<Key>): View {
    map k | k in v :: if k in ks then v[k].(dummy := true, attrs := map[]) else v[k]
  }

  lemma ClearIsDummied(v: View, k: Key)
    requires Trim(v) == v
    ensures ClearView(v, k) == Trim(Dummied(v, {k}))
  {
    if k in v {
      assert v[k := v[k].(dummy := true, attrs := map[])] == Dummied(v, {k});
    } else {
      assert Dummied(v, {k}) == v;
    }
  }

  lemma SupportedIn(v: View, ks: set<Key>, js: set<Key>, k: Key)
    ensures k in v && Supported(Dummied(v, ks + js), k) ==> k in Trim(Dummied(v, ks))
    ensures k in Trim(Dummied(v, ks)) ==>
      (Supported(Dummied(Trim(Dummied(v, ks)), js), k) <==> Supported(Dummied(v, ks + js), k))
  {
    var w := Trim(Dummied(v, ks));
    if k in v && Supported(Dummied(v, ks + js), k) {
      var r :| r in v && k <= r && !Dummied(v, ks + js)[r].dummy;
      assert !Dummied(v, ks)[r].dummy;
      assert Supported(Dummied(v, ks), r) && r in w;
      assert !Dummied(w, js)[r].dummy;
    }
    if k in w && Supported(Dummied(w, js), k) {
      var r :| r in w && k <= r && !Dummied(w, js)[r].dummy;
      assert !Dummied(v, ks + js)[r].dummy;
    }
  }

  /** Dummies made in two steps, with useless ones dropped in between, are the same as in one. */
  lemma DummiedTwice(v: View, ks: set<Key>, js: set<Key>)
    ensures Trim(Dummied(Trim(Dummied(v, ks)), js)) == Trim(Dummied(v, ks + js))
  {
    var a, b := Trim(Dummied(Trim(Dummied(v, ks)), js)), Trim(Dummied(v, ks + js));
    forall k ensures k in a <==> k in b {
      SupportedIn(v, ks, js, k);
    }
    forall k | k in a ensures a[k] == b[k] {
    }
  }

  /** Only nodes that are there matter. */
  lemma DummiedDomain(v: View, ks: set<Key>, js: set<Key>)
    requires forall k :: k in v ==> (k in ks <==> k in js)
    ensures Dummied(v, ks) == Dummied(v, js)
  {}

  lemma TrimIsClosed(v: View)
    requires Closed(v)
    ensures Closed(Trim(v))
  {
    var w := Trim(v);
    forall k, n | k in w && 1 <= n <= |k| ensures k[..n] in w {
      var r :| r in v && k <= r && !v[r].dummy;
      assert k[..n] <= r;
      assert k[..n] in v;
    }
  }

  /** Earlier cleaning elsewhere changes only which of the related nodes are still there. */
  lemma RelatedAfter(v: View, ks: set<Key>, top: Key, k: Key)
    requires Closed(v) && k in Trim(Dummied(v, ks))
    ensures k in RelatedBelow(Trim(Dummied(v, ks)), top) <==> k in RelatedBelow(v, top)
  {
    var w := Trim(Dummied(v, ks));
    assert Closed(Dummied(v, ks));
    TrimIsClosed(Dummied(v, ks));
    forall n | |top| < n <= |k| ensures k[..n] in w && k[..n] in v && w[k[..n]].meta == v[k[..n]].meta {
    }
  }

  ghost function RelatedFromAll(v: View, kids: seq<Key>): set<Key> {
    set k | k in v && exists i :: 0 <= i < |kids| && k in RelatedFrom(v, kids[i])
  }

  lemma RelatedFromAllStep(v: View, kids: seq<Key>, i: nat)
    requires i < |kids|
    ensures RelatedFromAll(v, kids[..i + 1]) == RelatedFromAll(v, kids[..i]) + RelatedFrom(v, kids[i])
  {
    var a, b := kids[..i + 1], kids[..i];
    forall k | k in v ensures k in RelatedFromAll(v, a) <==> k in RelatedFromAll(v, b) || k in RelatedFrom(v, kids[i]) {
      if k in RelatedFromAll(v, b) {
        var j :| 0 <= j < |b| && k in RelatedFrom(v, b[j]);
        assert a[j] == b[j];
      }
      if k in RelatedFrom(v, kids[i]) {
        assert a[i] == kids[i];
      }
    }
  }

  lemma RelatedFromChild(v: View, c: Key)
    requires c in v
    ensures RelatedFrom(v, c) == if IsRelated(v[c].meta) then {c} + RelatedBelow(v, c) else {}
  {
    if IsRelated(v[c].meta) {
      assert Chain(v, c, c);
    }
  }

  /** What hangs from the children is everything that hangs from the node. */
  lemma RelatedOfKids(s: Store, root: Key, top: Key)
    requires Shape(s, root) && top in s
    ensures RelatedFromAll(ViewOf(s), s[top].kids) == RelatedBelow(ViewOf(s), top)
  {
    var v := ViewOf(s);
    assert ShapeAt(s, root, top);
    forall k | k in v && k in RelatedFromAll(v, s[top].kids) ensures k in RelatedBelow(v, top) {
      var i :| 0 <= i < |s[top].kids| && k in RelatedFrom(v, s[top].kids[i]);
      assert s[top].kids[i] in s[top].kids;
      ChainFromKid(v, top, s[top].kids[i], k);
    }
    forall k | k in v && k in RelatedBelow(v, top) ensures k in RelatedFromAll(v, s[top].kids) {
      ChainToKid(s, root, top, k);
    }
  }

  lemma ChainToKid(s: Store, root: Key, top: Key, k: Key)
    requires Shape(s, root) && top in s && k in RelatedBelow(ViewOf(s), top)
    ensures k in RelatedFromAll(ViewOf(s), s[top].kids)
  {
    var v, c := ViewOf(s), k[..|top| + 1];
    assert c in v && Parent(c) == top && ShapeAt(s, root, c) && ShapeAt(s, root, top);
    var i :| 0 <= i < |s[top].kids| && s[top].kids[i] == c;
    assert Chain(v, c, k);
    assert k in RelatedFrom(v, s[top].kids[i]);
  }

  lemma ChainFromKid(v: View, top: Key, c: Key, k: Key)
    requires c in v && IsRelated(v[c].meta) && Chain(v, c, k) && top <= c && |c| == |top| + 1
    ensures Chain(v, top, k) && k != top
  {
    forall n | |top| < n <= |k| ensures k[..n] in v && IsRelated(v[k[..n]].meta) {
      if n == |c| {
        assert k[..n] == c;
      }
    }
  }

  ghost function CleanView(v: View, key: Key): View {
    Trim(Dummied(v, RelatedBelow(v, key)))
  }

  /** The children that are still to be visited are real or needed, whatever was cleaned under the others. */
  lemma SiblingStays(v: View, ks: set<Key>, c: Key)
    requires c in v && Supported(v, c) && forall k :: k in ks ==> !(c <= k)
    ensures c in Trim(Dummied(v, ks)) && Trim(Dummied(v, ks))[c].meta == v[c].meta
  {
    var r :| r in v && c <= r && !v[r].dummy;
    assert !Dummied(v, ks)[r].dummy;
  }

  lemma CleanedBefore(v: View, s: Store, root: Key, top: Key, i: nat)
    requires Good(s, root) && top in s && v == ViewOf(s) && i < |s[top].kids|
    ensures s[top].kids[i] in v && Supported(v, s[top].kids[i])
    ensures forall k :: k in RelatedFromAll(v, s[top].kids[..i]) ==> !(s[top].kids[i] <= k)
  {
    var c := s[top].kids[i];
    assert ShapeAt(s, root, top) && c in s[top].kids;
    GoodIsSupported(s, root, c);
    forall k | k in RelatedFromAll(v, s[top].kids[..i]) ensures !(c <= k) {
      var j :| 0 <= j < i && k in RelatedFrom(v, s[top].kids[..i][j]);
      var d := s[top].kids[j];
      assert d in s[top].kids && d <= k;
      if c <= k {
        PrefixesOfSameLength(c, d, k);
        KeyLessOrder(d, c);
      }
    }
  }

  lemma ClearedStep(v: View, done: set<Key>, c: Key)
    ensures ClearView(Trim(Dummied(v, done)), c) == Trim(Dummied(v, done + {c}))
  {
    TrimTwice(Dummied(v, done));
    ClearIsDummied(Trim(Dummied(v, done)), c);
    DummiedTwice(v, done, {c});
  }

  lemma TrimTwice(v: View)
    ensures Trim(Trim(v)) == Trim(v)
  {
    DummiedNothing(v, {});
    DummiedNothing(Trim(v), {});
    DummiedTwice(v, {}, {});
  }

  lemma CleanedStep(v: View, done: set<Key>, c: Key)
    requires Closed(v)
    ensures CleanView(Trim(Dummied(v, done)), c) == Trim(Dummied(v, done + RelatedBelow(v, c)))
  {
    var w := Trim(Dummied(v, done));
    forall k | k in w ensures k in RelatedBelow(w, c) <==> k in RelatedBelow(v, c) {
      RelatedAfter(v, done, c, k);
    }
    DummiedDomain(w, RelatedBelow(w, c), RelatedBelow(v, c));
    DummiedTwice(v, done, RelatedBelow(v, c));
  }

  /** One related child: it is cleared, and what is related below it. */
  lemma CleanStep(v: View, done: set<Key>, c: Key)
    requires Closed(v) && c in v && IsRelated(v[c].meta)
    ensures CleanView(ClearView(Trim(Dummied(v, done)), c), c) == Trim(Dummied(v, done + RelatedFrom(v, c)))
  {
    ClearedStep(v, done, c);
    CleanedStep(v, done + {c}, c);
    RelatedFromChild(v, c);
    assert done + {c} + RelatedBelow(v, c) == done + RelatedFrom(v, c);
  }

  /** No node has a key with more parts than this. */
  ghost predicate AtMost(tree: StructuredHashTree, bound: nat)
    reads tree
  {
    forall k :: k in tree.nodes ==> |k| <= bound
  }

  /** `node` is the tree's own node for its key, or has been cut off and has nothing below it. */
  ghost predicate OwnOrGone(tree: StructuredHashTree, node: Node)
    reads tree, node
  {
    if node.key in tree.nodes then tree.nodes[node.key] == node else node.children == []
  }

  lemma DummiedNothing(v: View, ks: set<Key>)
    requires forall k :: k in v ==> k !in ks
    ensures Dummied(v, ks) == v
  {}

  lemma NothingBelow(v: View, key: Key)
    requires Trim(v) == v && forall k :: k in v && key <= k ==> k == key
    ensures CleanView(v, key) == v
  {
    DummiedNothing(v, RelatedBelow(v, key));
  }

  /** What is left of a tree in which nodes became dummies. */
  ghost predicate Shrunk(tree: StructuredHashTree, before: map<Key, Node>, rootKey: Option<Key>)
    reads tree, tree.nodes.Values, before.Values
  {
    && tree.Valid() && tree.Whole() && tree.rootKey == rootKey
    && (forall j :: j in tree.nodes ==> j in before && tree.nodes[j] == before[j])
    && (forall j :: j in before && j !in tree.nodes ==> before[j].children == [] && before[j] !in tree.nodes.Values)
  }

  lemma GoneIsElsewhere(tree: StructuredHashTree, before: map<Key, Node>)
    requires tree.Valid() && forall j :: j in before ==> before[j].key == j
    ensures forall j :: j in before && j !in tree.nodes ==> before[j] !in tree.nodes.Values
  {
    forall j | j in before && before[j] in tree.nodes.Values ensures j in tree.nodes {
      var i :| i in tree.nodes && tree.nodes[i] == before[j];
      assert tree.LinkedAt(i);
    }
  }

  lemma KeyedByKey(tree: StructuredHashTree)
    requires tree.Valid()
    ensures forall j :: j in tree.nodes ==> tree.nodes[j].key == j
  {
    forall j | j in tree.nodes ensures tree.nodes[j].key == j {
      assert tree.LinkedAt(j);
    }
  }

  /** The view after the first `i` children of `top` have been cleaned. */
  ghost function CleanedUpTo(s: Store, top: Key, i: nat): View
    requires top in s && i <= |s[top].kids|
  {
    Trim(Dummied(ViewOf(s), RelatedFromAll(ViewOf(s), s[top].kids[..i])))
  }

  lemma ChildIsThere(s: Store, root: Key, top: Key, i: nat)
    requires Good(s, root) && top in s && i < |s[top].kids|
    ensures var c := s[top].kids[i];
      c in s && c in CleanedUpTo(s, top, i) && CleanedUpTo(s, top, i)[c].meta == s[c].meta
  {
    CleanedBefore(ViewOf(s), s, root, top, i);
    SiblingStays(ViewOf(s), RelatedFromAll(ViewOf(s), s[top].kids[..i]), s[top].kids[i]);
  }

  lemma ChildCleaned(s: Store, root: Key, top: Key, i: nat)
    requires Good(s, root) && Closed(ViewOf(s)) && top in s && i < |s[top].kids| && s[top].kids[i] in s
    ensures var c := s[top].kids[i];
      CleanedUpTo(s, top, i + 1) ==
        if IsRelated(s[c].meta) then CleanView(ClearView(CleanedUpTo(s, top, i), c), c) else CleanedUpTo(s, top, i)
  {
    var v, done, c := ViewOf(s), RelatedFromAll(ViewOf(s), s[top].kids[..i]), s[top].kids[i];
    RelatedFromAllStep(v, s[top].kids, i);
    RelatedFromChild(v, c);
    if IsRelated(s[c].meta) {
      CleanStep(v, done, c);
    } else {
      assert done + {} == done;
    }
  }

  lemma CleanedAll(s: Store, root: Key, top: Key)
    requires Good(s, root) && top in s
    ensures CleanedUpTo(s, top, |s[top].kids|) == CleanView(ViewOf(s), top)
    ensures CleanedUpTo(s, top, 0) == ViewOf(s)
  {
    assert s[top].kids[..|s[top].kids|] == s[top].kids;
    RelatedOfKids(s, root, top);
    assert RelatedFromAll(ViewOf(s), s[top].kids[..0]) == {} && Dummied(ViewOf(s), {}) == ViewOf(s);
    TrimOfGood(s, root);
  }

  lemma LeafHasNothingBelow(tree: StructuredHashTree, key: Key, k: Key)
    requires tree.Valid() && tree.root != null && key in tree.nodes && tree.nodes[key].children == []
    requires k in tree.View() && key <= k
    ensures k == key
  {
    assert tree.LinkedAt(key) && tree.store[key].kids == [];
    NoKidsNoExtension(tree.store, tree.root.key, key, k);
  }

  lemma NothingBelowLeaf(tree: StructuredHashTree, node: Node)
    requires tree.Valid() && tree.Whole() && OwnOrGone(tree, node) && node.key != [] && node.children == []
    ensures CleanView(tree.View(), node.key) == tree.View()
  {
    tree.ValidView();
    ghost var v, key := tree.View(), node.key;
    forall k | k in v && key <= k ensures k == key {
      PrefixIsThere(v, key, k);
      LeafHasNothingBelow(tree, key, k);
    }
    NothingBelow(v, key);
  }

  lemma ChildrenOf(tree: StructuredHashTree, top: Key, bound: nat, i: nat)
    requires tree.Valid() && tree.root != null && top in tree.nodes && AtMost(tree, bound)
    requires i < |tree.nodes[top].children|
    ensures IsChild(tree.nodes, tree.store, top, i, tree.nodes[top].children[i])
    ensures |tree.nodes[top].children[i].key| == |top| + 1 <= bound
  {
    var children := tree.nodes[top].children;
    assert tree.LinkedAt(top) && KeysOf(children) == tree.store[top].kids;
    assert ShapeAt(tree.store, tree.root.key, top) && tree.store[top].kids[i] in tree.store[top].kids;
    assert children[i] in children;
  }

  /** Cleaning goes on in a tree that has already shrunk. */
  method CleanOnwards(tree: StructuredHashTree, node: Node, ghost bound: nat, ghost before: map<Key, Node>,
                      ghost rootKey: Option<Key>)
    requires Shrunk(tree, before, rootKey) && OwnOrGone(tree, node) && node.key != []
    requires AtMost(tree, bound) && |node.key| <= bound
    modifies tree, tree.nodes.Values
    ensures Shrunk(tree, before, rootKey) && tree.View() == CleanView(old(tree.View()), node.key)
    decreases bound - |node.key|, 3
  {
    ghost var mid := tree.nodes;
    CleanRelated(tree, node, bound);
    assert tree.nodes.Values <= mid.Values;
  }

  /** A related child becomes a dummy, and what is related below it. */
  method ClearAndClean(tree: StructuredHashTree, child: Node, ghost bound: nat)
    requires tree.Valid() && tree.Whole() && AtMost(tree, bound) && child.key != [] && |child.key| <= bound
    requires child.key in tree.nodes && tree.nodes[child.key] == child
    modifies tree, tree.nodes.Values
    ensures Shrunk(tree, old(tree.nodes), old(tree.rootKey))
    ensures tree.View() == CleanView(ClearView(old(tree.View()), child.key), child.key)
    decreases bound - |child.key|, 4
  {
    KeyedByKey(tree);
    var node, err := tree.Clear(child.key);
    GoneIsElsewhere(tree, old(tree.nodes));
    CleanOnwards(tree, child, bound, old(tree.nodes), old(tree.rootKey));
  }

  method CleanChild(tree: StructuredHashTree, child: Node, ghost s: Store, ghost root: Key, ghost top: Key,
                    ghost i: nat, ghost bound: nat)
    requires tree.Valid() && tree.Whole() && AtMost(tree, bound)
    requires Good(s, root) && Closed(ViewOf(s)) && top in s && |top| < bound && i < |s[top].kids|
    requires child.key == s[top].kids[i]
    requires |child.key| == |top| + 1 && tree.View() == CleanedUpTo(s, top, i)
    requires child.key in tree.nodes ==> tree.nodes[child.key] == child
    modifies tree, tree.nodes.Values
    ensures Shrunk(tree, old(tree.nodes), old(tree.rootKey)) && tree.View() == CleanedUpTo(s, top, i + 1)
    decreases bound - |child.key|, 5
  {
    ChildIsThere(s, root, top, i);
    ChildCleaned(s, root, top, i);
    assert tree.LinkedAt(child.key);
    if IsRelated(child.metadata) {
      ClearAndClean(tree, child, bound);
    }
  }

  /**
   Sets the related nodes below a node as dummies. The tree loses nodes while it is being walked,
   maybe the node itself.
   */
  method CleanRelated(tree: StructuredHashTree, node: Node, ghost bound: nat)
    requires tree.Valid() && tree.Whole() && OwnOrGone(tree, node) && node.key != []
    requires AtMost(tree, bound) && |node.key| <= bound
    modifies tree, tree.nodes.Values
    ensures Shrunk(tree, old(tree.nodes), old(tree.rootKey)) && tree.View() == CleanView(old(tree.View()), node.key)
    decreases bound - |node.key|, 2
  {
    var children := node.children;
    if children == [] {
      NothingBelowLeaf(tree, node);
      return;
    }
    CleanChildren(tree, children, node.key, bound);
  }

  method CleanChildren(tree: StructuredHashTree, children: seq<Node>, ghost top: Key, ghost bound: nat)
    requires tree.Valid() && tree.Whole() && top in tree.nodes && children == tree.nodes[top].children
    requires AtMost(tree, bound)
    modifies tree, tree.nodes.Values
    ensures Shrunk(tree, old(tree.nodes), old(tree.rootKey)) && tree.View() == CleanView(old(tree.View()), top)
    decreases bound - |top|, 1
  {
    tree.ValidView();
    ghost var s, rk, ns := tree.store, tree.root.key, tree.nodes;
    forall i | 0 <= i < |children|
      ensures IsChild(ns, s, top, i, children[i]) && |children[i].key| == |top| + 1 <= bound
    {
      ChildrenOf(tree, top, bound, i);
    }
    assert tree.LinkedAt(top);
    CleanedAll(s, rk, top);
    for i := 0 to |children|
      invariant Shrunk(tree, ns, old(tree.rootKey)) && tree.View() == CleanedUpTo(s, top, i)
    {
      CleanNext(tree, children[i], s, rk, top, i, bound, ns, old(tree.rootKey));
    }
  }

  ghost predicate IsChild(ns: map<Key, Node>, s: Store, top: Key, i: nat, child: Node) {
    top in s && i < |s[top].kids| && child.key == s[top].kids[i] && child.key in ns && ns[child.key] == child
  }

  /** The next child; all that has happened to the tree so far is still that it has shrunk. */
  method CleanNext(tree: StructuredHashTree, child: Node, ghost s: Store, ghost root: Key, ghost top: Key,
                   ghost i: nat, ghost bound: nat,
                   ghost before: map<Key, Node>, ghost rootKey: Option<Key>)
    requires Good(s, root) && Closed(ViewOf(s)) && IsChild(before, s, top, i, child)
    requires |child.key| == |top| + 1 <= bound
    requires Shrunk(tree, before, rootKey) && tree.View() == CleanedUpTo(s, top, i)
    requires forall k :: k in before ==> |k| <= bound
    modifies tree, tree.nodes.Values
    ensures Shrunk(tree, before, rootKey) && tree.View() == CleanedUpTo(s, top, i + 1)
    ensures forall j :: j in tree.nodes ==> j in old(tree.nodes) && tree.nodes[j] == old(tree.nodes)[j]
    decreases bound - |top|, 0
  {
    ghost var mid := tree.nodes;
    CleanChild(tree, child, s, root, top, i, bound);
    assert tree.nodes.Values <= mid.Values;
  }

  // ---------------------------------------------------------------- resources and their nodes

  datatype Mode = Owned | Monitored | PreExisting

  /** An AIM resource; `data` stands for the attributes that only the conversion looks at. */
  datatype Resource = Resource(kind: string, ident: seq<string>, root: string, mode: Mode, sync: bool, error: bool,
                               pending: Option<bool>, data: Json)

  /** The attributes of a node, its metadata and its error flag. */
  datatype NodeArgs = NodeArgs(attrs: Attrs, meta: Attrs, error: bool)

  type Nodes = map<Key, NodeArgs>

  /**
   The conversion to ACI objects, as the nodes that a resource becomes, and the key that the
   distinguished name of a resource gives. `named` tells whether a resource has such a name.
   */
  datatype Converter = Converter(named: Resource -> bool, mainKey: Resource -> Option<Key>,
                                 convert: Resource -> map<Key, Attrs>)
  {

    /** Converted keys all start with the part that stands for the root. */
    ghost predicate Rooted(r: Resource, part: string) {
      && (forall k :: k in convert(r) ==> k != [] && k[0] == part)
      && (mainKey(r).Some? ==> mainKey(r).value != [])
    }

    function MetaOf(r: Resource, k: Key): Attrs {
      var base := map["monitored" := Bool(r.mode != Owned), "attributes" := Obj(AttrsAt(r, k))];
      var related := if mainKey(r) != Some(k) then base["related" := Bool(true)] else base;
      if r.pending.Some? then related["pending" := Bool(r.pending.value)] else related
    }

    function AttrsAt(r: Resource, k: Key): Attrs {
      if k in convert(r) then convert(r)[k] else map[]
    }

    /** The nodes of a resource; those that are not the resource itself are marked as related. */
    function AimResToNodes(r: Resource): Nodes {
      map k | k in convert(r) :: NodeArgs(convert(r)[k], MetaOf(r, k), r.error)
    }

    lemma RelatedIffNotMain(r: Resource, k: Key)
      ensures "related" in MetaOf(r, k) <==> mainKey(r) != Some(k)
      ensures "related" in MetaOf(r, k) ==> Truthy(MetaOf(r, k)["related"])
    {}
  }

  // ---------------------------------------------------------------- views after the operations

  ghost function PathKeysOf(items: Nodes): set<Key> {
    set k, n | k in items && 1 <= n <= |k| :: k[..n]
  }

  /** Adding several nodes, in whatever order. */
  ghost function AddMany(v: View, items: Nodes): View {
    map k | k in v.Keys + PathKeysOf(items) + items.Keys ::
      if k in items then
        var meta := NewMeta(if k in v then v[k].meta else map[], Given(items[k].meta));
        Val(false, items[k].attrs, items[k].error, meta)
      else if k in v then v[k] else PlaceholderVal()
  }

  lemma PathKeysOfOneMore(items: Nodes, key: Key, args: NodeArgs)
    requires key !in items && key != []
    ensures PathKeysOf(items[key := args]) == PathKeysOf(items) + PathKeys(key)
  {
    var more := items[key := args];
    forall k ensures k in PathKeysOf(more) <==> k in PathKeysOf(items) || k in PathKeys(key) {
      if k in PathKeysOf(more) {
        var j, n :| j in more && 1 <= n <= |j| && k == j[..n];
      }
      if k in PathKeysOf(items) {
        var j, n :| j in items && 1 <= n <= |j| && k == j[..n];
        assert j in more;
      }
      if k in PathKeys(key) {
        var n :| 1 <= n <= |key| && k == key[..n];
        assert key in more;
      }
    }
  }

  lemma AddKeysOneMore(v: View, items: Nodes, key: Key, args: NodeArgs)
    requires key !in items && key != []
    ensures WithPlaceholders(AddMany(v, items), PathKeys(key)).Keys + {key} == AddMany(v, items[key := args]).Keys
  {
    PathKeysOfOneMore(items, key, args);
  }

  lemma AddOneMoreAt(v: View, items: Nodes, key: Key, args: NodeArgs, k: Key)
    requires key !in items && key != [] && k in AddMany(v, items[key := args])
    requires k in AddView(AddMany(v, items), key, args.attrs, Given(args.meta), args.error)
    ensures AddView(AddMany(v, items), key, args.attrs, Given(args.meta), args.error)[k] ==
      AddMany(v, items[key := args])[k]
  {}

  lemma AddOneMore(v: View, items: Nodes, key: Key, args: NodeArgs)
    requires key !in items && key != []
    ensures AddView(AddMany(v, items), key, args.attrs, Given(args.meta), args.error) == AddMany(v, items[key := args])
  {
    AddKeysOneMore(v, items, key, args);
    var a, b := AddView(AddMany(v, items), key, args.attrs, Given(args.meta), args.error),
      AddMany(v, items[key := args]);
    assert a.Keys == b.Keys;
    forall k | k in a ensures a[k] == b[k] {
      AddOneMoreAt(v, items, key, args, k);
    }
  }

  lemma AddNone(v: View)
    ensures AddMany(v, map[]) == v
  {
    assert PathKeysOf(map[]) == {};
  }

  /** Cleaning for one resource, before its nodes are added. */
  ghost function PreparedView(c: Converter, v: View, r: Resource): View {
    if c.named(r) && c.mainKey(r).Some? && c.mainKey(r).value in v then CleanView(v, c.mainKey(r).value) else v
  }

  function NodesToAdd(c: Converter, r: Resource): Nodes {
    if c.named(r) then c.AimResToNodes(r) else map[]
  }

  ghost function PrepareAll(c: Converter, v: View, rs: seq<Resource>): View {
    if rs == [] then v else PreparedView(c, PrepareAll(c, v, rs[..|rs| - 1]), rs[|rs| - 1])
  }

  function NodesOfAll(c: Converter, rs: seq<Resource>): Nodes {
    if rs == [] then map[] else NodesOfAll(c, rs[..|rs| - 1]) + NodesToAdd(c, rs[|rs| - 1])
  }

  ghost function UpdateView(c: Converter, v: View, rs: seq<Resource>): View {
    AddMany(PrepareAll(c, v, rs), NodesOfAll(c, rs))
  }

  ghost function DeleteOne(c: Converter, v: View, r: Resource): View {
    if c.mainKey(r).None? then v else
    var key := c.mainKey(r).value;
    var cleared := ClearView(v, key);
    if key in cleared then CleanView(cleared, key) else cleared
  }

  ghost function DeleteAll(c: Converter, v: View, rs: seq<Resource>): View {
    if rs == [] then v else DeleteOne(c, DeleteAll(c, v, rs[..|rs| - 1]), rs[|rs| - 1])
  }

  ghost function KeysOfAll(c: Converter, rs: seq<Resource>): set<Key> {
    set r, k | r in rs && k in c.convert(r) :: k
  }

  ghost function ClearAll(c: Converter, v: View, rs: seq<Resource>): View {
    Trim(Dummied(v, KeysOfAll(c, rs)))
  }

  // ---------------------------------------------------------------- the operations

  /** The tree is for the root that this part stands for, whether it holds anything or not. */
  ghost predicate Fit(tree: StructuredHashTree, part: string)
    reads tree, tree.nodes.Values
  {
    tree.Valid() && tree.rootKey == Some([part])
  }

  lemma NoKeysTooLong(tree: StructuredHashTree) returns (bound: nat)
    ensures AtMost(tree, bound)
  {
    bound := Longest(tree.nodes.Keys);
  }

  method CleanAt(tree: StructuredHashTree, key: Key, part: string)
    requires Fit(tree, part) && key != []
    modifies tree, tree.nodes.Values
    ensures Fit(tree, part) && tree.OnlyNewNodes(old(tree.nodes))
    ensures tree.View() == if key in old(tree.View()) then CleanView(old(tree.View()), key) else old(tree.View())
  {
    var node, err := tree.Find(key);
    if node != null {
      assert tree.LinkedAt(key);
      ghost var bound := NoKeysTooLong(tree);
      CleanRelated(tree, node, bound);
    }
  }

  /** Removes the related nodes of a resource, and gives the nodes it is to have. */
  method PrepareAimResource(tree: StructuredHashTree, c: Converter, r: Resource, part: string) returns (nodes: Nodes)
    requires Fit(tree, part) && c.Rooted(r, part)
    modifies tree, tree.nodes.Values
    ensures Fit(tree, part) && tree.OnlyNewNodes(old(tree.nodes))
    ensures tree.View() == PreparedView(c, old(tree.View()), r) && nodes == NodesToAdd(c, r)
  {
    if !c.named(r) {
      return map[];
    }
    var key := c.mainKey(r);
    if key.Some? {
      CleanAt(tree, key.value, part);
    }
    nodes := c.AimResToNodes(r);
  }

  method Update(tree: StructuredHashTree, c: Converter, updates: seq<Resource>, part: string)
    requires Fit(tree, part) && forall r :: r in updates ==> c.Rooted(r, part)
    modifies tree, tree.nodes.Values
    ensures Fit(tree, part) && tree.OnlyNewNodes(old(tree.nodes))
    ensures tree.View() == UpdateView(c, old(tree.View()), updates)
  {
    var toUpdate := PrepareEach(tree, c, updates, part);
    AddNodes(tree, toUpdate, part);
  }

  /** Prepares every resource, before anything is added. */
  method PrepareEach(tree: StructuredHashTree, c: Converter, updates: seq<Resource>, part: string)
    returns (toUpdate: Nodes)
    requires Fit(tree, part) && forall r :: r in updates ==> c.Rooted(r, part)
    modifies tree, tree.nodes.Values
    ensures Fit(tree, part) && tree.OnlyNewNodes(old(tree.nodes))
    ensures tree.View() == PrepareAll(c, old(tree.View()), updates) && toUpdate == NodesOfAll(c, updates)
    ensures forall k :: k in toUpdate ==> k != [] && k[0] == part
  {
    ghost var v := tree.View();
    toUpdate := map[];
    for i := 0 to |updates|
      invariant Fit(tree, part) && tree.OnlyNewNodes(old(tree.nodes))
      invariant tree.View() == PrepareAll(c, v, updates[..i]) && toUpdate == NodesOfAll(c, updates[..i])
      invariant forall k :: k in toUpdate ==> k != [] && k[0] == part
    {
      assert updates[..i + 1][..i] == updates[..i];
      var nodes := PrepareAimResource(tree, c, updates[i], part);
      toUpdate := toUpdate + nodes;
    }
    assert updates[..|updates|] == updates;
  }

  method AddNodes(tree: StructuredHashTree, items: Nodes, part: string)
    requires Fit(tree, part) && forall k :: k in items ==> k != [] && k[0] == part
    modifies tree, tree.nodes.Values
    ensures Fit(tree, part) && tree.OnlyNewNodes(old(tree.nodes))
    ensures tree.View() == AddMany(old(tree.View()), items)
  {
    ghost var v := tree.View();
    var left := items.Keys;
    ghost var done: Nodes := map[];
    AddNone(v);
    while left != {}
      invariant Fit(tree, part) && tree.OnlyNewNodes(old(tree.nodes))
      invariant left <= items.Keys && done == items - left
      invariant tree.View() == AddMany(v, done)
    {
      var key :| key in left;
      AddNext(tree, key, items[key], v, done, part);
      DoneMore(items, left, key);
      left, done := left - {key}, done[key := items[key]];
    }
    assert items - {} == items;
  }

  lemma DoneMore(items: Nodes, left: set<Key>, key: Key)
    requires key in left && left <= items.Keys
    ensures (items - left)[key := items[key]] == items - (left - {key}) && key !in items - left
  {}

  method AddNext(tree: StructuredHashTree, key: Key, args: NodeArgs, ghost v: View, ghost done: Nodes,
                 ghost part: string)
    requires Fit(tree, part) && key != [] && key[0] == part && key !in done && tree.View() == AddMany(v, done)
    modifies tree, tree.nodes.Values
    ensures Fit(tree, part) && tree.OnlyNewNodes(old(tree.nodes))
    ensures tree.View() == AddMany(v, done[key := args])
  {
    AddOneMore(v, done, key, args);
    var err := tree.Add(key, args.attrs, Given(args.meta), args.error);
  }

  method ClearKey(tree: StructuredHashTree, key: Key, part: string)
    requires Fit(tree, part) && key != []
    modifies tree, tree.nodes.Values
    ensures Fit(tree, part) && tree.OnlyNewNodes(old(tree.nodes))
    ensures tree.View() == ClearView(old(tree.View()), key)
  {
    assert tree.root == null ==> tree.View() == map[];
    var node, err := tree.Clear(key);
  }

  method DeleteResource(tree: StructuredHashTree, c: Converter, r: Resource, part: string)
    requires Fit(tree, part) && c.Rooted(r, part)
    modifies tree, tree.nodes.Values
    ensures Fit(tree, part) && tree.OnlyNewNodes(old(tree.nodes))
    ensures tree.View() == DeleteOne(c, old(tree.View()), r)
  {
    var key := c.mainKey(r);
    if key.Some? {
      ClearKey(tree, key.value, part);
      CleanAt(tree, key.value, part);
    }
  }

  method Delete(tree: StructuredHashTree, c: Converter, deletes: seq<Resource>, part: string)
    requires Fit(tree, part) && forall r :: r in deletes ==> c.Rooted(r, part)
    modifies tree, tree.nodes.Values
    ensures Fit(tree, part) && tree.OnlyNewNodes(old(tree.nodes))
    ensures tree.View() == DeleteAll(c, old(tree.View()), deletes)
  {
    ghost var v := tree.View();
    for i := 0 to |deletes|
      invariant Fit(tree, part) && tree.OnlyNewNodes(old(tree.nodes))
      invariant tree.View() == DeleteAll(c, v, deletes[..i])
    {
      assert deletes[..i + 1][..i] == deletes[..i];
      DeleteResource(tree, c, deletes[i], part);
    }
    assert deletes[..|deletes|] == deletes;
  }

  lemma KeysOfOneMore(c: Converter, rs: seq<Resource>, i: nat)
    requires i < |rs|
    ensures KeysOfAll(c, rs[..i + 1]) == KeysOfAll(c, rs[..i]) + c.convert(rs[i]).Keys
  {
    assert rs[..i + 1] == rs[..i] + [rs[i]];
  }

  /** The nodes of the first `i` resources are dummies. */
  ghost predicate ClearedUpTo(tree: StructuredHashTree, c: Converter, v: View, resources: seq<Resource>, i: nat)
    requires i <= |resources|
    reads tree
  {
    tree.View() == Trim(Dummied(v, KeysOfAll(c, resources[..i])))
  }

  lemma NothingCleared(tree: StructuredHashTree, c: Converter, resources: seq<Resource>)
    requires tree.Valid() && tree.Whole()
    ensures ClearedUpTo(tree, c, tree.View(), resources, 0)
  {
    tree.ValidView();
    assert KeysOfAll(c, resources[..0]) == {};
    DummiedNothing(tree.View(), {});
  }

  /** Sets the nodes of resources as dummies. */
  method Clear(tree: StructuredHashTree, c: Converter, resources: seq<Resource>, part: string)
    requires Fit(tree, part) && forall r :: r in resources ==> c.Rooted(r, part)
    modifies tree, tree.nodes.Values
    ensures Fit(tree, part) && tree.OnlyNewNodes(old(tree.nodes))
    ensures tree.View() == ClearAll(c, old(tree.View()), resources)
  {
    ghost var v := tree.View();
    NothingCleared(tree, c, resources);
    for i := 0 to |resources|
      invariant Fit(tree, part) && tree.OnlyNewNodes(old(tree.nodes))
      invariant ClearedUpTo(tree, c, v, resources, i)
    {
      ClearOne(tree, c, v, resources, i, part);
    }
    assert resources[..|resources|] == resources;
  }

  method ClearOne(tree: StructuredHashTree, c: Converter, ghost v: View, resources: seq<Resource>, i: nat, part: string)
    requires Fit(tree, part) && i < |resources| && c.Rooted(resources[i], part) && ClearedUpTo(tree, c, v, resources, i)
    modifies tree, tree.nodes.Values
    ensures Fit(tree, part) && tree.OnlyNewNodes(old(tree.nodes)) && ClearedUpTo(tree, c, v, resources, i + 1)
  {
    KeysOfOneMore(c, resources, i);
    ClearKeys(tree, c.convert(resources[i]).Keys, v, KeysOfAll(c, resources[..i]), part);
  }

  method ClearKeys(tree: StructuredHashTree, keys: set<Key>, ghost v: View, ghost done: set<Key>, part: string)
    requires Fit(tree, part) && [] !in keys && tree.View() == Trim(Dummied(v, done))
    modifies tree, tree.nodes.Values
    ensures Fit(tree, part) && tree.OnlyNewNodes(old(tree.nodes))
    ensures tree.View() == Trim(Dummied(v, done + keys))
  {
    var left := keys;
    ghost var cleared := done;
    while left != {}
      invariant Fit(tree, part) && tree.OnlyNewNodes(old(tree.nodes))
      invariant left <= keys && cleared + left == done + keys
      invariant tree.View() == Trim(Dummied(v, cleared))
    {
      var key :| key in left;
      ClearNext(tree, key, v, cleared, part);
      left, cleared := left - {key}, cleared + {key};
    }
    assert cleared + {} == cleared;
  }

  method ClearNext(tree: StructuredHashTree, key: Key, ghost v: View, ghost done: set<Key>, part: string)
    requires Fit(tree, part) && key != [] && tree.View() == Trim(Dummied(v, done))
    modifies tree, tree.nodes.Values
    ensures Fit(tree, part) && tree.OnlyNewNodes(old(tree.nodes))
    ensures tree.View() == Trim(Dummied(v, done + {key}))
  {
    tree.ValidView();
    ClearIsDummied(tree.View(), key);
    DummiedTwice(v, done, {key});
    ClearKey(tree, key, part);
  }
}
