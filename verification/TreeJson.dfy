/** The JSON form in which trees are stored, and reading it back. */
module TreeJson {
  import opened Keys
  import opened TreeStore
  import TreeDiff
  import opened StructuredTree

  function KeyJson(k: Key): Json {
    Arr(seq(|k|, i requires 0 <= i < |k| => Str(k[i])))
  }

  /** The tuple of the parts of a key. */
  function KeyOfJson(j: Json): Key {
    if j.Arr? then seq(|j.items|, i requires 0 <= i < |j.items| => if j.items[i].Str? then j.items[i].s else "") else []
  }

  lemma KeyRoundTrip(k: Key)
    ensures KeyOfJson(KeyJson(k)) == k
  {
  }

  function HashJson(h: Option<Digest>): Json {
    if h.Some? then Hex(h.value) else Null
  }

  function NodeJson(key: Key, partial: Digest, full: Option<Digest>, dummy: bool, error: bool, meta: Attrs,
                    children: seq<Json>): Json
  {
    Obj(map["key" := KeyJson(key), "partial_hash" := Hex(partial), "full_hash" := HashJson(full),
            "dummy" := Bool(dummy), "error" := Bool(error), "metadata" := Obj(meta), "_children" := Arr(children)])
  }

  /** The JSON form of the subtree at `k`. */
  ghost function JsonOf(s: Store, root: Key, k: Key): Json
    requires Shape(s, root) && k in s
    decreases Longest(s.Keys) - |k|, 1
  {
    NodeJson(k, s[k].partial, s[k].full, s[k].dummy, s[k].error, s[k].meta, KidsJson(s, root, k))
  }

  ghost function KidsJson(s: Store, root: Key, k: Key): (js: seq<Json>)
    requires Shape(s, root) && k in s
    ensures |js| == |s[k].kids|
    decreases Longest(s.Keys) - |k|, 0
  {
    seq(|s[k].kids|, i requires 0 <= i < |s[k].kids| =>
      (KidIsLonger(s, root, k, i); JsonOf(s, root, s[k].kids[i])))
  }

  lemma KidJson(s: Store, root: Key, k: Key, i: nat)
    requires Shape(s, root) && k in s && i < |s[k].kids|
    ensures s[k].kids[i] in s && KidsJson(s, root, k)[i] == JsonOf(s, root, s[k].kids[i])
  {
    KidIsLonger(s, root, k, i);
  }

  lemma KidIsLonger(s: Store, root: Key, k: Key, i: nat)
    requires Shape(s, root) && k in s && i < |s[k].kids|
    ensures s[k].kids[i] in s && |s[k].kids[i]| == |k| + 1 && k <= s[k].kids[i]
  {
    assert ShapeAt(s, root, k) && s[k].kids[i] in s[k].kids;
  }

  ghost function StoreJson(s: Store, root: Option<Key>): Json
    requires root.Some? ==> Shape(s, root.value)
  {
    if root.Some? then JsonOf(s, root.value, root.value) else Obj(map[])
  }

  lemma OneMoreOf(js: seq<Json>, i: nat)
    requires i < |js|
    ensures js[..i + 1] == js[..i] + [js[i]]
  {}

  /** Serialising a node and what is below it. */
  method ToDict(t: StructuredHashTree, node: Node) returns (j: Json)
    requires t.Valid() && t.root != null && t.Has(node)
    ensures j == JsonOf(t.store, t.root.key, node.key)
    decreases Longest(t.store.Keys) - |node.key|, 1
  {
    assert t.LinkedAt(node.key);
    ghost var kids := KidsJson(t.store, t.root.key, node.key);
    var children: seq<Json> := [];
    for i := 0 to |node.children|
      invariant children == kids[..i]
    {
      var child := ChildToDict(t, node, i);
      OneMoreOf(kids, i);
      children := children + [child];
    }
    assert kids[..|kids|] == kids;
    j := NodeJson(node.key, node.partialHash, node.fullHash, node.dummy, node.error, node.metadata, children);
  }

  method ChildToDict(t: StructuredHashTree, node: Node, i: nat) returns (j: Json)
    requires t.Valid() && t.root != null && t.Has(node) && i < |node.children|
    ensures node.key in t.store && i < |t.store[node.key].kids| && j == KidsJson(t.store, t.root.key, node.key)[i]
    decreases Longest(t.store.Keys) - |node.key|, 0
  {
    ghost var s, k := t.store, node.key;
    assert t.LinkedAt(k);
    KidIsLonger(s, t.root.key, k, i);
    KidJson(s, t.root.key, k, i);
    assert node.children[i].key == s[k].kids[i];
    j := ToDict(t, node.children[i]);
  }

  method ToString(t: StructuredHashTree) returns (j: Json)
    requires t.Valid()
    ensures j == StoreJson(t.store, if t.root == null then None else Some(t.root.key))
  {
    if t.root == null {
      j := Obj(map[]);
    } else {
      j := ToDict(t, t.root);
    }
  }

  /** Serialisation loses nothing: the same text means the same nodes. */
  lemma {:induction false} JsonDetermines(s: Store, sr: Key, t: Store, tr: Key, k: Key, j: Key)
    requires Shape(s, sr) && Shape(t, tr) && k in s && k in t
    requires JsonOf(s, sr, k) == JsonOf(t, tr, k)
    requires j in s && k <= j
    ensures j in t && s[j] == t[j]
    decreases |j| - |k|
  {
    var a, b := JsonOf(s, sr, k), JsonOf(t, tr, k);
    NodeFields(s, sr, k);
    NodeFields(t, tr, k);
    SameKids(s, sr, t, tr, k);
    if j == k {
    } else {
      var c := j[..|k| + 1];
      assert ShapeAt(s, sr, k);
      AncestorsPresent(s, sr, j, |k| + 1);
      assert Parent(c) == k && ShapeAt(s, sr, c);
      var i :| 0 <= i < |s[k].kids| && s[k].kids[i] == c;
      KidJson(s, sr, k, i);
      KidJson(t, tr, k, i);
      JsonDetermines(s, sr, t, tr, c, j);
    }
  }

  lemma NodeFields(s: Store, root: Key, k: Key)
    requires Shape(s, root) && k in s
    ensures var f := JsonOf(s, root, k).fields;
      && f["partial_hash"] == Hex(s[k].partial) && f["full_hash"] == HashJson(s[k].full)
      && f["dummy"] == Bool(s[k].dummy) && f["error"] == Bool(s[k].error) && f["metadata"] == Obj(s[k].meta)
      && f["key"] == KeyJson(k) && f["_children"] == Arr(KidsJson(s, root, k))
  {
  }

  /**
   The text of a node: an object with these seven entries, in which the key is the list of its parts, and
   the children follow in order, each with its own text.
   */
  lemma TextOfNode(s: Store, root: Key, k: Key)
    requires Good(s, root) && k in s
    ensures var j := JsonOf(s, root, k);
      && j.Obj?
      && j.fields.Keys == {"key", "partial_hash", "full_hash", "dummy", "error", "metadata", "_children"}
      && j.fields["partial_hash"] == Hex(s[k].partial) && s[k].full.Some?
      && j.fields["full_hash"] == Hex(s[k].full.value) && j.fields["dummy"] == Bool(s[k].dummy)
      && j.fields["error"] == Bool(s[k].error) && j.fields["metadata"] == Obj(s[k].meta)
    ensures var key := JsonOf(s, root, k).fields["key"];
      key.Arr? && |key.items| == |k| && forall i :: 0 <= i < |k| ==> key.items[i] == Str(k[i])
    ensures var children := JsonOf(s, root, k).fields["_children"];
      && children.Arr? && |children.items| == |s[k].kids|
      && forall i :: 0 <= i < |s[k].kids| ==>
           s[k].kids[i] in s && children.items[i] == JsonOf(s, root, s[k].kids[i])
  {
    NodeFields(s, root, k);
    assert HashAt(s, k);
    forall i | 0 <= i < |s[k].kids|
      ensures s[k].kids[i] in s && KidsJson(s, root, k)[i] == JsonOf(s, root, s[k].kids[i])
    {
      KidJson(s, root, k, i);
    }
  }

  lemma SameKids(s: Store, sr: Key, t: Store, tr: Key, k: Key)
    requires Shape(s, sr) && Shape(t, tr) && k in s && k in t
    requires JsonOf(s, sr, k) == JsonOf(t, tr, k)
    ensures s[k].kids == t[k].kids
  {
    NodeFields(s, sr, k);
    NodeFields(t, tr, k);
    forall i | 0 <= i < |s[k].kids| ensures s[k].kids[i] == t[k].kids[i] {
      KidJson(s, sr, k, i);
      KidJson(t, tr, k, i);
      NodeFields(s, sr, s[k].kids[i]);
      NodeFields(t, tr, t[k].kids[i]);
      KeyRoundTrip(s[k].kids[i]);
      KeyRoundTrip(t[k].kids[i]);
    }
  }

  // ---------------------------------------------------------------- reading it back

  /** The node objects `ns` hold what `s` says of their keys, and refer to each other. */
  ghost predicate BuiltAt(ns: map<Key, Node>, s: Store, j: Key)
    requires j in ns
    reads ns.Values
  {
    && ns[j].key == j && j in s && StructuredHashTree.RecOf(ns[j]) == s[j]
    && forall c :: c in ns[j].children ==> c.key in ns && ns[c.key] == c
  }

  ghost predicate Built(ns: map<Key, Node>, s: Store)
    reads ns.Values
  {
    forall j {:trigger BuiltAt(ns, s, j)} :: j in ns ==> BuiltAt(ns, s, j)
  }

  ghost function KeysUnder(s: Store, ks: seq<Key>): set<Key> {
    set j | j in s && TreeDiff.Under(ks, j)
  }

  lemma BuiltTogether(ns: map<Key, Node>, ms: map<Key, Node>, s: Store)
    requires Built(ns, s) && Built(ms, s) && ns.Keys !! ms.Keys
    ensures Built(ns + ms, s)
  {
    forall j | j in ns + ms ensures BuiltAt(ns + ms, s, j) {
      assert j in ms ==> BuiltAt(ms, s, j);
      assert j in ns ==> BuiltAt(ns, s, j);
    }
  }

  lemma KeysUnderStep(s: Store, root: Key, k: Key, i: nat)
    requires Shape(s, root) && k in s && i < |s[k].kids|
    ensures KeysUnder(s, s[k].kids[..i + 1]) == KeysUnder(s, s[k].kids[..i]) + Below(s, s[k].kids[i]).Keys
    ensures KeysUnder(s, s[k].kids[..i]) !! Below(s, s[k].kids[i]).Keys
    ensures k !in KeysUnder(s, s[k].kids[..i + 1])
  {
    var ks := s[k].kids;
    TreeDiff.KidsAreSiblings(s, root, k);
    forall j ensures TreeDiff.Under(ks[..i + 1], j) <==> TreeDiff.Under(ks[..i], j) || ks[i] <= j {
      TreeDiff.UnderStep(ks, i, j);
    }
    forall j | ks[i] <= j ensures !TreeDiff.Under(ks[..i], j) {
      TreeDiff.UnderOne(ks, i, j);
    }
    assert ShapeAt(s, root, k);
    assert !TreeDiff.Under(ks, k);
    assert forall c :: c in ks[..i + 1] ==> c in ks;
  }

  lemma KeysUnderAll(s: Store, root: Key, k: Key)
    requires Shape(s, root) && k in s
    ensures {k} + KeysUnder(s, s[k].kids) == Below(s, k).Keys
  {
    forall j | j in s ensures k <= j <==> j == k || TreeDiff.Under(s[k].kids, j) {
      TreeDiff.BelowIsUnderKids(s, root, k, j);
    }
  }

  /** Puts the next child, already sorted after the others, into the node being built. */
  method AppendChild(node: Node, child: Node, ghost kids: seq<Key>, ghost i: nat)
    requires Sorted(kids) && i < |kids| && KeysOf(node.children) == kids[..i] && child.key == kids[i]
    modifies node`children
    ensures KeysOf(node.children) == kids[..i + 1]
    ensures forall c :: c in node.children ==> c == child || c in old(node.children)
  {
    node.AddChild(child);
    assert kids[..i + 1] == kids[..i] + [kids[i]];
    SortedUnique(KeysOf(node.children), kids[..i + 1]);
  }

  /** A node object with the fields of its JSON form, and no children yet. */
  method NewNode(j: Json, ghost k: Key, ghost r: Rec, ghost children: seq<Json>) returns (node: Node, items: seq<Json>)
    requires j == NodeJson(k, r.partial, r.full, r.dummy, r.error, r.meta, children) && r.full.Some?
    ensures fresh(node) && node.key == k && node.children == [] && items == children
    ensures SameFields(node, r)
  {
    KeyRoundTrip(k);
    var f := j.fields;
    node := new Node(KeyOfJson(f["key"]), f["partial_hash"].digest, Some(f["full_hash"].digest),
      f["dummy"].b, f["metadata"].fields, f["error"].b);
    items := f["_children"].items;
  }

  ghost predicate SameFields(node: Node, r: Rec)
    reads node
  {
    && node.partialHash == r.partial && node.fullHash == r.full && node.dummy == r.dummy
    && node.error == r.error && node.metadata == r.meta
  }

  /** The first `i` children of `node` are in place, and `below` holds everything below them. */
  ghost predicate Growing(node: Node, s: Store, k: Key, i: nat, below: map<Key, Node>)
    requires k in s && i <= |s[k].kids|
    reads node, below.Values
  {
    && node.key == k && SameFields(node, s[k])
    && node !in below.Values && below.Keys == KeysUnder(s, s[k].kids[..i]) && Built(below, s)
    && KeysOf(node.children) == s[k].kids[..i]
    && forall c :: c in node.children ==> c.key in below && below[c.key] == c
  }

  /** `more` holds what is below the first `i + 1` children of `node`, of which only the last is not in place. */
  ghost predicate Ready(node: Node, child: Node, s: Store, k: Key, i: nat, more: map<Key, Node>)
    requires k in s && i < |s[k].kids|
    reads node, more.Values
  {
    && node.key == k && SameFields(node, s[k])
    && node !in more.Values && more.Keys == KeysUnder(s, s[k].kids[..i + 1]) && Built(more, s)
    && KeysOf(node.children) == s[k].kids[..i] && Sorted(s[k].kids) && child.key == s[k].kids[i]
    && child.key in more && more[child.key] == child
    && forall c :: c in node.children ==> c.key in more && more[c.key] == c
  }

  lemma MergedValues(node: Node, below: map<Key, Node>, ms: map<Key, Node>)
    requires node !in below.Values && node !in ms.Values
    ensures node !in (below + ms).Values
  {
    var more := below + ms;
    forall j | j in more ensures more[j] != node {
      if j in ms {
        assert ms[j] in ms.Values;
      } else {
        assert below[j] in below.Values;
      }
    }
  }

  lemma MergedKeys(s: Store, root: Key, k: Key, i: nat, below: map<Key, Node>, ms: map<Key, Node>)
    requires Shape(s, root) && k in s && i < |s[k].kids|
    requires below.Keys == KeysUnder(s, s[k].kids[..i]) && ms.Keys == Below(s, s[k].kids[i]).Keys
    ensures (below + ms).Keys == KeysUnder(s, s[k].kids[..i + 1]) && below.Keys !! ms.Keys
  {
    KeysUnderStep(s, root, k, i);
  }

  lemma SubtreesMerge(node: Node, child: Node, s: Store, root: Key, k: Key, i: nat, below: map<Key, Node>,
                      ms: map<Key, Node>)
    requires Shape(s, root) && k in s && i < |s[k].kids| && Growing(node, s, k, i, below)
    requires child.key == s[k].kids[i] && child.key in ms && ms[child.key] == child
    requires ms.Keys == Below(s, child.key).Keys && Built(ms, s) && node !in ms.Values
    ensures Ready(node, child, s, k, i, below + ms)
  {
    MergedKeys(s, root, k, i, below, ms);
    BuiltTogether(below, ms, s);
    MergedValues(node, below, ms);
    assert ShapeAt(s, root, k);
  }

  method HangChild(node: Node, child: Node, ghost s: Store, ghost k: Key, ghost i: nat, ghost more: map<Key, Node>)
    requires k in s && i < |s[k].kids| && Ready(node, child, s, k, i, more)
    modifies node`children
    ensures Growing(node, s, k, i + 1, more)
  {
    AppendChild(node, child, s[k].kids, i);
  }

  /** Hanging a finished subtree under the node being built. */
  method Attach(node: Node, child: Node, ghost s: Store, ghost root: Key, ghost k: Key, ghost i: nat,
                ghost below: map<Key, Node>, ghost ms: map<Key, Node>) returns (ghost more: map<Key, Node>)
    requires Shape(s, root) && k in s && i < |s[k].kids| && Growing(node, s, k, i, below)
    requires child.key == s[k].kids[i] && child.key in ms && ms[child.key] == child
    requires ms.Keys == Below(s, child.key).Keys && Built(ms, s) && node !in ms.Values
    modifies node`children
    ensures more == below + ms && Growing(node, s, k, i + 1, more)
  {
    more := below + ms;
    SubtreesMerge(node, child, s, root, k, i, below, ms);
    HangChild(node, child, s, k, i, more);
  }

  lemma GrowingStarts(node: Node, s: Store, k: Key)
    requires k in s && node.key == k && SameFields(node, s[k]) && node.children == []
    ensures Growing(node, s, k, 0, map[])
  {
  }

  lemma GrownKeys(s: Store, root: Key, k: Key, keys: set<Key>)
    requires Shape(s, root) && k in s && keys == KeysUnder(s, s[k].kids[..|s[k].kids|])
    ensures keys + {k} == Below(s, k).Keys && k !in keys
  {
    assert s[k].kids[..|s[k].kids|] == s[k].kids;
    KeysUnderAll(s, root, k);
    TreeDiff.UnderKidsIsBelow(s, root, k, k);
  }

  lemma GrownIsBuilt(node: Node, s: Store, k: Key, below: map<Key, Node>)
    requires k in s && Growing(node, s, k, |s[k].kids|, below) && k !in below
    ensures Built(below[k := node], s)
  {
    var ns := below[k := node];
    assert s[k].kids[..|s[k].kids|] == s[k].kids;
    forall n | n in ns ensures BuiltAt(ns, s, n) {
      if n != k {
        assert BuiltAt(below, s, n);
      }
    }
  }

  lemma GrowingEnds(node: Node, s: Store, root: Key, k: Key, below: map<Key, Node>)
    requires Shape(s, root) && k in s && Growing(node, s, k, |s[k].kids|, below)
    ensures Built(below[k := node], s) && below[k := node].Keys == Below(s, k).Keys
  {
    GrownKeys(s, root, k, below.Keys);
    GrownIsBuilt(node, s, k, below);
  }

  method BuildTree(j: Json, ghost s: Store, ghost root: Key, ghost k: Key)
    returns (node: Node, ghost ns: map<Key, Node>)
    requires Good(s, root) && k in s && j == JsonOf(s, root, k)
    ensures (forall n :: n in ns ==> fresh(ns[n])) && node.key == k && k in ns && ns[k] == node
    ensures ns.Keys == Below(s, k).Keys && Built(ns, s)
    decreases Longest(s.Keys) - |k|, 2
  {
    assert HashAt(s, k);
    var items;
    node, items := NewNode(j, k, s[k], KidsJson(s, root, k));
    GrowingStarts(node, s, k);
    ghost var below := BuildChildren(node, items, s, root, k);
    GrowingEnds(node, s, root, k, below);
    ns := below[k := node];
  }

  method BuildChildren(node: Node, items: seq<Json>, ghost s: Store, ghost root: Key, ghost k: Key)
    returns (ghost below: map<Key, Node>)
    requires Good(s, root) && k in s && items == KidsJson(s, root, k) && Growing(node, s, k, 0, map[])
    modifies node`children
    ensures (forall n :: n in below ==> fresh(below[n])) && Growing(node, s, k, |s[k].kids|, below)
    decreases Longest(s.Keys) - |k|, 1
  {
    below := map[];
    var i := 0;
    while i < |items|
      invariant 0 <= i <= |items| && (forall n :: n in below ==> fresh(below[n])) && Growing(node, s, k, i, below)
    {
      below := BuildNext(node, items, s, root, k, i, below);
      i := i + 1;
    }
  }

  method BuildNext(node: Node, items: seq<Json>, ghost s: Store, ghost root: Key, ghost k: Key, i: nat,
                   ghost below: map<Key, Node>)
    returns (ghost more: map<Key, Node>)
    requires Good(s, root) && k in s && items == KidsJson(s, root, k) && i < |items| && Growing(node, s, k, i, below)
    modifies node`children
    ensures forall n :: n in more ==> (n in below && more[n] == below[n]) || fresh(more[n])
    ensures Growing(node, s, k, i + 1, more)
    decreases Longest(s.Keys) - |k|, 0
  {
    KidIsLonger(s, root, k, i);
    KidJson(s, root, k, i);
    var child;
    ghost var ms;
    child, ms := BuildTree(items[i], s, root, s[k].kids[i]);
    more := Attach(node, child, s, root, k, i, below, ms);
  }

  lemma NodeIsNotEmpty(s: Store, root: Option<Key>)
    requires root.Some? ==> Shape(s, root.value)
    ensures root.Some? ==> StoreJson(s, root) != Obj(map[])
  {
    if root.Some? {
      NodeFields(s, root.value, root.value);
      assert "key" in JsonOf(s, root.value, root.value).fields;
    }
  }

  /**
   Reading the text of a tree gives back every field of every node and the order of the children;
   the text of an empty tree gives an empty tree with the supplied root key.
   */
  method FromString(j: Json, rootKey: Option<Key>, hasPopulated: bool, ghost s: Store, ghost root: Option<Key>)
    returns (t: StructuredHashTree)
    requires if root.Some? then Good(s, root.value) else s == map[]
    requires j == StoreJson(s, root)
    ensures fresh(t) && t.Valid() && t.store == s && t.hasPopulated == hasPopulated
    ensures forall n :: n in t.nodes ==> fresh(t.nodes[n])
    ensures if root.Some? then t.root != null && t.root.key == root.value else t.root == null && t.rootKey == rootKey
  {
    NodeIsNotEmpty(s, root);
    if j == Obj(map[]) {
      t := new StructuredHashTree(rootKey, hasPopulated);
    } else {
      var node;
      ghost var ns;
      node, ns := BuildTree(j, s, root.value, root.value);
      BelowRootIsAll(s, root.value);
      forall k | k in ns ensures BuiltAt(ns, s, k) {
      }
      t := new StructuredHashTree.OfNode(node, hasPopulated, ns, s);
    }
  }

  lemma BelowRootIsAll(s: Store, root: Key)
    requires Shape(s, root)
    ensures Below(s, root).Keys == s.Keys
  {
    forall k | k in s ensures root <= k {
      assert ShapeAt(s, root, k);
    }
  }

  /** The round trip of a whole tree: what is read back is what was written. */
  method Reload(t: StructuredHashTree) returns (u: StructuredHashTree)
    requires t.Valid()
    ensures fresh(u) && u.Valid() && u.store == t.store && u.hasPopulated == t.hasPopulated
    ensures (u.root == null) == (t.root == null) && u.rootKey == t.rootKey
    ensures u.RootFullHash() == t.RootFullHash()
  {
    var j := ToString(t);
    u := FromString(j, t.rootKey, t.hasPopulated, t.store, if t.root == null then None else Some(t.root.key));
    if t.root != null {
      assert t.LinkedAt(t.root.key) && u.LinkedAt(u.root.key);
    }
  }
}
