/** The structured hash tree: node objects, their ordered children and the tree operations. */
module StructuredTree {
  import opened Keys
  import opened TreeStore
  import opened TreeTheory
  import opened TreeDiff

  function KeysOf(cs: seq<Node>): (ks: seq<Key>)
    ensures |ks| == |cs| && forall i :: 0 <= i < |cs| ==> ks[i] == cs[i].key
  {
    seq(|cs|, i requires 0 <= i < |cs| => cs[i].key)
  }

  class Node {
    const key: Key
    var partialHash: Digest
    var fullHash: Option<Digest>
    var dummy: bool
    var error: bool
    var metadata: Attrs
    var children: seq<Node>

    constructor (key: Key, partialHash: Digest, fullHash: Option<Digest> := None, dummy: bool := true,
                 metadata: Attrs := map[], error: bool := false)
      ensures this.key == key && this.partialHash == partialHash
      ensures this.fullHash == (if fullHash.Some? then fullHash else Some(partialHash))
      ensures this.dummy == dummy && this.metadata == metadata && this.error == error && children == []
    {
      this.key, this.partialHash := key, partialHash;
      this.fullHash := if fullHash.Some? then fullHash else Some(partialHash);
      this.dummy, this.metadata, this.error, this.children := dummy, metadata, error, [];
    }

    /** The position of the node with this key in a list of siblings, by bisection. */
    static method IndexOf(children: seq<Node>, k: Key) returns (i: Option<nat>)
      requires Sorted(KeysOf(children))
      ensures i.Some? ==> i.value < |children| && children[i.value].key == k
      ensures i.None? ==> k !in KeysOf(children)
    {
      ghost var ks := KeysOf(children);
      var lo, hi := 0, |children|;
      while lo < hi
        invariant 0 <= lo <= hi <= |children|
        invariant forall j :: 0 <= j < lo ==> KeyLess(ks[j], k)
        invariant forall j :: hi <= j < |ks| ==> !KeyLess(ks[j], k)
      {
        var mid := (lo + hi) / 2;
        if KeyLess(children[mid].key, k) {
          forall j | 0 <= j <= mid ensures KeyLess(ks[j], k) {
            if j < mid { KeyLessTransitive(ks[j], ks[mid], k); }
          }
          lo := mid + 1;
        } else {
          forall j | mid <= j < |ks| ensures !KeyLess(ks[j], k) {
            if j > mid && KeyLess(ks[j], k) { KeyLessTransitive(ks[mid], ks[j], k); }
          }
          hi := mid;
        }
      }
      if lo != |children| && children[lo].key == k {
        return Some(lo);
      }
      forall j | 0 <= j < |ks| ensures ks[j] != k {
        KeyLessOrder(ks[j], k);
        if j >= lo {
          KeyLessOrder(ks[lo], k);
          if j > lo { KeyLessTransitive(k, ks[lo], ks[j]); }
        }
      }
      return None;
    }

    /** Puts a child in its place, replacing one of the same key. */
    method AddChild(item: Node)
      requires Sorted(KeysOf(children))
      modifies this`children
      ensures Sorted(KeysOf(children))
      ensures forall k :: k in KeysOf(children) <==> k in old(KeysOf(children)) || k == item.key
      ensures forall c :: c in children ==> c == item || (c in old(children) && c.key != item.key)
    {
      var i := IndexOf(children, item.key);
      ghost var ks := KeysOf(children);
      if i.Some? {
        ReplacedInPlace(children, item, i.value);
        children := children[i.value := item];
        return;
      }
      var lo, hi := 0, |children|;
      while lo < hi
        invariant 0 <= lo <= hi <= |children|
        invariant forall j :: 0 <= j < lo ==> !KeyLess(item.key, ks[j])
        invariant forall j :: hi <= j < |ks| ==> KeyLess(item.key, ks[j])
      {
        var mid := (lo + hi) / 2;
        if KeyLess(item.key, children[mid].key) {
          forall j | mid <= j < |ks| ensures KeyLess(item.key, ks[j]) {
            if j > mid { KeyLessTransitive(item.key, ks[mid], ks[j]); }
          }
          hi := mid;
        } else {
          forall j | 0 <= j <= mid ensures !KeyLess(item.key, ks[j]) {
            if j < mid && KeyLess(item.key, ks[j]) { KeyLessTransitive(item.key, ks[j], ks[mid]); }
          }
          lo := mid + 1;
        }
      }
      InsertedSorted(children, item, lo);
      children := children[..lo] + [item] + children[lo..];
    }

    static lemma ReplacedInPlace(cs: seq<Node>, item: Node, at: nat)
      requires at < |cs| && Sorted(KeysOf(cs)) && cs[at].key == item.key
      ensures KeysOf(cs[at := item]) == KeysOf(cs)
      ensures item.key in KeysOf(cs)
      ensures forall c :: c in cs[at := item] ==> c == item || (c in cs && c.key != item.key)
    {
      assert KeysOf(cs)[at] == item.key;
      forall c | c in cs[at := item] ensures c == item || (c in cs && c.key != item.key) {
        var i :| 0 <= i < |cs| && cs[at := item][i] == c;
        if i != at {
          KeyLessOrder(KeysOf(cs)[i], KeysOf(cs)[at]);
        }
      }
    }

    static lemma InsertedSorted(cs: seq<Node>, item: Node, at: nat)
      requires at <= |cs| && Sorted(KeysOf(cs)) && item.key !in KeysOf(cs)
      requires forall j :: 0 <= j < at ==> !KeyLess(item.key, KeysOf(cs)[j])
      requires forall j :: at <= j < |cs| ==> KeyLess(item.key, KeysOf(cs)[j])
      ensures Sorted(KeysOf(cs[..at] + [item] + cs[at..]))
      ensures forall k :: k in KeysOf(cs[..at] + [item] + cs[at..]) <==> k in KeysOf(cs) || k == item.key
      ensures forall c :: c in cs[..at] + [item] + cs[at..] ==> c == item || (c in cs && c.key != item.key)
    {
      var ks := KeysOf(cs);
      var ks' := KeysOf(cs[..at] + [item] + cs[at..]);
      assert ks' == ks[..at] + [item.key] + ks[at..];
      forall j | 0 <= j < at ensures KeyLess(ks[j], item.key) {
        KeyLessOrder(ks[j], item.key);
        assert ks[j] in ks;
      }
      forall c | c in cs[..at] + [item] + cs[at..] ensures c == item || (c in cs && c.key != item.key) {
        if c != item {
          var i :| 0 <= i < |cs| && cs[i] == c;
          assert ks[i] == c.key;
        }
      }
    }

    method RemoveChild(k: Key)
      requires Sorted(KeysOf(children))
      modifies this`children
      ensures Sorted(KeysOf(children))
      ensures forall j :: j in KeysOf(children) <==> j in old(KeysOf(children)) && j != k
      ensures forall c :: c in children ==> c in old(children)
    {
      var i := IndexOf(children, k);
      if i.Some? {
        ghost var ks := KeysOf(children);
        var at := i.value;
        children := children[..at] + children[at + 1..];
        assert KeysOf(children) == ks[..at] + ks[at + 1..];
        assert ks[at] == k;
        forall j | j in ks && j != k ensures j in KeysOf(children) {
          var n :| 0 <= n < |ks| && ks[n] == j;
          assert j == (if n < at then ks[..at][n] else ks[at + 1..][n - at - 1]);
        }
        forall n | 0 <= n < |ks| && n != at ensures ks[n] != k {
          KeyLessOrder(ks[n], k);
        }
      }
    }

    /** The child with this key, if there is one. */
    method GetChild(k: Key) returns (child: Node?)
      requires Sorted(KeysOf(children))
      ensures child == null <==> k !in KeysOf(children)
      ensures child != null ==> child in children && child.key == k
    {
      var i := IndexOf(children, k);
      if i.Some? {
        assert KeysOf(children)[i.value] == k;
        return children[i.value];
      }
      return null;
    }
  }

  datatype Error = MultipleRootTreeError | IndexError | KeyError

  class StructuredHashTree {
    var root: Node?
    var rootKey: Option<Key>
    var hasPopulated: bool
    /** The node objects of the tree by key, and what they hold. */
    ghost var nodes: map<Key, Node>
    ghost var store: Store

    static ghost function RecOf(n: Node): Rec
      reads n
    {
      Rec(n.partialHash, n.fullHash, n.dummy, n.error, n.metadata, KeysOf(n.children))
    }

    /** Node objects refer to each other by key, and `store` records what they hold. */
    ghost predicate Linked()
      reads this`nodes, this`store, nodes.Values
    {
      store.Keys == nodes.Keys && forall k {:trigger LinkedAt(k)} :: k in nodes ==> LinkedAt(k)
    }

    ghost predicate LinkedAt(k: Key)
      requires k in nodes
      reads this`nodes, this`store, nodes.Values
    {
      && nodes[k].key == k
      && k in store && RecOf(nodes[k]) == store[k]
      && forall c :: c in nodes[k].children ==> c.key in nodes && nodes[c.key] == c
    }

    static ghost predicate IsNode(ns: map<Key, Node>, n: Node) {
      n.key in ns && ns[n.key] == n
    }

    ghost predicate Has(n: Node)
      reads this`nodes
    {
      IsNode(nodes, n)
    }

    ghost predicate Valid()
      reads this, nodes.Values
    {
      && Linked()
      && if root == null then nodes == map[] else Has(root) && rootKey == Some(root.key) && Good(store, root.key)
    }

    ghost function View(): View
      reads this`store
    {
      ViewOf(store)
    }

    // -------------------------------------------------------------- steps on node objects

    /** A new node, hung under `node`. */
    method HangNew(node: Node, k: Key) returns (child: Node)
      requires Linked() && Has(node) && k !in nodes && Sorted(KeysOf(node.children))
      modifies this`nodes, this`store, node`children
      ensures fresh(child) && nodes == old(nodes)[k := child]
      ensures Linked()
      ensures Sorted(KeysOf(node.children))
      ensures forall j :: j in KeysOf(node.children) <==> j in old(KeysOf(node.children)) || j == k
      ensures store == old(store)[node.key := old(store)[node.key].(kids := KeysOf(node.children))][k := Placeholder(k)]
    {
      child := new Node(k, AttrHash(k, true, map[]));
      node.AddChild(child);
      nodes := nodes[k := child];
      store := store[node.key := store[node.key].(kids := KeysOf(node.children))][k := Placeholder(k)];
      forall j | j in nodes ensures LinkedAt(j) {
        if j != k {
          assert old(LinkedAt(j));
        }
      }
    }

    method SetNewChild(node: Node, k: Key, ghost rk: Key) returns (child: Node)
      requires Linked() && Has(node) && k != [] && Parent(k) == node.key && k !in nodes
      requires Stale(store, rk, node.key, |node.key|)
      modifies this`nodes, this`store, node`children
      ensures Linked() && fresh(child) && nodes == old(nodes)[k := child]
      ensures Stale(store, rk, k, |k|)
      ensures View() == old(View())[k := PlaceholderVal()]
    {
      ghost var s := store;
      assert ShapeAt(s, rk, node.key) && LinkedAt(node.key);
      child := HangNew(node, k);
      AddChildStep(s, rk, node.key, k, KeysOf(node.children), store);
    }

    /** A node's child is found exactly when the tree has a node with that key. */
    method ChildOf(node: Node, k: Key, ghost rk: Key) returns (child: Node?)
      requires Linked() && Has(node) && k != [] && Parent(k) == node.key && Shape(store, rk)
      requires k != rk
      ensures child == if k in nodes then nodes[k] else null
    {
      assert ShapeAt(store, rk, node.key) && LinkedAt(node.key);
      child := node.GetChild(k);
      if k in nodes {
        assert ShapeAt(store, rk, k);
      }
    }

    /** The child with this key; where there is none, a placeholder is hung. */
    method SetChild(node: Node, k: Key, ghost rk: Key) returns (child: Node)
      requires Linked() && Has(node) && k != [] && Parent(k) == node.key
      requires Stale(store, rk, node.key, |node.key|)
      modifies this`nodes, this`store, node`children
      ensures Linked()
      ensures if k in old(nodes) then child == old(nodes)[k] && nodes == old(nodes)
              else fresh(child) && nodes == old(nodes)[k := child]
      ensures Stale(store, rk, k, |k|)
      ensures View() == (if k in old(nodes) then old(View()) else old(View())[k := PlaceholderVal()])
    {
      assert ShapeAt(store, rk, node.key);
      var found := ChildOf(node, k, rk);
      if found == null {
        child := SetNewChild(node, k, rk);
      } else {
        DescendStep(store, rk, node.key, k);
        child := found;
      }
    }

    /** Bringing `store` up to date with the fields of one node. */
    ghost method Record(node: Node)
      requires store.Keys == nodes.Keys && Has(node)
      requires forall j {:trigger LinkedAt(j)} :: j in nodes && j != node.key ==> LinkedAt(j)
      requires forall c :: c in node.children ==> c.key in nodes && nodes[c.key] == c
      modifies this`store
      ensures Linked()
      ensures store == old(store)[node.key := RecOf(node)]
    {
      store := store[node.key := RecOf(node)];
      forall j | j in nodes ensures LinkedAt(j) {
        assert j != node.key ==> old(LinkedAt(j));
      }
    }

    method WriteReal(node: Node, attrs: Attrs, m: MetaArg, error: bool)
      requires Linked() && Has(node)
      modifies this`store, node`dummy, node`partialHash, node`error, node`metadata
      ensures Linked()
      ensures var r := old(store)[node.key];
        store == old(store)[node.key := Rec(AttrHash(node.key, false, attrs), r.full, false, error,
          NewMeta(r.meta, m), r.kids)]
    {
      assert LinkedAt(node.key);
      node.dummy := false;
      node.partialHash := AttrHash(node.key, node.dummy, attrs);
      node.error := error;
      node.metadata := NewMeta(node.metadata, m);
      forall j | j in nodes && j != node.key ensures LinkedAt(j) {
        assert old(LinkedAt(j));
      }
      Record(node);
    }

    method WriteDummy(node: Node)
      requires Linked() && Has(node)
      modifies this`store, node`dummy, node`partialHash, node`fullHash
      ensures Linked()
      ensures var r := old(store)[node.key];
        store == old(store)[node.key := Rec(AttrHash(node.key, true, map[]), None, true, r.error, r.meta, r.kids)]
    {
      assert LinkedAt(node.key);
      node.dummy := true;
      node.partialHash := AttrHash(node.key, node.dummy, map[]);
      node.fullHash := None;
      forall j | j in nodes && j != node.key ensures LinkedAt(j) {
        assert old(LinkedAt(j));
      }
      Record(node);
    }

    method WriteFull(node: Node, full: Digest)
      requires Linked() && Has(node)
      modifies this`store, node`fullHash
      ensures Linked()
      ensures store == old(store)[node.key := old(store)[node.key].(full := Some(full))]
    {
      assert LinkedAt(node.key);
      node.fullHash := Some(full);
      forall j | j in nodes && j != node.key ensures LinkedAt(j) {
        assert old(LinkedAt(j));
      }
      Record(node);
    }

    /** Explicitly adding a node: it is real from now on. */
    method SetReal(node: Node, attrs: Attrs, m: MetaArg, error: bool, ghost rk: Key)
      requires Linked() && Has(node) && Stale(store, rk, node.key, |node.key|)
      modifies this`store, node`dummy, node`partialHash, node`error, node`metadata
      ensures Linked() && Stale(store, rk, node.key, |node.key|)
      ensures View() == old(View())[node.key := Val(false, attrs, error, NewMeta(old(View())[node.key].meta, m))]
    {
      ghost var s := store;
      WriteReal(node, attrs, m, error);
      SetNodeStep(s, rk, node.key, store[node.key], store);
    }

    /** Setting a node as dummy; its full hash is to be recomputed. */
    method SetDummy(node: Node, ghost rk: Key)
      requires Linked() && Has(node) && Stale(store, rk, node.key, |node.key|)
      modifies this`store, node`dummy, node`partialHash, node`fullHash
      ensures Linked() && Stale(store, rk, node.key, |node.key|)
      ensures View() == old(View())[node.key := old(View())[node.key].(dummy := true, attrs := map[])]
    {
      ghost var s := store;
      WriteDummy(node);
      SetNodeStep(s, rk, node.key, store[node.key], store);
    }

    /** The digests of a node's children, in order. */
    method ChildHashes(node: Node) returns (hashes: seq<Digest>)
      requires Linked() && Has(node) && KidsHashed(store, store[node.key].kids)
      ensures hashes == KidHashes(store, store[node.key].kids)
    {
      assert LinkedAt(node.key);
      ghost var kids := store[node.key].kids;
      hashes := [];
      var i := 0;
      while i < |node.children|
        invariant 0 <= i <= |node.children|
        invariant |hashes| == i
        invariant forall j :: 0 <= j < i ==> kids[j] in kids && hashes[j] == store[kids[j]].full.value
      {
        assert node.children[i].key == kids[i] && kids[i] in kids;
        assert LinkedAt(kids[i]);
        hashes := hashes + [node.children[i].fullHash.value];
        i := i + 1;
      }
    }

    /** Recomputing the full hash of one node from its children. */
    method Rehash(node: Node, ghost top: Key, ghost rk: Key)
      requires Linked() && Has(node) && node.key <= top && Stale(store, rk, top, |node.key|)
      modifies this`store, node`fullHash
      ensures Linked() && Stale(store, rk, top, |node.key| - 1)
      ensures View() == old(View()) && SameKids(old(store), store)
    {
      ghost var s := store;
      KidsAreHashed(s, rk, top, node.key);
      assert LinkedAt(node.key);
      var hashes := ChildHashes(node);
      WriteFull(node, NodeHash(node.partialHash, hashes));
      RehashStep(s, rk, top, node.key, store);
    }

    static lemma KeyOfChild(cs: seq<Node>, c: Node)
      requires c in cs
      ensures c.key in KeysOf(cs)
    {
      var i :| 0 <= i < |cs| && cs[i] == c;
      assert KeysOf(cs)[i] == c.key;
    }

    ghost predicate OnlyLink(k: Key, p: Key)
      reads this`store
    {
      forall j, d :: j in store && !(k <= j) && d in store[j].kids && k <= d ==> d == k && j == p
    }

    static ghost function NodesWithout(ns: map<Key, Node>, k: Key): map<Key, Node> {
      map j | j in ns && !(k <= j) :: ns[j]
    }

    static lemma ChildrenLeft(cs: seq<Node>, before: seq<Node>, nodes: map<Key, Node>, k: Key)
      requires forall c :: c in cs ==> c in before
      requires forall c :: c in before ==> c.key in nodes && nodes[c.key] == c
      requires forall d :: d in KeysOf(cs) ==> !(k <= d)
      ensures forall c :: c in cs ==> c.key in nodes && !(k <= c.key) && nodes[c.key] == c
    {
      forall c | c in cs ensures !(k <= c.key) {
        KeyOfChild(cs, c);
      }
    }

    /** Once `parent` has let go of child `k`, what is below `k` is no longer part of the tree. */
    ghost method Forget(parent: Node, k: Key)
      requires store.Keys == nodes.Keys && Has(parent) && !(k <= parent.key) && OnlyLink(k, parent.key)
      requires forall j {:trigger LinkedAt(j)} :: j in nodes && j != parent.key ==> LinkedAt(j)
      requires RecOf(parent).(kids := store[parent.key].kids) == store[parent.key]
      requires forall c :: c in parent.children ==> c.key in nodes && nodes[c.key] == c
      requires forall d :: d in KeysOf(parent.children) ==> !(k <= d)
      modifies this`nodes, this`store
      ensures Linked()
      ensures nodes == NodesWithout(old(nodes), k)
      ensures store == Without(old(store), k)[parent.key := old(store)[parent.key].(kids := KeysOf(parent.children))]
    {
      ghost var ns := nodes;
      nodes := NodesWithout(nodes, k);
      store := Without(store, k)[parent.key := store[parent.key].(kids := KeysOf(parent.children))];
      forall j | j in nodes ensures LinkedAt(j) {
        assert j != parent.key ==> old(LinkedAt(j));
        ChildrenLeft(nodes[j].children, nodes[j].children, ns, k);
      }
    }

    method WriteCut(parent: Node, k: Key)
      requires Linked() && Has(parent) && !(k <= parent.key) && OnlyLink(k, parent.key)
      requires Sorted(KeysOf(parent.children))
      modifies this`nodes, this`store, parent`children
      ensures Linked()
      ensures nodes == NodesWithout(old(nodes), k)
      ensures store == Without(old(store), k)[parent.key := old(store)[parent.key].(kids := KeysOf(parent.children))]
      ensures Sorted(KeysOf(parent.children))
      ensures forall j :: j in KeysOf(parent.children) <==> j in old(KeysOf(parent.children)) && j != k
    {
      assert LinkedAt(parent.key);
      parent.RemoveChild(k);
      assert forall d :: d in KeysOf(parent.children) ==> !(k <= d);
      forall j | j in nodes && j != parent.key ensures LinkedAt(j) {
        assert old(LinkedAt(j));
      }
      Forget(parent, k);
    }

    /** Cutting a child, with everything below it, off its parent. */
    method Cut(parent: Node, k: Key, ghost rk: Key)
      requires Linked() && Has(parent) && k in nodes && k != [] && Parent(k) == parent.key
      requires Stale(store, rk, k, |k|)
      modifies this`nodes, this`store, parent`children
      ensures Linked() && Stale(store, rk, parent.key, |parent.key|)
      ensures nodes == NodesWithout(old(nodes), k)
      ensures View() == ViewWithout(old(View()), k)
    {
      ghost var s := store;
      assert ShapeAt(s, rk, parent.key) && LinkedAt(parent.key);
      assert OnlyLink(k, parent.key) by {
        forall j, d | j in s && !(k <= j) && d in s[j].kids && k <= d ensures d == k && j == parent.key {
          KidsOfExtension(s, rk, j, d);
          if d != k {
            CutKid(s, rk, parent.key, k, j, d);
          }
        }
      }
      WriteCut(parent, k);
      CutStep(s, rk, parent.key, k, KeysOf(parent.children), store);
    }

    // -------------------------------------------------------------- walks along a key

    /** `stack` holds the nodes from the root down to `top`. */
    static ghost predicate OnPath(ns: map<Key, Node>, stack: seq<Node>, rk: Key, top: Key) {
      && rk != [] && |stack| + |rk| == |top| + 1
      && forall i :: 0 <= i < |stack| ==> IsNode(ns, stack[i]) && |stack[i].key| == |rk| + i && stack[i].key <= top
    }

    /** Rehashes the nodes of the path, the last one first. */
    method RecalculateParentsStack(stack: seq<Node>, ghost rk: Key, ghost top: Key)
      requires Linked() && OnPath(nodes, stack, rk, top) && Stale(store, rk, top, |top|)
      modifies this`store, stack`fullHash
      ensures Linked() && Stale(store, rk, top, |rk| - 1)
      ensures View() == old(View()) && SameKids(old(store), store)
    {
      ghost var v, s := View(), store;
      var i := |stack|;
      while i > 0
        invariant 0 <= i <= |stack| && Linked()
        invariant Stale(store, rk, top, |rk| + i - 1)
        invariant View() == v && SameKids(s, store)
      {
        i := i - 1;
        Rehash(stack[i], top, rk);
      }
    }

    /** Whether a search for `key` can arrive anywhere; a popped subtree only finds its root. */
    ghost predicate Reaches(key: Key)
      reads this`root
    {
      root != null && (key == root.key || |root.key| == 1)
    }

    static lemma ExtendPath(ns: map<Key, Node>, stack: seq<Node>, rk: Key, top: Key, child: Node)
      requires child.key != [] && OnPath(ns, stack, rk, Parent(child.key)) && IsNode(ns, child)
      requires child.key <= top
      ensures OnPath(ns, stack + [child], rk, child.key)
    {
    }

    /** Walking down from a root whose key is the first part of `key`. */
    method Descend(key: Key) returns (current: Node?, stack: seq<Node>)
      requires Linked() && root != null && Has(root) && Shape(store, root.key)
      requires |key| >= 2 && root.key == [key[0]]
      ensures current == if key in nodes then nodes[key] else null
      ensures current != null ==> OnPath(nodes, stack, root.key, Parent(key))
    {
      var parent: Node := root;
      stack := [parent];
      var i := 1;
      while i < |key| - 1
        invariant 1 <= i <= |key| - 1
        invariant Has(parent) && parent.key == key[..i]
        invariant OnPath(nodes, stack, root.key, parent.key)
      {
        assert Parent(key[..i + 1]) == key[..i];
        var child := ChildOf(parent, key[..i + 1], root.key);
        if child == null {
          if key in nodes {
            AncestorsPresent(store, root.key, key, i + 1);
          }
          return null, [];
        }
        assert LinkedAt(key[..i + 1]);
        ExtendPath(nodes, stack, root.key, key, child);
        parent := child;
        stack := stack + [parent];
        i := i + 1;
      }
      current := ChildOf(parent, key, root.key);
    }

    /** The node with this key and the nodes above it; the search indexes an empty key. */
    method GetNodeAndParentStack(key: Key) returns (current: Node?, stack: seq<Node>, err: Option<Error>)
      requires Valid()
      ensures err == if root != null && key == [] then Some(IndexError) else None
      ensures current == if Reaches(key) && key in nodes then nodes[key] else null
      ensures current != null && key == root.key ==> stack == []
      ensures current != null && key != root.key ==> key != [] && OnPath(nodes, stack, root.key, Parent(key))
    {
      current, stack, err := null, [], None;
      if root == null {
        return;
      }
      if root.key == key {
        return root, [], None;
      }
      assert key in nodes ==> ShapeAt(store, root.key, key);
      if key == [] {
        return null, [], Some(IndexError);
      }
      if root.key == [key[0]] {
        current, stack := Descend(key);
        return;
      }
    }

    /** Nodes that are not in the tree any more have no children. */
    ghost predicate GoneAreLeaves(before: map<Key, Node>)
      reads this`nodes, before.Values
    {
      forall j :: j in before && j !in nodes ==> before[j].children == []
    }

    /**
     Removes the nodes at the end of the path that are dummy leaves, from the bottom up, and
     returns what is left of the path.
     */
    method ClearStackFromDummies(stack: seq<Node>, ghost rk: Key, ghost top: Key)
      returns (rest: seq<Node>, ghost end: Key)
      requires Linked() && root != null && root.key == rk && stack != [] && OnPath(nodes, stack, rk, top)
      requires Stale(store, rk, top, |top|)
      modifies this`root, this`nodes, this`store, stack`children
      ensures Linked() && Trim(View()) == Trim(old(View()))
      ensures if rest == [] then root == null && nodes == map[]
              else root == old(root) && OnPath(nodes, rest, rk, end) && end <= top && end in store
                   && Stale(store, rk, end, |end|) && LeafAt(store, end)
      ensures rest <= stack
      ensures forall j :: j in nodes ==> j in old(nodes) && nodes[j] == old(nodes)[j]
      ensures GoneAreLeaves(old(nodes))
    {
      rest, end := stack, top;
      ghost var v, ns := Trim(View()), nodes;
      forall j | j in ns ensures ns[j].key == j {
        assert LinkedAt(j);
      }
      while rest != []
        invariant Linked() && Trim(View()) == v
        invariant rest == [] ==> root == null && nodes == map[]
        invariant rest != [] ==>
          root == old(root) && OnPath(nodes, rest, rk, end) && end <= top && Stale(store, rk, end, |end|)
        invariant rest <= stack
        invariant forall j :: j in nodes ==> j in ns && nodes[j] == ns[j]
        invariant GoneAreLeaves(ns)
        decreases |rest|
      {
        var node := rest[|rest| - 1];
        assert node.key == end && LinkedAt(end);
        if !node.dummy || node.children != [] {
          return;
        }
        rest, end := DropLast(rest, rk, end);
      }
    }

    /** The last node of the path is a dummy leaf and goes. */
    method DropLast(rest: seq<Node>, ghost rk: Key, ghost end: Key) returns (rest': seq<Node>, ghost end': Key)
      requires Linked() && root != null && root.key == rk && rest != [] && OnPath(nodes, rest, rk, end)
      requires Stale(store, rk, end, |end|)
      requires end in nodes && rest[|rest| - 1] == nodes[end] && nodes[end].dummy && nodes[end].children == []
      modifies this`root, this`nodes, this`store, rest`children
      ensures Linked() && Trim(View()) == Trim(old(View())) && rest' == rest[..|rest| - 1]
      ensures if rest' == [] then root == null && nodes == map[]
              else root == old(root) && OnPath(nodes, rest', rk, end') && end' <= end && Stale(store, rk, end', |end'|)
      ensures forall j :: j in nodes ==> j in old(nodes) && nodes[j] == old(nodes)[j]
      ensures forall j :: j in old(nodes) && j !in nodes ==> j == end
      ensures forall n :: n in rest && n.key !in nodes ==> n.children == []
    {
      assert LinkedAt(end);
      var i := |rest| - 1;
      forall j | j in store && end <= j ensures j == end {
        NoKidsNoExtension(store, rk, end, j);
      }
      TrimWithoutLeaf(View(), end);
      if i == 0 {
        assert ShapeAt(store, rk, end) && end == rk;
        forall j | j in store ensures end <= j {
          assert ShapeAt(store, rk, j);
        }
        assert ViewWithout(View(), end) == map[];
        root, nodes, store := null, map[], map[];
        assert View() == map[];
        rest', end' := [], end;
      } else {
        Cut(rest[i - 1], rest[i].key, rk);
        rest', end' := rest[..i], Parent(end);
      }
    }

    // -------------------------------------------------------------- the operations of the tree

    constructor (rootKey: Option<Key> := None, hasPopulated: bool := false)
      ensures Valid() && root == null && this.rootKey == rootKey && this.hasPopulated == hasPopulated
      ensures nodes == map[] && View() == map[]
    {
      root, this.rootKey, this.hasPopulated := null, rootKey, hasPopulated;
      nodes, store := map[], map[];
    }

    /** Nodes are kept or new. */
    twostate predicate OnlyNewNodes(before: map<Key, Node>)
      reads this`nodes
    {
      forall j :: j in nodes ==> (j in before && nodes[j] == before[j]) || fresh(nodes[j])
    }

    /** The first node of an empty tree: a placeholder for the first part of the key. */
    method InitRoot(part: string)
      requires Linked() && root == null && nodes == map[]
      modifies this
      ensures Linked() && root != null && fresh(root) && root.key == [part] && rootKey == Some(root.key) && hasPopulated
      ensures nodes == map[root.key := root] && Stale(store, root.key, root.key, 1)
      ensures View() == map[root.key := PlaceholderVal()]
    {
      var rk := [part];
      var node := new Node(rk, AttrHash(rk, true, map[]));
      root, rootKey, hasPopulated := node, Some(rk), true;
      nodes, store := map[rk := node], map[rk := Placeholder(rk)];
      RootStep(rk);
      assert LinkedAt(rk);
    }

    /** One step down: the child is found or placed, and joins the path. */
    method PlaceChild(node: Node, stack: seq<Node>, k: Key) returns (child: Node, longer: seq<Node>)
      requires Linked() && root != null && Has(root) && Has(node) && k != [] && Parent(k) == node.key
      requires OnPath(nodes, stack, root.key, node.key) && Stale(store, root.key, node.key, |node.key|)
      modifies this`nodes, this`store, node`children
      ensures Linked() && Has(root) && Has(child) && child.key == k
      ensures OnPath(nodes, longer, root.key, k) && Stale(store, root.key, k, |k|)
      ensures View() == (if k in old(View()) then old(View()) else old(View())[k := PlaceholderVal()])
      ensures nodes == old(nodes) || (fresh(child) && nodes == old(nodes)[k := child])
    {
      child := SetChild(node, k, root.key);
      assert LinkedAt(k);
      forall i | 0 <= i < |stack| ensures IsNode(nodes, stack[i]) && stack[i].key <= node.key {
        assert IsNode(old(nodes), stack[i]);
      }
      ExtendPath(nodes, stack, root.key, k, child);
      longer := stack + [child];
    }

    /** The way to the first `i` parts of `key` has been placed, and ends at this node. */
    ghost predicate PlacedTo(node: Node, stack: seq<Node>, key: Key, i: nat, v: View)
      reads this, nodes.Values
    {
      && Linked() && root != null && Has(root) && Has(node) && 1 <= i <= |key| && node.key == key[..i]
      && OnPath(nodes, stack, root.key, node.key) && Stale(store, root.key, node.key, i)
      && View() == WithPlaceholders(v, PathKeys(key[..i]))
    }

    /** The next step of the way to `key`. */
    method PlaceNext(node: Node, stack: seq<Node>, key: Key, i: nat, ghost v: View)
      returns (child: Node, longer: seq<Node>)
      requires i < |key| && PlacedTo(node, stack, key, i, v)
      modifies this`nodes, this`store, node`children
      ensures PlacedTo(child, longer, key, i + 1, v)
      ensures nodes == old(nodes) || (fresh(child) && nodes == old(nodes)[child.key := child])
    {
      var partialKey := key[..i + 1];
      assert Parent(partialKey) == key[..i];
      PathKeysStep(v, key, i);
      child, longer := PlaceChild(node, stack, partialKey);
    }

    lemma PlacedRoot(key: Key)
      requires Linked() && root != null && Has(root) && key != [] && root.key == [key[0]]
      requires Stale(store, root.key, root.key, 1)
      ensures PlacedTo(root, [root], key, 1, View())
    {
      assert key[..1] == root.key;
      PathKeysRoot(View(), root.key);
    }

    /** Traverse the tree towards `key`, placing placeholders where there is no node. */
    method PlacePath(key: Key) returns (node: Node, stack: seq<Node>)
      requires Linked() && root != null && Has(root) && key != [] && root.key == [key[0]]
      requires Stale(store, root.key, root.key, 1)
      modifies this`nodes, this`store, nodes.Values
      ensures PlacedTo(node, stack, key, |key|, old(View())) && OnlyNewNodes(old(nodes))
    {
      node, stack := root, [root];
      ghost var v := View();
      PlacedRoot(key);
      for i := 1 to |key|
        invariant PlacedTo(node, stack, key, i, v) && OnlyNewNodes(old(nodes))
      {
        node, stack := PlaceNext(node, stack, key, i, v);
      }
    }

    /** Rehashing a path whose end is worth keeping gives a consistent tree again. */
    method RehashPath(stack: seq<Node>, ghost top: Key)
      requires Linked() && root != null && Has(root) && rootKey == Some(root.key)
      requires OnPath(nodes, stack, root.key, top) && Stale(store, root.key, top, |top|)
      requires top in store && LeafAt(store, top)
      modifies this`store, stack`fullHash
      ensures Valid() && View() == old(View()) && Trim(View()) == View()
    {
      ghost var v := View();
      RecalculateParentsStack(stack, root.key, top);
      assert View()[top].dummy == v[top].dummy;
      SettledIsGood(store, root.key, top);
      TrimOfGood(store, root.key);
    }

    /** The end of the path becomes real and the path is rehashed. */
    method FinishAdd(node: Node, stack: seq<Node>, attrs: Attrs, m: MetaArg, error: bool)
      requires Linked() && root != null && Has(root) && rootKey == Some(root.key) && Has(node)
      requires OnPath(nodes, stack, root.key, node.key) && Stale(store, root.key, node.key, |node.key|)
      modifies this`store, node, stack`fullHash
      ensures Valid()
      ensures View() == old(View())[node.key := Val(false, attrs, error, NewMeta(old(View())[node.key].meta, m))]
    {
      SetReal(node, attrs, m, error, root.key);
      assert !View()[node.key].dummy;
      RehashPath(stack, node.key);
    }

    /** Adds or updates the node at `key`, which lies below an existing root. */
    method AddBelowRoot(key: Key, attrs: Attrs, m: MetaArg, error: bool)
      requires Linked() && root != null && Has(root) && key != [] && root.key == [key[0]]
      requires rootKey == Some(root.key) && Stale(store, root.key, root.key, 1)
      modifies this`nodes, this`store, nodes.Values
      ensures Valid() && OnlyNewNodes(old(nodes))
      ensures View() == AddView(old(View()), key, attrs, m, error)
    {
      ghost var v := View();
      var node, stack := PlacePath(key);
      assert key[..|key|] == key;
      AddViewIs(v, key, attrs, m, error);
      FinishAdd(node, stack, attrs, m, error);
    }

    method Add(key: Key, attrs: Attrs, m: MetaArg := Absent, error: bool := false) returns (err: Option<Error>)
      requires Valid()
      modifies this, nodes.Values
      ensures Valid() && OnlyNewNodes(old(nodes))
      ensures err == if key != [] && old(root) != null && old(root).key != [key[0]] then Some(MultipleRootTreeError)
        else None
      ensures key == [] || err.Some? ==> unchanged(this) && forall n :: n in old(nodes.Values) ==> unchanged(n)
      ensures key != [] && err.None? ==>
        && root != null && root.key == [key[0]]
        && hasPopulated == (old(hasPopulated) || old(root) == null)
        && (old(root) != null ==> root == old(root))
        && View() == AddView(old(View()), key, attrs, m, error)
    {
      err := None;
      if key == [] {
        return;
      }
      if root == null {
        InitRoot(key[0]);
        AddToFresh(root.key, key, attrs, m, error);
      } else if root.key != [key[0]] {
        return Some(MultipleRootTreeError);
      } else {
        GoodIsStale(store, root.key, root.key, 1);
      }
      AddBelowRoot(key, attrs, m, error);
    }

    /** What is left of a path after nodes on it changed: useless dummies go, the rest is rehashed. */
    method Settle(stack: seq<Node>, ghost top: Key)
      requires Linked() && root != null && Has(root) && rootKey == Some(root.key)
      requires stack != [] && OnPath(nodes, stack, root.key, top) && Stale(store, root.key, top, |top|)
      modifies this`root, this`nodes, this`store, stack`children, stack`fullHash
      ensures Valid() && View() == Trim(old(View()))
      ensures root == null || root == old(root)
      ensures forall j :: j in nodes ==> j in old(nodes) && nodes[j] == old(nodes)[j]
      ensures GoneAreLeaves(old(nodes))
    {
      assert ShapeAt(store, root.key, root.key);
      var rest, end := ClearStackFromDummies(stack, root.key, top);
      if rest == [] {
        assert View() == map[];
      } else {
        RehashPath(rest, end);
      }
    }

    /** The node with this key becomes a dummy, and dummies that nothing needs go. */
    method Clear(key: Key) returns (node: Node?, err: Option<Error>)
      requires Valid()
      modifies this`root, this`nodes, this`store, nodes.Values
      ensures Valid()
      ensures err == if old(root) != null && key == [] then Some(IndexError) else None
      ensures var here := old(root) != null && (key == old(root).key || |old(root).key| == 1);
        && node == (if here && key in old(nodes) then old(nodes)[key] else null)
        && View() == if here then ClearView(old(View()), key) else old(View())
      ensures root == null || root == old(root)
      ensures forall j :: j in nodes ==> j in old(nodes) && nodes[j] == old(nodes)[j]
      ensures GoneAreLeaves(old(nodes)) && rootKey == old(rootKey)
    {
      var parents: seq<Node>;
      node, parents, err := GetNodeAndParentStack(key);
      if node == null {
        return;
      }
      assert LinkedAt(key) && node.key == key;
      MakeDummy(node, parents);
    }

    /** A node becomes a dummy, and its path is settled. */
    method MakeDummy(node: Node, parents: seq<Node>)
      requires Valid() && root != null && Has(node)
      requires node == root ==> parents == []
      requires node != root ==> node.key != [] && OnPath(nodes, parents, root.key, Parent(node.key))
      modifies this`root, this`nodes, this`store, nodes.Values
      ensures Valid() && View() == ClearView(old(View()), node.key) && GoneAreLeaves(old(nodes))
      ensures root == null || root == old(root)
      ensures forall j :: j in nodes ==> j in old(nodes) && nodes[j] == old(nodes)[j]
    {
      assert LinkedAt(node.key) && ShapeAt(store, root.key, node.key);
      GoodIsStale(store, root.key, node.key, |node.key|);
      SetDummy(node, root.key);
      var stack := parents + [node];
      assert OnPath(nodes, stack, root.key, node.key) by {
        if node != root {
          ExtendPath(nodes, parents, root.key, node.key, node);
        }
      }
      Settle(stack, node.key);
    }

    static ghost function NodesBelow(ns: map<Key, Node>, k: Key): map<Key, Node> {
      map j | j in ns && k <= j :: ns[j]
    }

    /** A tree of its own from a node and what is below it. */
    constructor OfNode(node: Node, hasPopulated: bool, ghost ns: map<Key, Node>, ghost s: Store)
      requires IsNode(ns, node) && ns.Keys == s.Keys && Good(s, node.key)
      requires forall k :: k in ns ==> ns[k].key == k && RecOf(ns[k]) == s[k]
      requires forall k :: k in ns ==> forall c :: c in ns[k].children ==> c.key in ns && ns[c.key] == c
      ensures Valid() && root == node && nodes == ns && store == s && this.hasPopulated == hasPopulated
    {
      root, rootKey, this.hasPopulated := node, Some(node.key), hasPopulated;
      nodes, store := ns, s;
      new;
      forall k | k in nodes ensures LinkedAt(k) {
      }
    }

    /** The subtree at `node` as a tree of its own, while it still hangs in this one. */
    method Subtree(node: Node) returns (t: StructuredHashTree)
      requires Valid() && root != null && Has(node)
      ensures fresh(t) && t.Valid() && t.root == node && t.nodes == NodesBelow(nodes, node.key)
      ensures t.View() == ViewBelow(View(), node.key) && !t.hasPopulated
    {
      assert LinkedAt(node.key);
      BelowIsGood(store, root.key, node.key);
      ghost var ns := NodesBelow(nodes, node.key);
      forall k | k in ns ensures ns[k].key == k && RecOf(ns[k]) == store[k] {
        assert LinkedAt(k);
      }
      forall k, c | k in ns && c in ns[k].children ensures c.key in ns && ns[c.key] == c {
        assert LinkedAt(k);
        KeyOfChild(ns[k].children, c);
        assert c.key in store[k].kids;
        KidsOfExtension(store, root.key, k, c.key);
      }
      t := new StructuredHashTree.OfNode(node, false, ns, Below(store, node.key));
    }

    lemma NotBelow(n: Node, key: Key)
      requires Linked() && Has(n) && !(key <= n.key)
      ensures n !in NodesBelow(nodes, key).Values
    {
      forall k | k in nodes && key <= k ensures nodes[k] != n {
        assert LinkedAt(k);
      }
    }

    /** Nodes on the path to a node are not in its subtree. */
    lemma PathNotBelow(stack: seq<Node>, key: Key)
      requires Linked() && root != null && key != [] && OnPath(nodes, stack, root.key, Parent(key))
      ensures forall n :: n in stack ==> n !in NodesBelow(nodes, key).Values
    {
      forall n | n in stack ensures n !in NodesBelow(nodes, key).Values {
        assert |n.key| < |key|;
        NotBelow(n, key);
      }
    }

    /** Cuts the subtree at `key` off the end of the path and settles the path. */
    method CutAndSettle(stack: seq<Node>, key: Key)
      requires Valid() && root != null && key in nodes && key != root.key && key != []
      requires stack != [] && OnPath(nodes, stack, root.key, Parent(key))
      modifies this`root, this`nodes, this`store, stack`children, stack`fullHash
      ensures Valid() && View() == Trim(ViewWithout(old(View()), key))
      ensures root == null || root == old(root)
      ensures forall j :: j in nodes ==> j in old(nodes) && nodes[j] == old(nodes)[j]
    {
      GoodIsStale(store, root.key, key, |key|);
      assert ShapeAt(store, root.key, key) && ShapeAt(store, root.key, root.key);
      Cut(stack[|stack| - 1], key, root.key);
      Settle(stack, Parent(key));
    }

    /** The subtree that is cut off stays a tree of its own. */
    method CutOff(stack: seq<Node>, key: Key, ghost popped: StructuredHashTree)
      requires Valid() && root != null && key in nodes && key != root.key && key != []
      requires stack != [] && OnPath(nodes, stack, root.key, Parent(key))
      requires popped != this && popped.Valid() && popped.nodes == NodesBelow(nodes, key)
      modifies this`root, this`nodes, this`store, stack`children, stack`fullHash
      ensures Valid() && View() == Trim(ViewWithout(old(View()), key))
      ensures root == null || root == old(root)
      ensures forall j :: j in nodes ==> j in old(nodes) && nodes[j] == old(nodes)[j]
      ensures popped.Valid()
    {
      PathNotBelow(stack, key);
      CutAndSettle(stack, key);
    }

    /** Takes the subtree at `key` out of the tree and returns it. */
    method Pop(key: Key) returns (popped: StructuredHashTree?, err: Option<Error>)
      requires Valid()
      modifies this`root, this`nodes, this`store, nodes.Values
      ensures Valid()
      ensures err == if old(root) != null && key == [] then Some(IndexError) else None
      ensures popped != null <==>
        old(root) != null && (key == old(root).key || |old(root).key| == 1) && key in old(nodes)
      ensures popped == null ==> unchanged(this) && forall n :: n in old(nodes.Values) ==> unchanged(n)
      ensures popped != null ==>
        && fresh(popped) && popped.Valid() && popped.root == old(nodes)[key] && !popped.hasPopulated
        && popped.View() == ViewBelow(old(View()), key)
        && View() == Trim(ViewWithout(old(View()), key))
      ensures root == null || root == old(root)
      ensures forall j :: j in nodes ==> j in old(nodes) && nodes[j] == old(nodes)[j]
    {
      popped := null;
      var current, stack;
      current, stack, err := GetNodeAndParentStack(key);
      if current == null {
        return;
      }
      assert LinkedAt(key) && ShapeAt(store, root.key, key);
      popped := Subtree(current);
      if stack == [] {
        DropRoot();
      } else {
        CutOff(stack, key, popped);
      }
    }

    method DropRoot()
      requires Valid() && root != null
      modifies this`root, this`nodes, this`store
      ensures Valid() && root == null && nodes == map[]
      ensures View() == Trim(ViewWithout(old(View()), old(root).key)) == map[]
    {
      WithoutRoot(store, root.key);
      root, nodes, store := null, map[], map[];
      assert View() == map[];
    }

    // -------------------------------------------------------------- comparing trees

    lemma NoEmptyKey()
      requires Valid()
      ensures [] !in View() && [] !in nodes
    {
      if root != null && [] in store {
        NodeIsBelowRoot(store, root.key, []);
      }
    }

    /** Takes the subtree at `key` out of the tree; there has to be one. */
    method Remove(key: Key) returns (err: Option<Error>)
      requires Valid()
      modifies this`root, this`nodes, this`store, nodes.Values
      ensures Valid()
      ensures err == if old(root) != null && key == [] then Some(IndexError)
                     else if old(root) != null && (key == old(root).key || |old(root).key| == 1) && key in old(nodes)
                     then None else Some(KeyError)
      ensures View() == if err.None? then Trim(ViewWithout(old(View()), key)) else old(View())
    {
      ghost var v := View();
      NoEmptyKey();
      var popped;
      popped, err := Pop(key);
      if popped == null {
        assert View() == v;
        if err.None? {
          err := Some(KeyError);
        }
      }
    }

    method Find(key: Key) returns (node: Node?, err: Option<Error>)
      requires Valid()
      ensures err == if root != null && key == [] then Some(IndexError) else None
      ensures node == if root != null && (key == root.key || |root.key| == 1) && key in nodes then nodes[key] else null
    {
      var stack;
      node, stack, err := GetNodeAndParentStack(key);
    }

    /** The keys of the subtree, without dummies and nodes in error. */
    method GetSubtreeKeys(node: Node) returns (keys: seq<Key>)
      requires Valid() && root != null && Has(node)
      ensures Lists(keys, ListedUnder(View(), [node.key]))
      decreases Longest(store.Keys) - |node.key|, 2
    {
      assert LinkedAt(node.key);
      ListingStarts(store, node.key);
      keys := if node.dummy || node.error then [] else [node.key];
      keys := SubtreeChildren(node, keys);
      ListingEnds(store, root.key, node.key);
    }

    method SubtreeChildren(node: Node, keys: seq<Key>) returns (keys': seq<Key>)
      requires Valid() && root != null && Has(node) && |node.children| == |store[node.key].kids|
      requires Lists(keys, ListedSoFar(store, node.key, 0))
      ensures Lists(keys', ListedSoFar(store, node.key, |store[node.key].kids|))
      decreases Longest(store.Keys) - |node.key|, 1
    {
      keys' := keys;
      var i := 0;
      while i < |node.children|
        invariant i <= |node.children| && Lists(keys', ListedSoFar(store, node.key, i))
      {
        keys' := SubtreeNextChild(node, i, keys');
        i := i + 1;
      }
    }

    method SubtreeNextChild(node: Node, i: nat, keys: seq<Key>) returns (keys': seq<Key>)
      requires Valid() && root != null && Has(node) && i < |node.children| == |store[node.key].kids|
      requires Lists(keys, ListedSoFar(store, node.key, i))
      ensures Lists(keys', ListedSoFar(store, node.key, i + 1))
      decreases Longest(store.Keys) - |node.key|, 0
    {
      assert LinkedAt(node.key) && ShapeAt(store, root.key, node.key);
      assert node.children[i].key in store[node.key].kids;
      var below := GetSubtreeKeys(node.children[i]);
      ListNextKid(store, root.key, node.key, i, keys, below);
      keys' := keys + below;
    }

    ghost predicate AllHere(ns: seq<Node>)
      reads this`nodes
    {
      forall n :: n in ns ==> Has(n)
    }

    lemma ChildrenHere(node: Node)
      requires Linked() && Has(node)
      ensures AllHere(node.children) && KeysOf(node.children) == store[node.key].kids
    {
      assert LinkedAt(node.key);
    }

    /** Comparing two nodes of the same key, and what is below them unless their full hashes agree. */
    method DiffCommon(mine: Node, theirs: Node, other: StructuredHashTree, add: seq<Key>, remove: seq<Key>)
      returns (add': seq<Key>, remove': seq<Key>)
      requires Valid() && root != null && other.Valid() && other.root != null
      requires Has(mine) && other.Has(theirs) && mine.key == theirs.key
      ensures Grows(add, AddUnder(View(), other.View(), [mine.key]), add')
      ensures Grows(remove, RemoveUnder(View(), other.View(), [mine.key]), remove')
      decreases Longest(store.Keys) + 1 - |mine.key|, 0
    {
      ghost var k := mine.key;
      assert LinkedAt(k) && other.LinkedAt(k);
      add', remove' := add, remove;
      if mine.partialHash != theirs.partialHash {
        if !(theirs.error || mine.error) {
          if mine.dummy {
            remove' := remove' + [theirs.key];
          } else {
            add' := add' + [theirs.key];
          }
        }
      }
      ghost var ys, ps := add', remove';
      if mine.fullHash != theirs.fullHash {
        ChildrenHere(mine);
        other.ChildrenHere(theirs);
        KidsLevel(store, root.key, other.store, other.root.key, k);
        add', remove' := DiffChildren(mine.children, theirs.children, other, add', remove', |k| + 1);
      }
      GrowsAtNode(store, root.key, other.store, other.root.key, k, add, ys, add', remove, ps, remove');
    }

    /** One node of the other tree against the siblings at its place in this one. */
    method DiffOther(selfChildren: seq<Node>, theirs: Node, other: StructuredHashTree, add: seq<Key>, remove: seq<Key>,
                     ghost ok: seq<Key>) returns (add': seq<Key>, remove': seq<Key>)
      requires Valid() && root != null && other.Valid() && other.root != null
      requires AllHere(selfChildren) && other.Has(theirs) && theirs.key in ok
      requires Level(store, root.key, other.store, other.root.key, KeysOf(selfChildren), ok)
      ensures Grows(add, AddUnder(View(), other.View(), [theirs.key]), add')
      ensures Grows(remove, RemoveUnder(View(), other.View(), [theirs.key]), remove')
      decreases Longest(store.Keys) + 1 - |theirs.key|, 1
    {
      add', remove' := add, remove;
      var at := Node.IndexOf(selfChildren, theirs.key);
      if at.None? {
        var keys := other.GetSubtreeKeys(theirs);
        GrowsByMissing(store, root.key, other.store, theirs.key, add, remove, keys);
        remove' := remove' + keys;
      } else {
        add', remove' := DiffCommon(selfChildren[at.value], theirs, other, add, remove);
      }
    }

    /** What the first loop has found under the first `i` nodes of the other tree. */
    static ghost predicate OthersDone(v: View, w: View, ok: seq<Key>, i: nat, xs: seq<Key>, add: seq<Key>,
                                      rs: seq<Key>, remove: seq<Key>)
      requires i <= |ok|
    {
      Grows(xs, AddUnder(v, w, ok[..i]), add) && Grows(rs, RemoveUnder(v, w, ok[..i]), remove)
    }

    static lemma AllOthersDone(v: View, w: View, ok: seq<Key>, xs: seq<Key>, add: seq<Key>, rs: seq<Key>,
                               remove: seq<Key>)
      requires OthersDone(v, w, ok, |ok|, xs, add, rs, remove)
      ensures Grows(xs, AddUnder(v, w, ok), add) && Grows(rs, RemoveUnder(v, w, ok), remove)
    {
      assert ok[..|ok|] == ok;
    }

    /** One round of the first loop. */
    method DiffNextOther(selfChildren: seq<Node>, otherChildren: seq<Node>, other: StructuredHashTree,
                         ghost level: nat, i: nat,
                         ghost xs: seq<Key>, ghost rs: seq<Key>, add: seq<Key>, remove: seq<Key>)
      returns (add': seq<Key>, remove': seq<Key>)
      requires Valid() && root != null && other.Valid() && other.root != null
      requires AllHere(selfChildren) && other.AllHere(otherChildren) && i < |otherChildren|
      requires Level(store, root.key, other.store, other.root.key, KeysOf(selfChildren), KeysOf(otherChildren))
      requires forall c :: c in KeysOf(otherChildren) ==> |c| == level
      requires OthersDone(View(), other.View(), KeysOf(otherChildren), i, xs, add, rs, remove)
      ensures OthersDone(View(), other.View(), KeysOf(otherChildren), i + 1, xs, add', rs, remove')
      decreases Longest(store.Keys) + 1 - level, 2
    {
      ghost var ok := KeysOf(otherChildren);
      assert otherChildren[i].key == ok[i] && ok[i] in ok;
      add', remove' := DiffOther(selfChildren, otherChildren[i], other, add, remove, ok);
      GrowsNextOther(View(), other.View(), ok, i, xs, add, add', rs, remove, remove');
    }

    /** The first loop: every node of the other tree. */
    method DiffOthers(selfChildren: seq<Node>, otherChildren: seq<Node>, other: StructuredHashTree,
                      add: seq<Key>, remove: seq<Key>, ghost level: nat) returns (add': seq<Key>, remove': seq<Key>)
      requires Valid() && root != null && other.Valid() && other.root != null
      requires AllHere(selfChildren) && other.AllHere(otherChildren)
      requires Level(store, root.key, other.store, other.root.key, KeysOf(selfChildren), KeysOf(otherChildren))
      requires forall c :: c in KeysOf(otherChildren) ==> |c| == level
      ensures Grows(add, AddUnder(View(), other.View(), KeysOf(otherChildren)), add')
      ensures Grows(remove, RemoveUnder(View(), other.View(), KeysOf(otherChildren)), remove')
      decreases Longest(store.Keys) + 1 - level, 3
    {
      ghost var v, w, ok := View(), other.View(), KeysOf(otherChildren);
      add', remove' := add, remove;
      NoOthersDone(v, w, ok, add, remove);
      for i := 0 to |otherChildren|
        invariant OthersDone(v, w, ok, i, add, add', remove, remove')
      {
        add', remove' := DiffNextOther(selfChildren, otherChildren, other, level, i, add, remove, add', remove');
      }
      AllOthersDone(v, w, ok, add, add', remove, remove');
    }

    static lemma NoOthersDone(v: View, w: View, ok: seq<Key>, add: seq<Key>, remove: seq<Key>)
      ensures OthersDone(v, w, ok, 0, add, add, remove, remove)
    {
      GrowsNone(v, w, ok, add);
      GrowsNone(v, w, ok, remove);
    }

    /** One round of the second loop. */
    method DiffNextOwn(selfChildren: seq<Node>, otherChildren: seq<Node>, ghost other: StructuredHashTree, j: nat,
                       ghost xs: seq<Key>, add: seq<Key>) returns (add': seq<Key>)
      requires Valid() && root != null && other.Valid() && other.root != null
      requires AllHere(selfChildren) && j < |selfChildren|
      requires Level(store, root.key, other.store, other.root.key, KeysOf(selfChildren), KeysOf(otherChildren))
      requires Grows(xs, AddUnder(View(), other.View(), KeysOf(otherChildren) + KeysOf(selfChildren)[..j]), add)
      ensures Grows(xs, AddUnder(View(), other.View(), KeysOf(otherChildren) + KeysOf(selfChildren)[..j + 1]), add')
    {
      ghost var sk, ok := KeysOf(selfChildren), KeysOf(otherChildren);
      var at := Node.IndexOf(otherChildren, selfChildren[j].key);
      add' := add;
      if at.None? {
        var keys := GetSubtreeKeys(selfChildren[j]);
        GrowsByList(add, ListedUnder(View(), [sk[j]]), keys);
        add' := add' + keys;
      } else {
        assert ok[at.value] == sk[j];
      }
      GrowsNextOwn(store, root.key, other.store, other.root.key, sk, ok, j, xs, add, add');
    }

    /** The second loop: one's own nodes that the other tree lacks. */
    method DiffOwn(selfChildren: seq<Node>, otherChildren: seq<Node>, ghost other: StructuredHashTree,
                   ghost before: seq<Key>, add: seq<Key>) returns (add': seq<Key>)
      requires Valid() && root != null && other.Valid() && other.root != null && AllHere(selfChildren)
      requires Level(store, root.key, other.store, other.root.key, KeysOf(selfChildren), KeysOf(otherChildren))
      requires Grows(before, AddUnder(View(), other.View(), KeysOf(otherChildren)), add)
      ensures Grows(before, AddUnder(View(), other.View(), KeysOf(otherChildren) + KeysOf(selfChildren)), add')
    {
      ghost var v, w, sk, ok := View(), other.View(), KeysOf(selfChildren), KeysOf(otherChildren);
      add' := add;
      assert ok + sk[..0] == ok;
      for j := 0 to |selfChildren|
        invariant Grows(before, AddUnder(v, w, ok + sk[..j]), add')
      {
        add' := DiffNextOwn(selfChildren, otherChildren, other, j, before, add');
      }
      assert sk[..|sk|] == sk;
    }

    method DiffChildren(selfChildren: seq<Node>, otherChildren: seq<Node>, other: StructuredHashTree,
                        add: seq<Key>, remove: seq<Key>, ghost level: nat) returns (add': seq<Key>, remove': seq<Key>)
      requires Valid() && root != null && other.Valid() && other.root != null
      requires AllHere(selfChildren) && other.AllHere(otherChildren)
      requires Level(store, root.key, other.store, other.root.key, KeysOf(selfChildren), KeysOf(otherChildren))
      requires forall c :: c in KeysOf(otherChildren) ==> |c| == level
      ensures Grows(add, AddUnder(View(), other.View(), KeysOf(otherChildren) + KeysOf(selfChildren)), add')
      ensures Grows(remove, RemoveUnder(View(), other.View(), KeysOf(otherChildren) + KeysOf(selfChildren)), remove')
      decreases Longest(store.Keys) + 1 - level, 4
    {
      add', remove' := DiffOthers(selfChildren, otherChildren, other, add, remove, level);
      add' := DiffOwn(selfChildren, otherChildren, other, add, add');
      RemoveUnderOthersOnly(store, root.key, other.store, other.root.key, KeysOf(selfChildren), KeysOf(otherChildren));
    }

    /**
     What `other` has to gain and to lose to become this tree. Roots at different depths are
     different siblings to the comparison, which then lists both trees, whatever they share.
     */
    method Diff(other: StructuredHashTree) returns (add: seq<Key>, remove: seq<Key>)
      requires Valid() && other.Valid()
      ensures (root != null && other.root != null ==> |root.key| == |other.root.key|) ==>
        Lists(add, ToAdd(View(), other.View())) && Lists(remove, ToRemove(View(), other.View()))
      ensures root != null && other.root != null && |root.key| != |other.root.key| ==>
        Lists(add, ToAdd(View(), map[])) && Lists(remove, ToRemove(map[], other.View()))
    {
      add, remove := [], [];
      if root == null {
        assert View() == map[];
        if other.root == null {
          assert other.View() == map[];
        } else {
          remove := other.GetSubtreeKeys(other.root);
          ListedBelowRoot(other.store, other.root.key);
        }
        return;
      }
      if other.root == null {
        assert other.View() == map[];
        add := GetSubtreeKeys(root);
        ListedBelowRoot(store, root.key);
        return;
      }
      add, remove := DiffRoots(other);
    }

    method DiffRoots(other: StructuredHashTree) returns (add: seq<Key>, remove: seq<Key>)
      requires Valid() && other.Valid() && root != null && other.root != null
      ensures |root.key| == |other.root.key| ==>
        Lists(add, ToAdd(View(), other.View())) && Lists(remove, ToRemove(View(), other.View()))
      ensures |root.key| != |other.root.key| ==>
        Lists(add, ToAdd(View(), map[])) && Lists(remove, ToRemove(map[], other.View()))
    {
      if |root.key| == |other.root.key| {
        RootsLevel(store, root.key, other.store, other.root.key);
        AllUnderRoots(store, root.key, other.store, other.root.key);
        assert KeysOf([root]) == [root.key] && KeysOf([other.root]) == [other.root.key];
        add, remove := DiffChildren([root], [other.root], other, [], [], |other.root.key|);
        assert add[0..] == add && remove[0..] == remove;
      } else {
        remove := other.GetSubtreeKeys(other.root);
        add := GetSubtreeKeys(root);
        ListedBelowRoot(store, root.key);
        ListedBelowRoot(other.store, other.root.key);
      }
    }

    /** The hash of the whole tree; an empty tree is known by its root key alone, unless that is empty. */
    function RootFullHash(): Option<Digest>
      reads this, root
    {
      if root != null then root.fullHash
      else if rootKey.Some? && rootKey.value != [] then Some(KeyHash(rootKey.value))
      else None
    }

    /** Equality of trees: both empty, or the same root key and the same root hash. */
    method Equal(other: StructuredHashTree) returns (eq: bool)
      requires Valid() && other.Valid()
      ensures eq <==>
        && ContentOf(View()) == ContentOf(other.View())
        && (root != null && other.root != null ==> root.key == other.root.key)
      ensures (root != null && other.root != null ==> |root.key| == |other.root.key|) ==>
        (eq <==> ContentOf(View()) == ContentOf(other.View()))
    {
      NonEmptyContent();
      other.NonEmptyContent();
      if root == null || other.root == null {
        return root == null && other.root == null;
      }
      assert LinkedAt(root.key) && other.LinkedAt(other.root.key);
      if |root.key| == |other.root.key| {
        RootHashIsContent(store, root.key, other.store, other.root.key);
        if root.fullHash == other.root.fullHash {
          TreeTheory.SameRootKey(store, root.key, other.store, other.root.key);
        }
      }
      return root.key == other.root.key && root.fullHash == other.root.fullHash;
    }

    lemma NonEmptyContent()
      requires Valid()
      ensures root == null <==> ContentOf(View()) == map[]
    {
      if root == null {
        assert View() == map[];
      } else {
        NodesFromContent(store, root.key, root.key);
      }
    }

    // -------------------------------------------------------------- adding several nodes

    /** This tree's root is a first part, as in every tree that is not a popped subtree. */
    ghost predicate Whole()
      reads this`root
    {
      root != null ==> |root.key| == 1
    }

    lemma ValidView()
      requires Valid() && Whole()
      ensures Closed(View()) && Trim(View()) == View()
      ensures forall k :: k in View() ==> k != [] && Supported(View(), k)
    {
      if root == null {
        assert View() == map[];
      } else {
        TrimOfGood(store, root.key);
        forall k | k in View() ensures k != [] && k in Trim(View()) {
          assert ShapeAt(store, root.key, k);
        }
        forall k, n | k in View() && 1 <= n <= |k| ensures k[..n] in View() {
          AncestorsPresent(store, root.key, k, n);
        }
      }
    }

    /** What a tree is known by after trying to add a key to it: the first key of an empty tree stays. */
    ghost predicate KnownAs(key: Key, err: Option<Error>, wasRoot: Node?, wasKey: Option<Key>, wasPopulated: bool)
      reads this
    {
      if err.Some? || key == [] || wasRoot != null then rootKey == wasKey && hasPopulated == wasPopulated
      else rootKey == Some([key[0]]) && hasPopulated
    }

    /** The key of the root, if there is one. */
    ghost function RootKeys(): set<Key>
      reads this`root
    {
      if root == null then {} else {root.key}
    }

    /** One step of a batch. */
    method AddTried(item: Item, ghost before: View, ghost tried: seq<Key>, ghost clean: bool)
      returns (err: Option<Error>)
      requires Valid()
      requires clean ==> Whole() && item.key !in before && Undone(before, View(), tried, 0)
      modifies this, nodes.Values
      ensures Valid() && OnlyNewNodes(old(nodes))
      ensures err.None? ==> View() == AddItem(old(View()), item)
      ensures err.Some? ==> err == Some(MultipleRootTreeError)
      ensures clean ==> Whole() && Undone(before, View(), tried + [item.key], 0)
      ensures KnownAs(item.key, err, old(root), old(rootKey), old(hasPopulated))
      ensures err.None? && (item.key != [] || old(root) != null) ==> root != null
      ensures err.Some? ==> old(root) != null
      ensures err.Some? <==> item.key != [] && old(root) != null && old(root).key != item.key[..1]
      ensures err.None? ==> RootKeys() == old(RootKeys()) + Firsts([item])
    {
      if clean {
        UndoneByAdd(before, View(), tried, item);
      }
      FirstsOfOne(item);
      err := Add(item.key, item.attrs, item.meta, item.error);
    }

    /** One step of the rollback. */
    method PopTried(x: Key, ghost before: View, ghost tried: seq<Key>, ghost n: nat, ghost clean: bool)
      returns (err: Option<Error>)
      requires Valid() && n < |tried| && tried[n] == x
      requires clean ==> Whole() && x != [] && x !in before && Closed(before) && Trim(before) == before
      requires clean ==> Undone(before, View(), tried, n)
      modifies this`root, this`nodes, this`store, nodes.Values
      ensures Valid() && OnlyNewNodes(old(nodes))
      ensures clean ==> Whole() && err.None? && Undone(before, View(), tried, n + 1)
    {
      ghost var v := View();
      var popped;
      popped, err := Pop(x);
      if clean {
        if popped != null {
          UndoneByPop(before, v, tried, n);
        }
      }
    }

    lemma RolledBack(before: View, tried: seq<Key>)
      requires Valid() && Whole() && Closed(before) && Undone(before, View(), tried, |tried|)
      ensures View() == before
    {
      ValidView();
      AllUndone(before, View(), tried);
    }

    /** None of these keys was a node. */
    static ghost predicate Untouched(keys: seq<Key>, before: View) {
      forall x {:trigger x in keys} :: x in keys ==> x != [] && x !in before
    }

    static lemma UntouchedMore(keys: seq<Key>, key: Key, before: View)
      requires Untouched(keys, before) && key != [] && key !in before
      ensures Untouched(keys + [key], before)
    {}

    /** Rolling back a rejected batch: every key tried so far is popped. */
    method Rollback(tried: seq<Key>, ghost before: View, ghost clean: bool) returns (err: Option<Error>)
      requires Valid()
      requires clean ==> Whole() && Untouched(tried, before)
      requires clean ==> Closed(before) && Trim(before) == before && Undone(before, View(), tried, 0)
      modifies this`root, this`nodes, this`store, nodes.Values
      ensures Valid() && OnlyNewNodes(old(nodes))
      ensures clean ==> err.None? && View() == before && Whole()
    {
      err := None;
      for n := 0 to |tried|
        invariant Valid() && OnlyNewNodes(old(nodes))
        invariant clean ==> Whole() && err.None? && Undone(before, View(), tried, n)
      {
        assert tried[n] in tried;
        err := PopTried(tried[n], before, tried, n, clean);
        if err.Some? {
          return;
        }
      }
      if clean {
        RolledBack(before, tried);
      }
    }

    /** One item of a batch; if it is rejected everything tried so far is rolled back. */
    method IncludeNext(item: Item, cache: seq<Key>, ghost before: View, ghost clean: bool) returns (err: Option<Error>)
      requires Valid()
      requires clean ==> Whole() && Undone(before, View(), cache, 0) && Untouched(cache, before)
      requires clean ==> item.key != [] && item.key !in before && Closed(before) && Trim(before) == before
      modifies this, nodes.Values
      ensures Valid() && OnlyNewNodes(old(nodes))
      ensures err.None? ==> View() == AddItem(old(View()), item)
      ensures err.None? && clean ==>
        Whole() && Undone(before, View(), cache + [item.key], 0) && Untouched(cache + [item.key], before)
      ensures err.Some? && clean ==> View() == before && Whole() && err == Some(MultipleRootTreeError)
      ensures err.Some? ==> old(root) != null
      ensures KnownAs(item.key, err, old(root), old(rootKey), old(hasPopulated))
      ensures err.None? && (item.key != [] || old(root) != null) ==> root != null
      ensures err.Some? <==> item.key != [] && old(root) != null && old(root).key != item.key[..1]
      ensures err.None? ==> RootKeys() == old(RootKeys()) + Firsts([item])
    {
      if clean {
        UntouchedMore(cache, item.key, before);
      }
      err := AddTried(item, before, cache, clean);
      if err.Some? {
        var failed := Rollback(cache + [item.key], before, clean);
        err := if failed.Some? then failed else err;
      }
    }

    /** None of these items is in the tree yet, so rolling them back takes nothing away. */
    ghost predicate AllNew(items: seq<Item>)
      reads this
    {
      Whole() && NewTo(items, View())
    }

    static ghost predicate NewTo(items: seq<Item>, before: View) {
      forall item :: item in items ==> item.key != [] && item.key !in before
    }

    /** The first `n` items of a batch have been added. */
    ghost predicate Including(items: seq<Item>, n: nat, cache: seq<Key>, before: View, clean: bool, was: Snap)
      reads this, nodes.Values
    {
      && Valid() && n <= |items| && View() == AddAll(before, items[..n])
      && RootKeys() == was.roots + Firsts(items[..n])
      && (clean ==>
            && Whole() && Closed(before) && Trim(before) == before
            && Undone(before, View(), cache, 0) && Untouched(cache, before)
            && KnownAfter(items, n, was) && (n == 0 ==> Empty() == (was.roots == {})) && (n > 0 ==> !Empty()))
    }

    ghost predicate Empty()
      reads this`root
    {
      root == null
    }

    /** What a tree is known by after the first `n` items of a batch: an empty tree takes the first key. */
    ghost predicate KnownAfter(items: seq<Item>, n: nat, was: Snap)
      reads this`rootKey, this`hasPopulated
    {
      if n == 0 || was.roots != {} then rootKey == was.rootKey && hasPopulated == was.hasPopulated
      else items != [] && items[0].key != [] && rootKey == Some([items[0].key[0]]) && hasPopulated
    }

    ghost function Taken(): Snap
      reads this
    {
      Snap(RootKeys(), rootKey, hasPopulated)
    }

    /** The next item of a batch. */
    method IncludeStep(items: seq<Item>, i: nat, cache: seq<Key>, ghost before: View, ghost clean: bool,
                       ghost was: Snap)
      returns (err: Option<Error>)
      requires i < |items| && Including(items, i, cache, before, clean, was)
      requires clean ==> NewTo(items, before)
      modifies this, nodes.Values
      ensures Valid() && OnlyNewNodes(old(nodes))
      ensures IncludedOr(err, items, i + 1, cache + [items[i].key], before, clean, was)
    {
      AddAllStep(before, items, i);
      FirstsMore(items, i);
      assert items[i] in items;
      err := IncludeNext(items[i], cache, before, clean);
      if err.Some? {
        ClashInBatch(was.roots, items, i, old(root.key));
      }
    }

    /** A batch of new items was rejected: the nodes are those that were there. */
    ghost predicate Rejected(items: seq<Item>, before: View, was: Snap)
      reads this
    {
      items != [] && Whole() && View() == before && KnownAfter(items, |items|, was)
    }

    lemma NothingIncluded(items: seq<Item>, clean: bool)
      requires Valid() && (clean ==> AllNew(items))
      ensures Including(items, 0, [], View(), clean, Taken()) && (clean ==> NewTo(items, View()))
    {
      if clean {
        ValidView();
      }
    }

    /** Adds the items one after the other, and takes them back when one is rejected. */
    method IncludeEach(items: seq<Item>, ghost clean: bool) returns (err: Option<Error>, cache: seq<Key>)
      requires Valid() && (clean ==> AllNew(items))
      modifies this, nodes.Values
      ensures IncludedOr(err, items, |items|, cache, old(View()), clean, old(Taken()))
    {
      ghost var before, was := View(), Taken();
      NothingIncluded(items, clean);
      err, cache := None, [];
      for i := 0 to |items|
        invariant OnlyNewNodes(old(nodes)) && Including(items, i, cache, before, clean, was) && err == None
      {
        err := IncludeStep(items, i, cache, before, clean, was);
        if err.Some? {
          return;
        }
        cache := cache + [items[i].key];
      }
    }

    /** A batch so far: everything was added, or an item was rejected. */
    ghost predicate IncludedOr(err: Option<Error>, items: seq<Item>, n: nat, cache: seq<Key>, before: View,
                               clean: bool, was: Snap)
      reads this, nodes.Values
    {
      if err.None? then Including(items, n, cache, before, clean, was)
      else
        && Valid() && !OneRoot(was.roots + Firsts(items))
        && (clean ==> err == Some(MultipleRootTreeError) && Rejected(items, before, was))
    }

    /**
     Adds every item, unless two of them or one of them and the tree have different roots. When a batch
     is rejected and none of it was a node before, the nodes are those that were there; but a tree that
     was empty stays known by the first key of the batch, and populated.
     */
    method Include(items: seq<Item>) returns (err: Option<Error>)
      requires Valid()
      modifies this, nodes.Values
      ensures Valid()
      ensures err.None? <==> OneRoot(old(RootKeys()) + Firsts(items))
      ensures err.None? ==> View() == AddAll(old(View()), items)
      ensures err.Some? && old(AllNew(items)) ==>
        && err == Some(MultipleRootTreeError) && View() == old(View()) && items != [] && items[0].key != []
        && rootKey == (if old(root) == null then Some([items[0].key[0]]) else old(rootKey))
        && hasPopulated == (old(hasPopulated) || old(root) == null)
        && RootFullHash() == if old(root) == null then Some(KeyHash([items[0].key[0]])) else old(RootFullHash())
    {
      ghost var s, was, clean := store, Taken(), AllNew(items);
      ghost var hash := HashSeen();
      assert clean ==> forall item :: item in items ==> item.key != [];
      var cache;
      err, cache := IncludeEach(items, clean);
      assert items[..|items|] == items;
      if err.Some? && clean {
        RolledBackHash(s, was.rootKey, hash);
      }
    }

    /** The hash of a tree is that of its root in the ghost store. */
    lemma HashSeen() returns (hash: Option<Digest>)
      requires Valid()
      ensures hash == RootFullHash()
      ensures root == null <==> store == map[]
      ensures root != null ==> rootKey.Some? && rootKey.value in store && store[rootKey.value].full == hash
    {
      hash := RootFullHash();
      if root != null {
        assert LinkedAt(root.key);
      }
    }

    /** With its nodes back, a tree that was not empty has its hash back. */
    lemma RolledBackHash(s: Store, wasKey: Option<Key>, hash: Option<Digest>)
      requires Valid() && Whole() && View() == ViewOf(s)
      requires s != map[] ==>
        wasKey.Some? && |wasKey.value| == 1 && Good(s, wasKey.value) && s[wasKey.value].full == hash
      ensures if s == map[] then root == null else root != null && RootFullHash() == hash
    {
      NonEmptyContent();
      if s == map[] {
        assert View() == map[];
      } else {
        NodesFromContent(s, wasKey.value, wasKey.value);
        assert root != null && LinkedAt(root.key);
        RootHashIsContent(s, wasKey.value, store, root.key);
      }
    }
  }

  /** What a tree remembers besides its nodes. */
  datatype Snap = Snap(roots: set<Key>, rootKey: Option<Key>, hasPopulated: bool)
}
