/**
 Trees over whole runs of operations: what a run leaves behind depends only on what it means for
 the contents, and applying the difference of two trees makes them equal.
 */
module TreeRuns {
  import opened Keys
  import opened TreeStore
  import opened TreeTheory
  import opened TreeDiff
  import opened StructuredTree

  datatype Op = OpAdd(item: Item) | OpPop(key: Key) | OpClear(key: Key)

  /** What an operation means for the map of explicitly added keys; rejected operations mean nothing. */
  ghost function Meaning(c: Content, op: Op): Content {
    match op
    case OpAdd(item) => if Fits(c, item.key) then c[item.key := item.attrs] else c
    case OpPop(key) => if key == [] then c else ContentWithout(c, key)
    case OpClear(key) => c - {key}
  }

  ghost function MeaningOfRun(ops: seq<Op>): Content {
    if ops == [] then map[] else Meaning(MeaningOfRun(ops[..|ops| - 1]), ops[|ops| - 1])
  }

  lemma FitsIsSameRoot(t: StructuredHashTree, key: Key)
    requires t.Valid() && t.Whole()
    ensures Fits(ContentOf(t.View()), key) <==> key != [] && (t.root == null || t.root.key == [key[0]])
  {
    var c := ContentOf(t.View());
    t.NonEmptyContent();
    if t.root != null {
      forall k | k in c ensures k != [] && [k[0]] == t.root.key {
        assert ShapeAt(t.store, t.root.key, k);
      }
      NodesFromContent(t.store, t.root.key, t.root.key);
    }
  }

  method StepAdd(t: StructuredHashTree, item: Item)
    requires t.Valid() && t.Whole()
    modifies t, t.nodes.Values
    ensures t.Valid() && t.Whole() && t.OnlyNewNodes(old(t.nodes))
    ensures ContentOf(t.View()) == Meaning(old(ContentOf(t.View())), OpAdd(item))
  {
    FitsIsSameRoot(t, item.key);
    AddContent(t.View(), item.key, item.attrs, item.meta, item.error);
    var err := t.Add(item.key, item.attrs, item.meta, item.error);
  }

  method StepPop(t: StructuredHashTree, key: Key)
    requires t.Valid() && t.Whole()
    modifies t, t.nodes.Values
    ensures t.Valid() && t.Whole() && t.OnlyNewNodes(old(t.nodes))
    ensures ContentOf(t.View()) == Meaning(old(ContentOf(t.View())), OpPop(key))
  {
    t.NoEmptyKey();
    if key != [] && key !in t.View() {
      NothingUnder(t, key);
    }
    PopContent(t.View(), key);
    assert t.root == null ==> t.nodes == map[];
    var popped, err := t.Pop(key);
  }

  method StepClear(t: StructuredHashTree, key: Key)
    requires t.Valid() && t.Whole()
    modifies t, t.nodes.Values
    ensures t.Valid() && t.Whole() && t.OnlyNewNodes(old(t.nodes))
    ensures ContentOf(t.View()) == Meaning(old(ContentOf(t.View())), OpClear(key))
  {
    t.NoEmptyKey();
    ClearContent(t.View(), key);
    assert t.root == null ==> t.nodes == map[];
    var node, err := t.Clear(key);
  }

  /** One operation does to the contents what it means. */
  method Step(t: StructuredHashTree, op: Op)
    requires t.Valid() && t.Whole()
    modifies t, t.nodes.Values
    ensures t.Valid() && t.Whole() && t.OnlyNewNodes(old(t.nodes))
    ensures ContentOf(t.View()) == Meaning(old(ContentOf(t.View())), op)
  {
    match op {
      case OpAdd(item) => StepAdd(t, item);
      case OpPop(key) => StepPop(t, key);
      case OpClear(key) => StepClear(t, key);
    }
  }

  lemma NothingUnder(t: StructuredHashTree, key: Key)
    requires t.Valid() && t.Whole() && key != [] && key !in t.View()
    ensures ContentWithout(ContentOf(t.View()), key) == ContentOf(t.View())
  {
    t.ValidView();
    forall k | k in t.View() ensures !(key <= k) {
      NothingBelowAbsent(t.View(), key, k);
    }
  }

  /** Any sequence of operations, starting from an empty tree. */
  method Run(ops: seq<Op>) returns (t: StructuredHashTree)
    ensures fresh(t) && (forall k :: k in t.nodes ==> fresh(t.nodes[k])) && t.Valid() && t.Whole()
    ensures ContentOf(t.View()) == MeaningOfRun(ops)
  {
    t := new StructuredHashTree();
    for i := 0 to |ops|
      invariant fresh(t) && (forall k :: k in t.nodes ==> fresh(t.nodes[k])) && t.Valid() && t.Whole()
      invariant ContentOf(t.View()) == MeaningOfRun(ops[..i])
    {
      assert ops[..i + 1][..i] == ops[..i];
      Step(t, ops[i]);
    }
    assert ops[..|ops|] == ops;
  }

  /**
   History independence: whatever was done to them, two trees agree on their root (both have none,
   or both have the same key and hash) exactly when their contents agree.
   */
  lemma SameRootIffSameContent(t: StructuredHashTree, u: StructuredHashTree)
    requires t.Valid() && t.Whole() && u.Valid() && u.Whole()
    ensures ContentOf(t.View()) == ContentOf(u.View()) <==>
            (t.root == null && u.root == null) ||
            (t.root != null && u.root != null && t.root.fullHash == u.root.fullHash)
  {
    t.NonEmptyContent();
    u.NonEmptyContent();
    if t.root != null && u.root != null {
      assert t.LinkedAt(t.root.key) && u.LinkedAt(u.root.key);
      RootHashIsContent(t.store, t.root.key, u.store, u.root.key);
    }
  }

  /** What an empty tree is known by. */
  function KnownBy(t: StructuredHashTree): Option<Key>
    reads t
  {
    if t.rootKey == Some([]) then None else t.rootKey
  }

  /**
   The hash of the whole tree is history independent up to what it remembers when it is empty: it is
   equal exactly when the contents are, and two empty trees are known by the same root key.
   */
  lemma RootFullHashIsContent(t: StructuredHashTree, u: StructuredHashTree)
    requires t.Valid() && t.Whole() && u.Valid() && u.Whole()
    ensures t.RootFullHash() == u.RootFullHash() <==>
            ContentOf(t.View()) == ContentOf(u.View()) &&
              (t.root == null && u.root == null ==> KnownBy(t) == KnownBy(u))
  {
    SameRootIffSameContent(t, u);
    HashOfNodes(t);
    HashOfNodes(u);
  }

  /** A tree with nodes never has the hash of an empty one. */
  lemma HashOfNodes(t: StructuredHashTree)
    requires t.Valid()
    ensures t.root != null ==> t.root.fullHash.Some? && t.root.fullHash.value.NodeHash?
  {
    if t.root != null {
      assert t.LinkedAt(t.root.key) && HashAt(t.store, t.root.key);
    }
  }

  /** Two trees with nothing in them and different hashes: a new one, and one that was emptied again. */
  method NewAndEmptied() returns (t: StructuredHashTree, u: StructuredHashTree)
    ensures t.Valid() && t.Whole() && u.Valid() && u.Whole()
    ensures ContentOf(t.View()) == ContentOf(u.View()) == map[]
    ensures t.RootFullHash() == None && u.RootFullHash() == Some(KeyHash(["a"]))
  {
    u := Emptied("a");
    t := new StructuredHashTree();
  }

  /** A tree in which one root has come and gone. */
  method Emptied(part: string) returns (u: StructuredHashTree)
    ensures fresh(u) && u.Valid() && u.Whole() && u.root == null && u.rootKey == Some([part]) && u.View() == map[]
  {
    u := new StructuredHashTree();
    var err := u.Add([part], map[]);
    AllBelowRoot(u);
    var popped;
    popped, err := u.Pop([part]);
    u.NonEmptyContent();
  }

  /**
   A batch with two roots is rejected and leaves nothing in a new tree; but the hash of the tree, which
   was none, is now that of the root key the batch asked for first.
   */
  method RejectedBatch() returns (t: StructuredHashTree, err: Option<Error>, before: Option<Digest>)
    ensures t.Valid() && err == Some(MultipleRootTreeError) && ContentOf(t.View()) == map[]
    ensures before == None && t.RootFullHash() == Some(KeyHash(["a"]))
  {
    t := new StructuredHashTree();
    before := t.RootFullHash();
    var items := [Item(["a"], map[], Absent, false), Item(["b"], map[], Absent, false)];
    assert items[0].key[..1] == ["a"] && items[1].key[..1] == ["b"] && items[0] in items && items[1] in items;
    assert {["a"], ["b"]} <= t.RootKeys() + Firsts(items);
    err := t.Include(items);
  }

  lemma AllBelowRoot(t: StructuredHashTree)
    requires t.Valid() && t.root != null
    ensures t.root.key in t.nodes && ViewWithout(t.View(), t.root.key) == map[]
  {
    forall k | k in t.View() ensures t.root.key <= k {
      assert ShapeAt(t.store, t.root.key, k);
    }
  }

  ghost predicate ErrorFree(v: View) {
    forall k :: k in v ==> !v[k].error
  }

  /** What is left to remove and to add between error-free trees tells their contents apart. */
  lemma DifferenceOfContents(v: View, w: View)
    requires ErrorFree(v) && ErrorFree(w)
    ensures ToRemove(v, w) == ContentOf(w).Keys - ContentOf(v).Keys
    ensures forall k :: k in ToAdd(v, w) <==>
      k in ContentOf(v) && (k !in ContentOf(w) || ContentOf(w)[k] != ContentOf(v)[k])
  {
  }

  /** Trees with the same contents have an empty difference, whatever is in error. */
  lemma NoDifference(v: View, w: View)
    requires ContentOf(v) == ContentOf(w)
    ensures ToAdd(v, w) == {} && ToRemove(v, w) == {}
  {
    forall k ensures k !in ToAdd(v, w) && k !in ToRemove(v, w) {
      assert k in ContentOf(v) <==> k in ContentOf(w);
      if k in ContentOf(v) {
        assert ContentOf(v)[k] == ContentOf(w)[k];
      }
    }
  }

  /**
   Transforms `other` into `mine` by their difference: the keys to remove are cleared and the keys
   to add are added with the attributes they have in `mine`.
   */
  method ApplyDifference(mine: StructuredHashTree, other: StructuredHashTree, contents: Content)
    requires mine != other && mine.Valid() && mine.Whole() && other.Valid() && other.Whole()
    requires mine.nodes.Values !! other.nodes.Values
    requires ErrorFree(mine.View()) && ErrorFree(other.View()) && contents == ContentOf(mine.View())
    modifies other, other.nodes.Values
    ensures mine.Valid() && other.Valid() && other.Whole()
    ensures ContentOf(other.View()) == ContentOf(mine.View())
    ensures ToAdd(mine.View(), other.View()) == {} && ToRemove(mine.View(), other.View()) == {}
  {
    var add, remove := mine.Diff(other);
    DifferenceAddsUp(mine.View(), other.View(), add, remove);
    FitsContents(mine);
    RemoveAndAdd(other, remove, add, contents);
    NoDifference(mine.View(), other.View());
  }

  method RemoveAndAdd(t: StructuredHashTree, remove: seq<Key>, add: seq<Key>, contents: Content)
    requires t.Valid() && t.Whole()
    requires forall k :: k in add ==> k in contents
    requires forall k :: k in contents ==> Fits(contents, k)
    requires forall k :: k in Removed(ContentOf(t.View()), remove) ==> k in contents
    modifies t, t.nodes.Values
    ensures t.Valid() && t.Whole()
    ensures ContentOf(t.View()) == Added(Removed(old(ContentOf(t.View())), remove), add, contents)
  {
    RemoveAll(t, remove);
    AddEach(t, add, contents);
  }

  /** Taking the keys to remove out of the contents of `w` and putting those to add in gives those of `v`. */
  lemma DifferenceAddsUp(v: View, w: View, add: seq<Key>, remove: seq<Key>)
    requires ErrorFree(v) && ErrorFree(w) && Lists(add, ToAdd(v, w)) && Lists(remove, ToRemove(v, w))
    ensures forall k :: k in add ==> k in ContentOf(v)
    ensures forall k :: k in Removed(ContentOf(w), remove) ==> k in ContentOf(v)
    ensures Added(Removed(ContentOf(w), remove), add, ContentOf(v)) == ContentOf(v)
  {
    DifferenceOfContents(v, w);
    ListsKeys(add, ToAdd(v, w));
    ListsKeys(remove, ToRemove(v, w));
    AddsUp(ContentOf(w), ContentOf(v), remove, add);
  }

  lemma AddsUp(theirs: Content, contents: Content, remove: seq<Key>, add: seq<Key>)
    requires forall k :: k in remove <==> k in theirs && k !in contents
    requires forall k :: k in add <==> k in contents && (k !in theirs || theirs[k] != contents[k])
    ensures Added(Removed(theirs, remove), add, contents) == contents
    ensures forall k :: k in Removed(theirs, remove) ==> k in contents
  {
  }

  lemma ListsKeys(xs: seq<Key>, ks: set<Key>)
    requires Lists(xs, ks)
    ensures forall k :: k in xs <==> k in ks
  {
    forall k ensures k in xs <==> k in ks {
      assert k in xs <==> k in multiset(xs);
    }
  }

  lemma FitsContents(t: StructuredHashTree)
    requires t.Valid() && t.Whole()
    ensures forall k :: k in ContentOf(t.View()) ==> Fits(ContentOf(t.View()), k)
  {
    if t.root != null {
      forall k | k in ContentOf(t.View()) ensures k != [] && [k[0]] == t.root.key {
        assert ShapeAt(t.store, t.root.key, k);
      }
    }
  }

  ghost function Removed(c: Content, keys: seq<Key>): Content {
    map k | k in c && k !in keys :: c[k]
  }

  ghost function Added(c: Content, keys: seq<Key>, contents: Content): Content
    requires forall k :: k in keys ==> k in contents
  {
    map k | k in c.Keys + (set j | j in keys) :: if k in keys then contents[k] else c[k]
  }

  lemma RemovedStep(c: Content, keys: seq<Key>, i: nat)
    requires i < |keys|
    ensures Removed(c, keys[..i + 1]) == Removed(c, keys[..i]) - {keys[i]}
  {
    assert keys[..i + 1] == keys[..i] + [keys[i]];
  }

  lemma AddedStep(c: Content, keys: seq<Key>, contents: Content, i: nat)
    requires i < |keys| && forall k :: k in keys ==> k in contents
    requires forall k :: k in contents ==> Fits(contents, k)
    requires forall k :: k in c ==> k in contents
    ensures Fits(Added(c, keys[..i], contents), keys[i])
    ensures Added(c, keys[..i + 1], contents) == Added(c, keys[..i], contents)[keys[i] := contents[keys[i]]]
  {
    assert keys[..i + 1] == keys[..i] + [keys[i]];
    assert keys[i] in keys && Fits(contents, keys[i]);
    forall k | k in Added(c, keys[..i], contents) ensures k in contents {
    }
  }

  method RemoveAll(t: StructuredHashTree, keys: seq<Key>)
    requires t.Valid() && t.Whole()
    modifies t, t.nodes.Values
    ensures t.Valid() && t.Whole() && t.OnlyNewNodes(old(t.nodes))
    ensures ContentOf(t.View()) == Removed(old(ContentOf(t.View())), keys)
  {
    ghost var c := ContentOf(t.View());
    assert Removed(c, keys[..0]) == c;
    for i := 0 to |keys|
      invariant t.Valid() && t.Whole() && t.OnlyNewNodes(old(t.nodes))
      invariant ContentOf(t.View()) == Removed(c, keys[..i])
    {
      RemovedStep(c, keys, i);
      StepClear(t, keys[i]);
    }
    assert keys[..|keys|] == keys;
  }

  method AddEach(t: StructuredHashTree, keys: seq<Key>, contents: Content)
    requires t.Valid() && t.Whole()
    requires forall k :: k in keys ==> k in contents
    requires forall k :: k in contents ==> Fits(contents, k)
    requires forall k :: k in ContentOf(t.View()) ==> k in contents
    modifies t, t.nodes.Values
    ensures t.Valid() && t.Whole() && t.OnlyNewNodes(old(t.nodes))
    ensures ContentOf(t.View()) == Added(old(ContentOf(t.View())), keys, contents)
  {
    ghost var c := ContentOf(t.View());
    assert Added(c, keys[..0], contents) == c;
    for i := 0 to |keys|
      invariant t.Valid() && t.Whole() && t.OnlyNewNodes(old(t.nodes))
      invariant ContentOf(t.View()) == Added(c, keys[..i], contents)
    {
      AddedStep(c, keys, contents, i);
      StepAdd(t, Item(keys[i], contents[keys[i]], Absent, false));
    }
    assert keys[..|keys|] == keys;
  }
}
