/**
 What the tree operations do, key by key: which nodes there are afterwards and what each of them holds,
 written out in the fields of the nodes.
 */
module ViewLaws {
  import opened Keys
  import opened TreeStore
  import opened TreeTheory
  import opened TreeDiff
  import opened StructuredTree

  /** Strings compare by their first different character, and a prefix comes before the whole. */
  lemma {:induction false} StringsAreLexical(a: string, b: string)
    ensures StringLess(a, b) <==>
      || (a <= b && a != b)
      || exists n :: 0 <= n < |a| && n < |b| && a[..n] == b[..n] && a[n] < b[n]
  {
    if a == [] || b == [] {
    } else if a[0] != b[0] {
      StringsDifferAtOnce(a, b);
    } else {
      StringsAreLexical(a[1..], b[1..]);
      assert a == [a[0]] + a[1..] && b == [b[0]] + b[1..];
      if n :| 0 <= n < |a[1..]| && n < |b[1..]| && a[1..][..n] == b[1..][..n] && a[1..][n] < b[1..][n] {
        assert a[..n + 1] == [a[0]] + a[1..][..n] && b[..n + 1] == [b[0]] + b[1..][..n];
        assert a[n + 1] < b[n + 1];
      }
      if n :| 0 <= n < |a| && n < |b| && a[..n] == b[..n] && a[n] < b[n] {
        assert a[1..][..n - 1] == a[..n][1..] && b[1..][..n - 1] == b[..n][1..];
        assert a[1..][n - 1] < b[1..][n - 1];
      }
    }
  }

  lemma StringsDifferAtOnce(a: string, b: string)
    requires a != [] && b != [] && a[0] != b[0]
    ensures !(a <= b)
    ensures (exists n :: 0 <= n < |a| && n < |b| && a[..n] == b[..n] && a[n] < b[n]) <==> a[0] < b[0]
  {
    if a[0] < b[0] {
      assert a[..0] == b[..0];
    }
    if n :| 0 <= n < |a| && n < |b| && a[..n] == b[..n] && a[n] < b[n] {
      assert n > 0 ==> a[..n][0] == b[..n][0];
    }
  }

  /** Siblings are kept in the order of their last part that is not the same. */
  lemma {:induction false} KeysAreLexical(a: Key, b: Key)
    ensures KeyLess(a, b) <==>
      || (a <= b && a != b)
      || exists n :: 0 <= n < |a| && n < |b| && a[..n] == b[..n] && StringLess(a[n], b[n])
  {
    if a == [] || b == [] {
    } else if a[0] != b[0] {
      KeysDifferAtOnce(a, b);
    } else {
      StringLessOrder(a[0], b[0]);
      KeysAreLexical(a[1..], b[1..]);
      assert a == [a[0]] + a[1..] && b == [b[0]] + b[1..];
      if n :| 0 <= n < |a[1..]| && n < |b[1..]| && a[1..][..n] == b[1..][..n] && StringLess(a[1..][n], b[1..][n]) {
        assert a[..n + 1] == [a[0]] + a[1..][..n] && b[..n + 1] == [b[0]] + b[1..][..n];
        assert StringLess(a[n + 1], b[n + 1]);
      }
      if n :| 0 <= n < |a| && n < |b| && a[..n] == b[..n] && StringLess(a[n], b[n]) {
        assert a[1..][..n - 1] == a[..n][1..] && b[1..][..n - 1] == b[..n][1..];
        assert StringLess(a[1..][n - 1], b[1..][n - 1]);
      }
    }
  }

  lemma KeysDifferAtOnce(a: Key, b: Key)
    requires a != [] && b != [] && a[0] != b[0]
    ensures !(a <= b)
    ensures (exists n :: 0 <= n < |a| && n < |b| && a[..n] == b[..n] && StringLess(a[n], b[n])) <==>
      StringLess(a[0], b[0])
  {
    if StringLess(a[0], b[0]) {
      assert a[..0] == b[..0];
    }
    if n :| 0 <= n < |a| && n < |b| && a[..n] == b[..n] && StringLess(a[n], b[n]) {
      assert n > 0 ==> a[..n][0] == b[..n][0];
    }
  }

  // ---------------------------------------------------------------- node objects

  /**
   What a node object holds: its part of the view, a partial hash over its key, its dummy flag and its
   attributes, and a full hash over that and the full hashes of its children, which are in order.
   */
  lemma NodeShows(t: StructuredHashTree, k: Key)
    requires t.Valid()
    ensures k in t.View() <==> k in t.nodes
    ensures k in t.nodes ==>
      var n, x := t.nodes[k], t.View()[k];
      && n.key == k && n.dummy == x.dummy && n.error == x.error && n.metadata == x.meta
      && n.partialHash == AttrHash(k, x.dummy, x.attrs)
      && (x.dummy ==> x.attrs == map[] && n.children != [])
      && n.fullHash.Some? && n.fullHash.value.NodeHash? && n.fullHash.value.partial == n.partialHash
      && |n.fullHash.value.children| == |n.children|
    ensures k in t.nodes ==>
      var n := t.nodes[k];
      && (forall i :: 0 <= i < |n.children| ==>
            n.children[i] in t.nodes.Values && |n.children[i].key| == |k| + 1 && k <= n.children[i].key &&
            n.children[i].fullHash == Some(n.fullHash.value.children[i]))
      && (forall i, j :: 0 <= i < j < |n.children| ==> KeyLess(n.children[i].key, n.children[j].key))
  {
    if k in t.nodes {
      assert t.LinkedAt(k) && PartialAt(t.store, k) && HashAt(t.store, k) && LeafAt(t.store, k);
      assert ShapeAt(t.store, t.root.key, k);
      var n := t.nodes[k];
      assert KeysOf(n.children) == t.store[k].kids;
      forall i | 0 <= i < |n.children|
        ensures n.children[i] in t.nodes.Values && |n.children[i].key| == |k| + 1 && k <= n.children[i].key
        ensures n.children[i].fullHash == Some(n.fullHash.value.children[i])
      {
        assert n.children[i].key == t.store[k].kids[i] && t.store[k].kids[i] in t.store[k].kids;
        assert t.LinkedAt(n.children[i].key);
      }
    }
  }

  // ---------------------------------------------------------------- the operations

  /**
   Adding: the node itself is real and holds what was given, and its metadata is kept, dropped or
   overridden entry by entry; placeholders fill the way to it; every other node stays.
   */
  lemma AddedAt(v: View, key: Key, attrs: Attrs, m: MetaArg, error: bool, k: Key)
    requires key != []
    ensures var w := AddView(v, key, attrs, m, error);
      && (k in w <==> k in v || (k != [] && k <= key))
      && key in w && w[key].dummy == false && w[key].attrs == attrs && w[key].error == error
      && (k in v && k != key ==> w[k] == v[k])
      && (k !in v && k != [] && k <= key && k != key ==> w[k] == Val(true, map[], false, map[]))
    ensures var was, now := if key in v then v[key].meta else map[], AddView(v, key, attrs, m, error)[key].meta;
      match m
      case Absent => now == was
      case Unset => now == map[]
      case Given(d) => now == was + d
  {
    PathKeysAre(key, k);
    PathKeysAre(key, key);
  }

  /** Clearing: the node becomes a dummy without attributes, and nodes without a real one below go. */
  lemma ClearedAt(v: View, key: Key, k: Key)
    ensures key !in v ==> ClearView(v, key) == v
    ensures key in v ==>
      var w := ClearView(v, key);
      && (k in w <==> k in v && exists r :: r in v && r != key && k <= r && !v[r].dummy)
      && (k in w ==> w[k] == if k == key then Val(true, map[], v[k].error, v[k].meta) else v[k])
  {
    if key in v {
      var u := v[key := v[key].(dummy := true, attrs := map[])];
      if k in v && exists r :: r in v && r != key && k <= r && !v[r].dummy {
        var r :| r in v && r != key && k <= r && !v[r].dummy;
        assert r in u && !u[r].dummy;
      }
      if k in ClearView(v, key) {
        var r :| r in u && k <= r && !u[r].dummy;
        assert r in v && r != key && !v[r].dummy;
      }
    }
  }

  /** Popping: what is at or below the key goes with its nodes as they are, and what then has no real node below. */
  lemma PoppedAt(v: View, key: Key, k: Key)
    ensures k in ViewBelow(v, key) <==> k in v && key <= k
    ensures k in ViewBelow(v, key) ==> ViewBelow(v, key)[k] == v[k]
    ensures var w := Trim(ViewWithout(v, key));
      && (k in w <==> k in v && exists r :: r in v && !(key <= r) && k <= r && !v[r].dummy)
      && (k in w ==> w[k] == v[k])
  {
    var u := ViewWithout(v, key);
    if k in v && exists r :: r in v && !(key <= r) && k <= r && !v[r].dummy {
      var r :| r in v && !(key <= r) && k <= r && !v[r].dummy;
      assert r in u && !u[r].dummy;
      assert key <= k ==> key <= r;
    }
    if k in Trim(u) {
      var r :| r in u && k <= r && !u[r].dummy;
      assert r in v && !(key <= r) && !v[r].dummy;
    }
  }

  /** A batch adds one item after the other. */
  lemma {:induction false} AddAllInTurn(v: View, a: seq<Item>, b: seq<Item>)
    ensures AddAll(v, a + b) == AddAll(AddAll(v, a), b)
  {
    if b == [] {
      assert a + b == a;
    } else {
      assert (a + b)[..|a + b| - 1] == a + b[..|b| - 1];
      AddAllInTurn(v, a, b[..|b| - 1]);
    }
  }

  lemma AddAllOfOne(v: View, item: Item)
    ensures AddAll(v, []) == v
    ensures AddAll(v, [item]) ==
      if item.key == [] then v else AddView(v, item.key, item.attrs, item.meta, item.error)
  {
    assert [item][..0] == [];
    assert AddAll(v, []) == v;
  }

  lemma FirstsAre(items: seq<Item>)
    ensures forall i :: 0 <= i < |items| && items[i].key != [] ==> [items[i].key[0]] in Firsts(items)
    ensures forall x :: x in Firsts(items) ==>
      exists i :: 0 <= i < |items| && items[i].key != [] && x == [items[i].key[0]]
  {
    forall i | 0 <= i < |items| && items[i].key != [] ensures [items[i].key[0]] in Firsts(items) {
      assert items[i] in items && items[i].key[..1] == [items[i].key[0]];
    }
    forall x | x in Firsts(items)
      ensures exists i :: 0 <= i < |items| && items[i].key != [] && x == [items[i].key[0]]
    {
      var item :| item in items && item.key != [] && item.key[..1] == x;
      var i :| 0 <= i < |items| && items[i] == item;
      assert x == [items[i].key[0]];
    }
  }

  /** A batch has one root when no two of its keys differ in their first part, nor one from the root of the tree. */
  lemma OneRootMeans(t: StructuredHashTree, items: seq<Item>)
    ensures OneRoot(t.RootKeys() + Firsts(items)) <==>
      && (forall i, j :: 0 <= i < |items| && 0 <= j < |items| && items[i].key != [] && items[j].key != [] ==>
            items[i].key[0] == items[j].key[0])
      && (t.root != null ==> forall i :: 0 <= i < |items| && items[i].key != [] ==> t.root.key == [items[i].key[0]])
  {
    FirstsAre(items);
    if OneRoot(t.RootKeys() + Firsts(items)) {
      OneRootAgrees(t, items);
    }
  }

  lemma OneRootAgrees(t: StructuredHashTree, items: seq<Item>)
    requires OneRoot(t.RootKeys() + Firsts(items))
    ensures forall i, j :: 0 <= i < |items| && 0 <= j < |items| && items[i].key != [] && items[j].key != [] ==>
      items[i].key[0] == items[j].key[0]
    ensures t.root != null ==>
      forall i :: 0 <= i < |items| && items[i].key != [] ==> t.root.key == [items[i].key[0]]
  {
    FirstsAre(items);
    var roots := t.RootKeys() + Firsts(items);
    forall i, j | 0 <= i < |items| && 0 <= j < |items| && items[i].key != [] && items[j].key != []
      ensures items[i].key[0] == items[j].key[0]
    {
      assert [items[i].key[0]] in roots && [items[j].key[0]] in roots;
      assert [items[i].key[0]][0] == [items[j].key[0]][0];
    }
    if t.root != null {
      assert t.root.key in roots;
    }
  }

  // ---------------------------------------------------------------- differences

  /**
   Comparing: a key is listed to be added once if it is real and free of error here, and there it is missing,
   or free of error and a dummy or with other attributes; and never otherwise.
   */
  lemma ToAddMeans(mine: View, other: View, add: seq<Key>, k: Key)
    requires Lists(add, ToAdd(mine, other))
    ensures multiset(add)[k] ==
      if k in mine && !mine[k].dummy && !mine[k].error &&
         (k in other ==> !other[k].error && (other[k].dummy || other[k].attrs != mine[k].attrs))
      then 1 else 0
  {
    assert multiset(add)[k] == multiset(ToAdd(mine, other))[k];
  }

  /** And once to be removed if it is real and free of error there, and here missing or a dummy free of error. */
  lemma ToRemoveMeans(mine: View, other: View, remove: seq<Key>, k: Key)
    requires Lists(remove, ToRemove(mine, other))
    ensures multiset(remove)[k] ==
      if k in other && !other[k].dummy && !other[k].error && (k in mine ==> mine[k].dummy && !mine[k].error)
      then 1 else 0
  {
    assert multiset(remove)[k] == multiset(ToRemove(mine, other))[k];
  }

  /** The contents of a tree are the attributes of its real nodes. */
  lemma ContentMeans(v: View, k: Key)
    ensures k in ContentOf(v) <==> k in v && !v[k].dummy
    ensures k in ContentOf(v) ==> ContentOf(v)[k] == v[k].attrs
  {}
}
