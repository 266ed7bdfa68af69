/**
 What the full hash of a tree says about its contents: trees with the same root hash hold the same
 attributes under the same keys, and the other way round, whatever happened to them before.
 */
module TreeTheory {
  import opened Keys
  import opened TreeStore

  type Content = map<Key, Attrs>

  /** The explicitly added nodes and their attributes. */
  ghost function ContentOf(v: View): Content {
    map k | k in v && !v[k].dummy :: v[k].attrs
  }

  /** The same hash at `k` means the same nodes with the same attributes at and below `k`. */
  lemma {:induction false} FullHashDetermines(s: Store, sr: Key, t: Store, tr: Key, k: Key, j: Key)
    requires Good(s, sr) && Good(t, tr) && k in s && k in t && s[k].full == t[k].full
    requires k <= j && j in s
    ensures j in t && s[j].partial == t[j].partial
    decreases |j| - |k|
  {
    assert HashAt(s, k) && HashAt(t, k) && ShapeAt(s, sr, k);
    if j == k {
    } else {
      var c := j[..|k| + 1];
      AncestorsPresent(s, sr, j, |k| + 1);
      assert Parent(c) == k && ShapeAt(s, sr, c);
      var i :| 0 <= i < |s[k].kids| && s[k].kids[i] == c;
      var d := t[k].kids[i];
      assert KidHashes(s, s[k].kids)[i] == KidHashes(t, t[k].kids)[i];
      assert ShapeAt(t, tr, k) && d in t[k].kids && HashAt(s, c) && HashAt(t, d);
      assert PartialAt(s, c) && PartialAt(t, d);
      FullHashDetermines(s, sr, t, tr, c, j);
    }
  }

  /** A node is there exactly when a real one needs it. */
  lemma NodesFromContent(s: Store, root: Key, k: Key)
    requires Good(s, root)
    ensures k in s <==> root <= k && exists r :: r in ContentOf(ViewOf(s)) && k <= r
  {
    var c := ContentOf(ViewOf(s));
    if k in s {
      assert ShapeAt(s, root, k);
      GoodIsSupported(s, root, k);
      var r :| r in ViewOf(s) && k <= r && !ViewOf(s)[r].dummy;
      assert r in c;
    }
    if root <= k && exists r :: r in c && k <= r {
      var r :| r in c && k <= r;
      AncestorsPresent(s, root, r, |k|);
      assert r[..|k|] == k;
    }
  }

  /** Nodes with the same contents below them have the same hashes. */
  lemma {:induction false} ContentDeterminesHash(s: Store, t: Store, root: Key, k: Key)
    requires Good(s, root) && Good(t, root) && k in s
    requires ContentOf(ViewOf(s)) == ContentOf(ViewOf(t))
    ensures k in t && s[k].partial == t[k].partial && s[k].full == t[k].full
    decreases Longest(s.Keys) - |k|
  {
    NodesFromContent(s, root, k);
    NodesFromContent(t, root, k);
    SamePartial(s, t, root, k);
    SameChildren(s, t, root, k);
    assert HashAt(s, k) && HashAt(t, k) && ShapeAt(s, root, k);
    forall i | 0 <= i < |s[k].kids| ensures KidHashes(s, s[k].kids)[i] == KidHashes(t, t[k].kids)[i] {
      assert s[k].kids[i] in s[k].kids;
      ContentDeterminesHash(s, t, root, s[k].kids[i]);
    }
    assert KidHashes(s, s[k].kids) == KidHashes(t, t[k].kids);
  }

  lemma SamePartial(s: Store, t: Store, root: Key, k: Key)
    requires Good(s, root) && Good(t, root) && k in s && k in t
    requires ContentOf(ViewOf(s)) == ContentOf(ViewOf(t))
    ensures s[k].partial == t[k].partial
  {
    assert PartialAt(s, k) && PartialAt(t, k);
    assert k in ContentOf(ViewOf(s)) <==> k in ContentOf(ViewOf(t));
    if !s[k].dummy {
      assert ContentOf(ViewOf(s))[k] == ContentOf(ViewOf(t))[k];
    }
  }

  lemma SameChildren(s: Store, t: Store, root: Key, k: Key)
    requires Good(s, root) && Good(t, root) && k in s && k in t
    requires ContentOf(ViewOf(s)) == ContentOf(ViewOf(t))
    ensures s[k].kids == t[k].kids
  {
    assert ShapeAt(s, root, k) && ShapeAt(t, root, k);
    forall c ensures c in s[k].kids <==> c in t[k].kids {
      NodesFromContent(s, root, c);
      NodesFromContent(t, root, c);
      if c in s[k].kids {
        KidsOfExtension(s, root, k, c);
        assert ShapeAt(t, root, c);
      }
      if c in t[k].kids {
        KidsOfExtension(t, root, k, c);
        assert ShapeAt(s, root, c);
      }
    }
    SortedUnique(s[k].kids, t[k].kids);
  }

  /**
   History independence: two consistent trees at the same level have the same root hash if and
   only if they hold the same attributes under the same keys.
   */
  lemma RootHashIsContent(s: Store, sr: Key, t: Store, tr: Key)
    requires Good(s, sr) && Good(t, tr) && |sr| == |tr|
    ensures s[sr].full == t[tr].full <==> ContentOf(ViewOf(s)) == ContentOf(ViewOf(t))
  {
    var cs, ct := ContentOf(ViewOf(s)), ContentOf(ViewOf(t));
    if s[sr].full == t[tr].full {
      assert HashAt(s, sr) && HashAt(t, tr) && PartialAt(s, sr) && PartialAt(t, tr);
      SameBelowRoot(s, t, sr);
      SameBelowRoot(t, s, sr);
      assert cs == ct;
    }
    if cs == ct {
      NodesFromContent(s, sr, sr);
      var r :| r in cs && sr <= r;
      assert r in t && ShapeAt(t, tr, r);
      PrefixesOfSameLength(sr, tr, r);
      ContentDeterminesHash(s, t, sr, sr);
    }
  }

  lemma SameRootKey(s: Store, sr: Key, t: Store, tr: Key)
    requires Good(s, sr) && Good(t, tr) && s[sr].full == t[tr].full
    ensures sr == tr
  {
    assert HashAt(s, sr) && HashAt(t, tr) && PartialAt(s, sr) && PartialAt(t, tr);
  }

  lemma SameBelowRoot(s: Store, t: Store, root: Key)
    requires Good(s, root) && Good(t, root) && s[root].full == t[root].full
    ensures forall k :: k in s ==> k in t && s[k].partial == t[k].partial && s[k].dummy == t[k].dummy
  {
    forall k | k in s ensures k in t && s[k].partial == t[k].partial && s[k].dummy == t[k].dummy {
      assert ShapeAt(s, root, k);
      FullHashDetermines(s, root, t, root, root, k);
      assert PartialAt(s, k) && PartialAt(t, k);
    }
  }

  // ---------------------------------------------------------------- what operations do to the contents

  /** The keys of a tree with a one-part root agree on their first part. */
  ghost predicate Fits(c: Content, key: Key) {
    key != [] && forall k :: k in c ==> k != [] && k[0] == key[0]
  }

  lemma TrimKeepsContent(v: View)
    ensures ContentOf(Trim(v)) == ContentOf(v)
  {
    var c, d := ContentOf(Trim(v)), ContentOf(v);
    forall k ensures k in c <==> k in d {
      assert k in d ==> Supported(v, k);
    }
  }

  lemma AddContent(v: View, key: Key, attrs: Attrs, m: MetaArg, error: bool)
    ensures ContentOf(AddView(v, key, attrs, m, error)) == ContentOf(v)[key := attrs]
  {
    var w := AddView(v, key, attrs, m, error);
    forall k | k in w && k !in v && k != key ensures w[k].dummy {
    }
  }

  lemma ClearContent(v: View, key: Key)
    ensures ContentOf(ClearView(v, key)) == ContentOf(v) - {key}
  {
    if key in v {
      TrimKeepsContent(v[key := v[key].(dummy := true, attrs := map[])]);
    }
  }

  ghost function ContentWithout(c: Content, key: Key): Content {
    map k | k in c && !(key <= k) :: c[k]
  }

  lemma PopContent(v: View, key: Key)
    ensures ContentOf(Trim(ViewWithout(v, key))) == ContentWithout(ContentOf(v), key)
    ensures ContentOf(ViewBelow(v, key)) == map k | k in ContentOf(v) && key <= k :: ContentOf(v)[k]
  {
    TrimKeepsContent(ViewWithout(v, key));
  }
}
