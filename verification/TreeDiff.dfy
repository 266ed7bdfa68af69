/** The differences between two trees, first by looking at every key, then node by node. */
module TreeDiff {
  import opened Keys
  import opened TreeStore
  import opened TreeTheory

  /** `xs` lists the keys in `ks`, each of them once. */
  ghost predicate Lists(xs: seq<Key>, ks: set<Key>) {
    multiset(xs) == multiset(ks)
  }

  lemma ListsConcat(xs: seq<Key>, a: set<Key>, ys: seq<Key>, b: set<Key>)
    requires Lists(xs, a) && Lists(ys, b) && a !! b
    ensures Lists(xs + ys, a + b)
  {
    assert multiset(a + b) == multiset(a) + multiset(b);
  }

  /** Nodes in error are left out of every comparison, and dummies are nobody's. */
  predicate Listed(x: Val) {
    !x.dummy && !x.error
  }

  ghost predicate Under(ks: seq<Key>, k: Key) {
    exists c :: c in ks && c <= k
  }

  ghost function ListedUnder(v: View, ks: seq<Key>): set<Key> {
    set k | k in v && Listed(v[k]) && Under(ks, k)
  }

  /** What `mine` has and `other` has not, or has differently without being in error there. */
  function ToAdd(mine: View, other: View): set<Key> {
    set k | k in mine && Listed(mine[k]) &&
      (k !in other || (!other[k].error && (other[k].dummy || other[k].attrs != mine[k].attrs)))
  }

  /** What `other` has where `mine` has no node, or a dummy that is not in error. */
  function ToRemove(mine: View, other: View): set<Key> {
    set k | k in other && Listed(other[k]) && (k !in mine || (mine[k].dummy && !mine[k].error))
  }

  ghost function AddUnder(mine: View, other: View, ks: seq<Key>): set<Key> {
    set k | k in ToAdd(mine, other) && Under(ks, k)
  }

  ghost function RemoveUnder(mine: View, other: View, ks: seq<Key>): set<Key> {
    set k | k in ToRemove(mine, other) && Under(ks, k)
  }

  /** No key is below two different siblings. */
  lemma UnderOne(ks: seq<Key>, i: nat, k: Key)
    requires Sorted(ks) && i < |ks| && (forall c :: c in ks ==> |c| == |ks[0]|)
    requires ks[i] <= k
    ensures !Under(ks[..i], k)
  {
    if Under(ks[..i], k) {
      var c :| c in ks[..i] && c <= k;
      var j :| 0 <= j < i && ks[j] == c;
      assert ks[i] in ks;
      PrefixesOfSameLength(c, ks[i], k);
      KeyLessOrder(ks[j], ks[i]);
    }
  }

  lemma UnderStep(ks: seq<Key>, i: nat, k: Key)
    requires i < |ks|
    ensures Under(ks[..i + 1], k) <==> Under(ks[..i], k) || ks[i] <= k
  {
    assert ks[..i + 1] == ks[..i] + [ks[i]];
    if Under(ks[..i + 1], k) {
      var c :| c in ks[..i + 1] && c <= k;
    }
    if Under(ks[..i], k) {
      var c :| c in ks[..i] && c <= k;
      assert c in ks[..i + 1];
    }
    if ks[i] <= k {
      assert ks[i] in ks[..i + 1];
    }
  }

  lemma UnderOnly(c: Key, k: Key)
    ensures Under([c], k) <==> c <= k
  {
    assert c in [c];
  }

  lemma UnderBoth(a: seq<Key>, b: seq<Key>, k: Key)
    ensures Under(a + b, k) <==> Under(a, k) || Under(b, k)
  {
    if Under(a, k) {
      var c :| c in a && c <= k;
      assert c in a + b;
    }
    if Under(b, k) {
      var c :| c in b && c <= k;
      assert c in a + b;
    }
  }

  /** Everything strictly below a node is at or below one of its children. */
  lemma BelowIsUnderKids(s: Store, root: Key, k: Key, j: Key)
    requires Shape(s, root) && k in s && j in s
    ensures k <= j <==> j == k || Under(s[k].kids, j)
  {
    assert ShapeAt(s, root, k);
    if k <= j && j != k {
      var c := j[..|k| + 1];
      AncestorsPresent(s, root, j, |k| + 1);
      assert Parent(c) == k && ShapeAt(s, root, c);
      assert c in s[k].kids && c <= j;
    }
    if Under(s[k].kids, j) {
      var c :| c in s[k].kids && c <= j;
      assert k <= c;
    }
  }

  /** Nothing at or below a key that is not a node. */
  lemma NothingBelow(s: Store, root: Key, k: Key, j: Key)
    requires Shape(s, root) && k !in s && |root| <= |k| && k <= j
    ensures j !in s
  {
    assert j[..|k|] == k;
    if j in s {
      AncestorsPresent(s, root, j, |k|);
    }
  }

  /** Two trees with the same full hash at `k` do not differ there or below: pruning loses nothing. */
  lemma PruningLosesNothing(s: Store, sr: Key, t: Store, tr: Key, k: Key)
    requires Good(s, sr) && Good(t, tr) && k in s && k in t && s[k].full == t[k].full
    ensures AddUnder(ViewOf(s), ViewOf(t), [k]) == {} && RemoveUnder(ViewOf(s), ViewOf(t), [k]) == {}
  {
    var v, w := ViewOf(s), ViewOf(t);
    forall j | Under([k], j) ensures j !in ToAdd(v, w) && j !in ToRemove(v, w) {
      UnderOnly(k, j);
      if j in s {
        FullHashDetermines(s, sr, t, tr, k, j);
        assert PartialAt(s, j) && PartialAt(t, j);
      } else if j in t {
        FullHashDetermines(t, tr, s, sr, k, j);
      }
    }
  }

  /** The difference at one common node and below it, from its own and its children's. */
  lemma DifferenceAtNode(s: Store, sr: Key, t: Store, tr: Key, k: Key)
    requires Good(s, sr) && Good(t, tr) && k in s && k in t
    ensures var v, w, kids := ViewOf(s), ViewOf(t), t[k].kids + s[k].kids;
      && AddUnder(v, w, [k]) == ({k} * ToAdd(v, w)) + AddUnder(v, w, kids)
      && RemoveUnder(v, w, [k]) == ({k} * ToRemove(v, w)) + RemoveUnder(v, w, kids)
      && !Under(kids, k)
  {
    var v, w, kids := ViewOf(s), ViewOf(t), t[k].kids + s[k].kids;
    forall j | j in s || j in t ensures Under([k], j) <==> j == k || Under(kids, j) {
      UnderOnly(k, j);
      UnderBoth(t[k].kids, s[k].kids, j);
      if j in s { BelowIsUnderKids(s, sr, k, j); }
      if j in t { BelowIsUnderKids(t, tr, k, j); }
      UnderKidsIsBelow(s, sr, k, j);
      UnderKidsIsBelow(t, tr, k, j);
    }
    UnderBoth(t[k].kids, s[k].kids, k);
    UnderKidsIsBelow(s, sr, k, k);
    UnderKidsIsBelow(t, tr, k, k);
  }

  lemma UnderKidsIsBelow(s: Store, root: Key, k: Key, j: Key)
    requires Shape(s, root) && k in s
    ensures Under(s[k].kids, j) ==> k <= j && j != k
  {
    assert ShapeAt(s, root, k);
    if Under(s[k].kids, j) {
      var c :| c in s[k].kids && c <= j;
      assert k <= c;
    }
  }

  /** The hashes tell whether a common node is to be added or removed. */
  lemma PartialHashDecides(s: Store, t: Store, k: Key)
    requires k in s && k in t && PartialAt(s, k) && PartialAt(t, k)
    ensures k in ToAdd(ViewOf(s), ViewOf(t)) <==>
            s[k].partial != t[k].partial && !s[k].error && !t[k].error && !s[k].dummy
    ensures k in ToRemove(ViewOf(s), ViewOf(t)) <==>
            s[k].partial != t[k].partial && !s[k].error && !t[k].error && s[k].dummy
  {
  }

  /** What a loop over siblings adds to its list, one sibling at a time. */
  lemma AddUnderStep(mine: View, other: View, ks: seq<Key>, i: nat)
    requires i < |ks|
    ensures AddUnder(mine, other, ks[..i + 1]) == AddUnder(mine, other, ks[..i]) + AddUnder(mine, other, [ks[i]])
    ensures RemoveUnder(mine, other, ks[..i + 1]) ==
      RemoveUnder(mine, other, ks[..i]) + RemoveUnder(mine, other, [ks[i]])
  {
    forall k ensures Under(ks[..i + 1], k) <==> Under(ks[..i], k) || Under([ks[i]], k) {
      UnderStep(ks, i, k);
      UnderOnly(ks[i], k);
    }
  }

  /** Siblings: sorted keys of one length. */
  ghost predicate Siblings(ks: seq<Key>) {
    Sorted(ks) && forall c :: c in ks ==> |c| == |ks[0]|
  }

  lemma KidsAreSiblings(s: Store, root: Key, k: Key)
    requires Shape(s, root) && k in s
    ensures Siblings(s[k].kids)
  {
    assert ShapeAt(s, root, k);
    if s[k].kids != [] {
      assert s[k].kids[0] in s[k].kids;
    }
  }

  /** What has been listed at `k` when the first `i` of its children are done. */
  ghost function ListedSoFar(s: Store, k: Key, i: nat): set<Key>
    requires k in s && i <= |s[k].kids|
  {
    (if Listed(ValOf(s[k])) then {k} else {}) + ListedUnder(ViewOf(s), s[k].kids[..i])
  }

  lemma ListingStarts(s: Store, k: Key)
    requires k in s
    ensures ListedSoFar(s, k, 0) == if Listed(ValOf(s[k])) then {k} else {}
  {
  }

  /** Listing the subtree of the next child. */
  lemma ListNextKid(s: Store, root: Key, k: Key, i: nat, keys: seq<Key>, below: seq<Key>)
    requires Shape(s, root) && k in s && i < |s[k].kids|
    requires Lists(keys, ListedSoFar(s, k, i)) && Lists(below, ListedUnder(ViewOf(s), [s[k].kids[i]]))
    ensures Lists(keys + below, ListedSoFar(s, k, i + 1))
  {
    var v, ks := ViewOf(s), s[k].kids;
    KidsAreSiblings(s, root, k);
    forall j ensures Under(ks[..i + 1], j) <==> Under(ks[..i], j) || Under([ks[i]], j) {
      UnderStep(ks, i, j);
      UnderOnly(ks[i], j);
    }
    forall j | j in ListedUnder(v, [ks[i]]) ensures j !in ListedSoFar(s, k, i) {
      UnderOnly(ks[i], j);
      UnderOne(ks, i, j);
      assert ShapeAt(s, root, k) && ks[i] in ks;
    }
    ListsConcat(keys, ListedSoFar(s, k, i), below, ListedUnder(v, [ks[i]]));
    assert ListedSoFar(s, k, i + 1) == ListedSoFar(s, k, i) + ListedUnder(v, [ks[i]]);
  }

  lemma ListingEnds(s: Store, root: Key, k: Key)
    requires Shape(s, root) && k in s
    ensures ListedSoFar(s, k, |s[k].kids|) == ListedUnder(ViewOf(s), [k])
  {
    assert s[k].kids[..|s[k].kids|] == s[k].kids;
    forall j | j in s ensures Under([k], j) <==> j == k || Under(s[k].kids, j) {
      UnderOnly(k, j);
      BelowIsUnderKids(s, root, k, j);
    }
  }

  /** `ys` is `xs` followed by a list of the keys in `more`. */
  ghost predicate Grows(xs: seq<Key>, more: set<Key>, ys: seq<Key>) {
    xs <= ys && Lists(ys[|xs|..], more)
  }

  lemma GrowsTwice(xs: seq<Key>, a: set<Key>, ys: seq<Key>, b: set<Key>, zs: seq<Key>)
    requires Grows(xs, a, ys) && Grows(ys, b, zs) && a !! b
    ensures Grows(xs, a + b, zs)
  {
    ListsConcat(ys[|xs|..], a, zs[|ys|..], b);
    assert zs[|xs|..] == ys[|xs|..] + zs[|ys|..];
  }

  /** Nothing has been compared yet. */
  lemma GrowsNone(v: View, w: View, ks: seq<Key>, xs: seq<Key>)
    ensures Grows(xs, AddUnder(v, w, ks[..0]), xs) && Grows(xs, RemoveUnder(v, w, ks[..0]), xs)
  {
    assert xs[|xs|..] == [];
  }

  lemma GrowsByList(xs: seq<Key>, more: set<Key>, list: seq<Key>)
    requires Lists(list, more)
    ensures Grows(xs, more, xs + list)
  {
    assert (xs + list)[|xs|..] == list;
  }

  /** Two lists of siblings at one place of two trees, each with all the nodes the other list has. */
  ghost predicate Level(s: Store, sr: Key, t: Store, tr: Key, sk: seq<Key>, ok: seq<Key>) {
    && Siblings(sk) && Siblings(ok)
    && (sk != [] && ok != [] ==> |sk[0]| == |ok[0]|)
    && (forall c :: c in sk ==> c in s && |c| >= |tr| && (c in t ==> c in ok))
    && (forall c :: c in ok ==> c in t && |c| >= |sr| && (c in s ==> c in sk))
  }

  lemma KidsLevel(s: Store, sr: Key, t: Store, tr: Key, k: Key)
    requires Shape(s, sr) && Shape(t, tr) && k in s && k in t
    ensures Level(s, sr, t, tr, s[k].kids, t[k].kids)
    ensures forall c :: c in t[k].kids ==> |c| == |k| + 1
  {
    KidsAreSiblings(s, sr, k);
    KidsAreSiblings(t, tr, k);
    assert ShapeAt(s, sr, k) && ShapeAt(t, tr, k);
    forall c | c in s[k].kids ensures c in t ==> c in t[k].kids {
      KidsOfExtension(s, sr, k, c);
      if c in t { assert ShapeAt(t, tr, c); }
    }
    forall c | c in t[k].kids ensures c in s ==> c in s[k].kids {
      KidsOfExtension(t, tr, k, c);
      if c in s { assert ShapeAt(s, sr, c); }
    }
  }

  /** The next of the other tree's siblings has been compared. */
  lemma GrowsNextOther(v: View, w: View, ok: seq<Key>, i: nat, xs: seq<Key>, ys: seq<Key>, zs: seq<Key>,
                       rs: seq<Key>, ps: seq<Key>, qs: seq<Key>)
    requires Siblings(ok) && i < |ok|
    requires Grows(xs, AddUnder(v, w, ok[..i]), ys) && Grows(ys, AddUnder(v, w, [ok[i]]), zs)
    requires Grows(rs, RemoveUnder(v, w, ok[..i]), ps) && Grows(ps, RemoveUnder(v, w, [ok[i]]), qs)
    ensures Grows(xs, AddUnder(v, w, ok[..i + 1]), zs)
    ensures Grows(rs, RemoveUnder(v, w, ok[..i + 1]), qs)
  {
    AddUnderStep(v, w, ok, i);
    forall k | Under([ok[i]], k) ensures !Under(ok[..i], k) {
      UnderOnly(ok[i], k);
      UnderOne(ok, i, k);
    }
    GrowsTwice(xs, AddUnder(v, w, ok[..i]), ys, AddUnder(v, w, [ok[i]]), zs);
    GrowsTwice(rs, RemoveUnder(v, w, ok[..i]), ps, RemoveUnder(v, w, [ok[i]]), qs);
  }

  /** The next of one's own siblings: compared already, or missing on the other side. */
  lemma GrowsNextOwn(s: Store, sr: Key, t: Store, tr: Key, sk: seq<Key>, ok: seq<Key>, j: nat,
                     xs: seq<Key>, ys: seq<Key>, zs: seq<Key>)
    requires Shape(t, tr) && Level(s, sr, t, tr, sk, ok) && j < |sk|
    requires Grows(xs, AddUnder(ViewOf(s), ViewOf(t), ok + sk[..j]), ys)
    requires sk[j] in ok ==> zs == ys
    requires sk[j] !in ok ==> Grows(ys, ListedUnder(ViewOf(s), [sk[j]]), zs)
    ensures Grows(xs, AddUnder(ViewOf(s), ViewOf(t), ok + sk[..j + 1]), zs)
  {
    var v, w, c := ViewOf(s), ViewOf(t), sk[j];
    assert c in sk;
    forall k ensures Under(ok + sk[..j + 1], k) <==> Under(ok + sk[..j], k) || Under([c], k) {
      UnderBoth(ok, sk[..j + 1], k);
      UnderBoth(ok, sk[..j], k);
      UnderStep(sk, j, k);
      UnderOnly(c, k);
    }
    assert AddUnder(v, w, ok + sk[..j + 1]) == AddUnder(v, w, ok + sk[..j]) + AddUnder(v, w, [c]);
    if c in ok {
      forall k | Under([c], k) ensures Under(ok + sk[..j], k) {
        UnderOnly(c, k);
        UnderBoth(ok, sk[..j], k);
      }
      assert AddUnder(v, w, ok + sk[..j + 1]) == AddUnder(v, w, ok + sk[..j]);
    } else {
      MissingIsAdded(s, t, tr, c);
      forall k | Under([c], k) ensures !Under(ok + sk[..j], k) {
        UnderOnly(c, k);
        UnderOne(sk, j, k);
        UnderBoth(ok, sk[..j], k);
        NotUnderOthers(ok, c, k);
      }
      GrowsTwice(xs, AddUnder(v, w, ok + sk[..j]), ys, AddUnder(v, w, [c]), zs);
    }
  }

  lemma NotUnderOthers(ks: seq<Key>, c: Key, k: Key)
    requires c !in ks && (forall d :: d in ks ==> |d| == |c|) && c <= k
    ensures !Under(ks, k)
  {
    if Under(ks, k) {
      var d :| d in ks && d <= k;
      PrefixesOfSameLength(c, d, k);
    }
  }

  lemma MissingIsAdded(s: Store, t: Store, tr: Key, c: Key)
    requires Shape(t, tr) && c !in t && |tr| <= |c|
    ensures AddUnder(ViewOf(s), ViewOf(t), [c]) == ListedUnder(ViewOf(s), [c])
    ensures RemoveUnder(ViewOf(s), ViewOf(t), [c]) == {}
  {
    forall k | Under([c], k) ensures k !in t {
      UnderOnly(c, k);
      NothingBelow(t, tr, c, k);
    }
  }

  lemma MissingIsRemoved(s: Store, sr: Key, t: Store, c: Key)
    requires Shape(s, sr) && c !in s && |sr| <= |c|
    ensures RemoveUnder(ViewOf(s), ViewOf(t), [c]) == ListedUnder(ViewOf(t), [c])
    ensures AddUnder(ViewOf(s), ViewOf(t), [c]) == {}
  {
    forall k | Under([c], k) ensures k !in s {
      UnderOnly(c, k);
      NothingBelow(s, sr, c, k);
    }
  }

  /** A subtree that is missing here is listed for removal. */
  lemma GrowsByMissing(s: Store, sr: Key, t: Store, c: Key, xs: seq<Key>, rs: seq<Key>, keys: seq<Key>)
    requires Shape(s, sr) && c !in s && |sr| <= |c| && Lists(keys, ListedUnder(ViewOf(t), [c]))
    ensures Grows(xs, AddUnder(ViewOf(s), ViewOf(t), [c]), xs)
    ensures Grows(rs, RemoveUnder(ViewOf(s), ViewOf(t), [c]), rs + keys)
  {
    MissingIsRemoved(s, sr, t, c);
    GrowsByList(rs, RemoveUnder(ViewOf(s), ViewOf(t), [c]), keys);
    assert xs[|xs|..] == [];
  }

  /** Nothing is to be removed below one's own siblings that the other list does not have. */
  lemma RemoveUnderOthersOnly(s: Store, sr: Key, t: Store, tr: Key, sk: seq<Key>, ok: seq<Key>)
    requires Shape(t, tr) && Level(s, sr, t, tr, sk, ok)
    ensures RemoveUnder(ViewOf(s), ViewOf(t), ok + sk) == RemoveUnder(ViewOf(s), ViewOf(t), ok)
  {
    forall k | k in RemoveUnder(ViewOf(s), ViewOf(t), ok + sk) ensures Under(ok, k) {
      UnderBoth(ok, sk, k);
      if !Under(ok, k) {
        var c :| c in sk && c <= k;
        if c !in t {
          NothingBelow(t, tr, c, k);
        }
      }
    }
    forall k | Under(ok, k) ensures Under(ok + sk, k) {
      UnderBoth(ok, sk, k);
    }
  }

  lemma GrowsByOne(xs: seq<Key>, k: Key, ks: set<Key>, ys: seq<Key>)
    requires ys == if k in ks then xs + [k] else xs
    ensures Grows(xs, {k} * ks, ys)
  {
    assert (xs + [k])[|xs|..] == [k];
  }

  /** A common node and its children have been compared. */
  lemma GrowsAtNode(s: Store, sr: Key, t: Store, tr: Key, k: Key,
                    xs: seq<Key>, ys: seq<Key>, zs: seq<Key>, rs: seq<Key>, ps: seq<Key>, qs: seq<Key>)
    requires Good(s, sr) && Good(t, tr) && k in s && k in t
    requires var differs := s[k].partial != t[k].partial && !s[k].error && !t[k].error;
      && ys == (if differs && !s[k].dummy then xs + [k] else xs)
      && ps == (if differs && s[k].dummy then rs + [k] else rs)
    requires var v, w, kids := ViewOf(s), ViewOf(t), t[k].kids + s[k].kids;
      if s[k].full != t[k].full then Grows(ys, AddUnder(v, w, kids), zs) && Grows(ps, RemoveUnder(v, w, kids), qs)
      else zs == ys && qs == ps
    ensures Grows(xs, AddUnder(ViewOf(s), ViewOf(t), [k]), zs)
    ensures Grows(rs, RemoveUnder(ViewOf(s), ViewOf(t), [k]), qs)
  {
    var v, w := ViewOf(s), ViewOf(t);
    assert PartialAt(s, k) && PartialAt(t, k);
    PartialHashDecides(s, t, k);
    if s[k].full == t[k].full {
      assert HashAt(s, k) && HashAt(t, k);
      PruningLosesNothing(s, sr, t, tr, k);
      assert zs == xs && qs == rs;
    } else {
      DifferenceAtNode(s, sr, t, tr, k);
      GrowsByOne(xs, k, ToAdd(v, w), ys);
      GrowsByOne(rs, k, ToRemove(v, w), ps);
      GrowsTwice(xs, {k} * ToAdd(v, w), ys, AddUnder(v, w, t[k].kids + s[k].kids), zs);
      GrowsTwice(rs, {k} * ToRemove(v, w), ps, RemoveUnder(v, w, t[k].kids + s[k].kids), qs);
    }
  }

  /** The roots of two trees at the same level are siblings of no one else. */
  lemma RootsLevel(s: Store, sr: Key, t: Store, tr: Key)
    requires Shape(s, sr) && Shape(t, tr) && |sr| == |tr|
    ensures Level(s, sr, t, tr, [sr], [tr])
  {
    if tr in s {
      assert ShapeAt(s, sr, tr);
      PrefixesOfSameLength(sr, tr, tr);
    }
    if sr in t {
      assert ShapeAt(t, tr, sr);
      PrefixesOfSameLength(sr, tr, sr);
    }
  }

  lemma AllUnderRoots(s: Store, sr: Key, t: Store, tr: Key)
    requires Shape(s, sr) && Shape(t, tr)
    ensures AddUnder(ViewOf(s), ViewOf(t), [tr] + [sr]) == ToAdd(ViewOf(s), ViewOf(t))
    ensures RemoveUnder(ViewOf(s), ViewOf(t), [tr] + [sr]) == ToRemove(ViewOf(s), ViewOf(t))
  {
    forall k | k in s ensures Under([tr] + [sr], k) {
      assert ShapeAt(s, sr, k) && sr in [tr] + [sr];
    }
    forall k | k in t ensures Under([tr] + [sr], k) {
      assert ShapeAt(t, tr, k) && tr in [tr] + [sr];
    }
  }

  lemma ListedBelowRoot(s: Store, root: Key)
    requires Shape(s, root)
    ensures ListedUnder(ViewOf(s), [root]) == ToAdd(ViewOf(s), map[]) == ToRemove(map[], ViewOf(s))
  {
    forall k | k in s ensures Under([root], k) {
      assert ShapeAt(s, root, k);
      UnderOnly(root, k);
    }
  }
}
