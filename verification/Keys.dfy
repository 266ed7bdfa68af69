/**
 Node keys of the structured hash tree and the order in which siblings are kept.
 A key is the tuple of its parts, and tuples and strings compare lexicographically.
 */
module Keys {

  datatype Option<+T> = None | Some(value: T)

  type Key = seq<string>

  predicate StringLess(a: string, b: string) {
    b != [] && (a == [] || a[0] < b[0] || (a[0] == b[0] && StringLess(a[1..], b[1..])))
  }

  predicate KeyLess(a: Key, b: Key) {
    b != [] && (a == [] || StringLess(a[0], b[0]) || (a[0] == b[0] && KeyLess(a[1..], b[1..])))
  }

  lemma {:induction false} StringLessOrder(a: string, b: string)
    ensures !(StringLess(a, b) && StringLess(b, a))
    ensures a == b || StringLess(a, b) || StringLess(b, a)
    ensures a == b ==> !StringLess(a, b)
  {
    if a == [] || b == [] || a[0] != b[0] {
    } else {
      StringLessOrder(a[1..], b[1..]);
      assert a == [a[0]] + a[1..] && b == [b[0]] + b[1..];
    }
  }

  lemma {:induction false} StringLessTransitive(a: string, b: string, c: string)
    requires StringLess(a, b) && StringLess(b, c)
    ensures StringLess(a, c)
  {
    if a == [] || a[0] != b[0] || b[0] != c[0] {
    } else {
      StringLessTransitive(a[1..], b[1..], c[1..]);
    }
  }

  /** Keys are totally ordered. */
  lemma {:induction false} KeyLessOrder(a: Key, b: Key)
    ensures !(KeyLess(a, b) && KeyLess(b, a))
    ensures a == b || KeyLess(a, b) || KeyLess(b, a)
    ensures a == b ==> !KeyLess(a, b)
  {
    if a == [] || b == [] {
    } else {
      StringLessOrder(a[0], b[0]);
      if a[0] == b[0] {
        KeyLessOrder(a[1..], b[1..]);
        assert a == [a[0]] + a[1..] && b == [b[0]] + b[1..];
      }
    }
  }

  lemma {:induction false} KeyLessTransitive(a: Key, b: Key, c: Key)
    requires KeyLess(a, b) && KeyLess(b, c)
    ensures KeyLess(a, c)
  {
    if a == [] {
    } else {
      StringLessOrder(a[0], b[0]);
      StringLessOrder(b[0], c[0]);
      if a[0] == b[0] == c[0] {
        KeyLessTransitive(a[1..], b[1..], c[1..]);
      } else if a[0] != b[0] && b[0] != c[0] {
        StringLessTransitive(a[0], b[0], c[0]);
      }
    }
  }

  /** The key of the parent node. */
  function Parent(k: Key): Key
    requires k != []
  {
    k[..|k| - 1]
  }

  ghost predicate Sorted(ks: seq<Key>) {
    forall i, j :: 0 <= i < j < |ks| ==> KeyLess(ks[i], ks[j])
  }

  /** A strictly sorted list is determined by its elements. */
  lemma {:induction false} SortedUnique(a: seq<Key>, b: seq<Key>)
    requires Sorted(a) && Sorted(b)
    requires forall k :: k in a <==> k in b
    ensures a == b
  {
    assert b != [] ==> b[0] in b;
    if a == [] {
    } else {
      assert a[0] in b;
      assert b != [] && b[0] in a;
      var i :| 0 <= i < |b| && b[i] == a[0];
      var j :| 0 <= j < |a| && a[j] == b[0];
      KeyLessOrder(a[0], b[0]);
      forall k ensures k in a[1..] <==> k in b[1..] {
        if k in a[1..] {
          KeyLessOrder(a[0], k);
          assert k in b;
        }
        if k in b[1..] {
          KeyLessOrder(b[0], k);
          assert k in a;
        }
      }
      SortedUnique(a[1..], b[1..]);
      assert a == [a[0]] + a[1..] && b == [b[0]] + b[1..];
    }
  }

  /** Two prefixes of one key are the same when they are equally long. */
  lemma PrefixesOfSameLength(a: Key, b: Key, k: Key)
    requires a <= k && b <= k && |a| == |b|
    ensures a == b
  {
    assert a == k[..|a|] && b == k[..|b|];
  }
}
