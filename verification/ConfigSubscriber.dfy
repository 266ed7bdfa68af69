/**
 The index of configuration subscriptions: a map from options to callbacks, and a map from callbacks
 back to options that has to agree with it.
 */
module ConfigSubscription {
  import opened Keys

  type Group = string
  type Item = string
  type Callback = string
  type Host = string

  datatype Subscription = Subscription(version: string, hosts: set<Host>)

  type Forward = map<Group, map<Item, map<Callback, Subscription>>>
  type Reverse = map<Callback, map<Group, set<Item>>>

  datatype Registration = Registered | OneHostPerCallbackItemSubscriptionAllowed

  function Lookup(m: Forward, g: Group, i: Item, c: Callback): Option<Subscription> {
    if g in m && i in m[g] && c in m[g][i] then Some(m[g][i][c]) else None
  }

  predicate Listed(r: Reverse, g: Group, i: Item, c: Callback) {
    c in r && g in r[c] && i in r[c][g]
  }

  ghost predicate NoEmptyForward(m: Forward) {
    forall g :: g in m ==> m[g] != map[] && forall i :: i in m[g] ==> m[g][i] != map[]
  }

  ghost predicate NoEmptyReverse(r: Reverse) {
    forall c :: c in r ==> r[c] != map[] && forall g :: g in r[c] ==> r[c][g] != {}
  }

  datatype Index = Index(forward: Forward, reverse: Reverse) {

    function At(g: Group, i: Item, c: Callback): Option<Subscription> {
      Lookup(forward, g, i, c)
    }

    ghost predicate Agrees(g: Group, i: Item, c: Callback) {
      && (At(g, i, c).Some? <==> Listed(reverse, g, i, c))
      && (At(g, i, c).Some? ==> |At(g, i, c).value.hosts| == 1)
    }

    /** Both maps hold the same entries, every entry has one host, and no inner map is empty. */
    ghost predicate Valid() {
      && NoEmptyForward(forward) && NoEmptyReverse(reverse)
      && forall g, i, c {:trigger Agrees(g, i, c)} :: Agrees(g, i, c)
    }
  }

  /** Read in either map, an entry is the same, it has one host, and no map in a map is empty. */
  lemma ValidMeans(index: Index, g: Group, i: Item, c: Callback)
    requires index.Valid()
    ensures var m, r := index.forward, index.reverse;
      && index.At(g, i, c) == (if g in m && i in m[g] && c in m[g][i] then Some(m[g][i][c]) else None)
      && (g in m && i in m[g] && c in m[g][i] <==> c in r && g in r[c] && i in r[c][g])
      && (g in m && i in m[g] && c in m[g][i] ==> |m[g][i][c].hosts| == 1)
      && (g in m ==> m[g] != map[]) && (g in m && i in m[g] ==> m[g][i] != map[])
      && (c in r ==> r[c] != map[]) && (c in r && g in r[c] ==> r[c][g] != {})
  {
    assert index.Agrees(g, i, c);
  }

  /** An index is determined by its entries. */
  lemma EntriesDetermineIndex(a: Index, b: Index)
    requires a.Valid() && b.Valid()
    requires forall g, i, c :: a.At(g, i, c) == b.At(g, i, c)
    ensures a == b
  {
    forall g, i, c ensures Lookup(a.forward, g, i, c) == Lookup(b.forward, g, i, c) {
      assert a.At(g, i, c) == b.At(g, i, c);
    }
    SameForward(a.forward, b.forward);
    SameForward(b.forward, a.forward);
    assert a.forward == b.forward;
    forall g, i, c ensures Listed(a.reverse, g, i, c) <==> Listed(b.reverse, g, i, c) {
      assert a.Agrees(g, i, c) && b.Agrees(g, i, c);
    }
    SameReverse(a.reverse, b.reverse);
    SameReverse(b.reverse, a.reverse);
    assert a.reverse == b.reverse;
  }

  lemma SameForward(a: Forward, b: Forward)
    requires NoEmptyForward(a) && NoEmptyForward(b)
    requires forall g, i, c :: Lookup(a, g, i, c) == Lookup(b, g, i, c)
    ensures forall g :: g in a ==> g in b && a[g] == b[g]
  {
    forall g | g in a ensures g in b && a[g] == b[g] {
      var i :| i in a[g];
      var c :| c in a[g][i];
      assert Lookup(a, g, i, c).Some?;
      assert Lookup(b, g, i, c).Some?;
      SameGroup(a, b, g);
      SameGroup(b, a, g);
      SameInner(a[g], b[g]);
    }
  }

  lemma SameInner(a: map<Item, map<Callback, Subscription>>, b: map<Item, map<Callback, Subscription>>)
    requires forall i :: i in a ==> i in b && forall c :: c in a[i] ==> c in b[i] && a[i][c] == b[i][c]
    requires forall i :: i in b ==> i in a && forall c :: c in b[i] ==> c in a[i] && b[i][c] == a[i][c]
    ensures a == b
  {
    forall i | i in a ensures a[i] == b[i] {
      assert a[i].Keys == b[i].Keys;
    }
  }

  lemma SameGroup(a: Forward, b: Forward, g: Group)
    requires NoEmptyForward(a) && g in a && g in b
    requires forall i, c :: Lookup(a, g, i, c) == Lookup(b, g, i, c)
    ensures forall i :: i in a[g] ==> i in b[g] && forall c :: c in a[g][i] ==> c in b[g][i] && a[g][i][c] == b[g][i][c]
  {
    forall i | i in a[g] ensures i in b[g] && forall c :: c in a[g][i] ==> c in b[g][i] && a[g][i][c] == b[g][i][c] {
      var c0 :| c0 in a[g][i];
      assert Lookup(a, g, i, c0).Some?;
      assert Lookup(b, g, i, c0).Some?;
      forall c | c in a[g][i] ensures c in b[g][i] && a[g][i][c] == b[g][i][c] {
        assert Lookup(a, g, i, c) == Lookup(b, g, i, c);
      }
    }
  }

  lemma SameReverse(a: Reverse, b: Reverse)
    requires NoEmptyReverse(a) && NoEmptyReverse(b)
    requires forall g, i, c :: Listed(a, g, i, c) <==> Listed(b, g, i, c)
    ensures forall c :: c in a ==> c in b && a[c] == b[c]
  {
    forall c | c in a ensures c in b && a[c] == b[c] {
      var g0 :| g0 in a[c];
      var i0 :| i0 in a[c][g0];
      assert Listed(b, g0, i0, c);
      SameItems(a, b, c);
      SameItems(b, a, c);
    }
  }

  lemma SameItems(a: Reverse, b: Reverse, c: Callback)
    requires NoEmptyReverse(a) && c in a && c in b
    requires forall g, i :: Listed(a, g, i, c) <==> Listed(b, g, i, c)
    ensures forall g :: g in a[c] ==> g in b[c] && a[c][g] == b[c][g]
  {
    forall g | g in a[c] ensures g in b[c] && a[c][g] == b[c][g] {
      var i0 :| i0 in a[c][g];
      assert Listed(a, g, i0, c);
      assert Listed(b, g, i0, c);
      forall i ensures i in a[c][g] <==> i in b[c][g] {
        assert Listed(a, g, i, c) <==> Listed(b, g, i, c);
      }
    }
  }

  function Put(m: Forward, g: Group, i: Item, c: Callback, s: Subscription): (r: Forward)
    ensures Lookup(r, g, i, c) == Some(s)
    ensures forall g', i', c' :: (g', i', c') != (g, i, c) ==> Lookup(r, g', i', c') == Lookup(m, g', i', c')
    ensures NoEmptyForward(m) ==> NoEmptyForward(r)
  {
    var items := if g in m then m[g] else map[];
    var callbacks := if i in items then items[i] else map[];
    m[g := items[i := callbacks[c := s]]]
  }

  function List(r: Reverse, g: Group, i: Item, c: Callback): (r': Reverse)
    ensures forall g', i', c' :: Listed(r', g', i', c') <==> Listed(r, g', i', c') || (g', i', c') == (g, i, c)
    ensures NoEmptyReverse(r) ==> NoEmptyReverse(r')
  {
    var groups := if c in r then r[c] else map[];
    var items := if g in groups then groups[g] else {};
    r[c := groups[g := items + {i}]]
  }

  /** Without an entry, and without the maps it leaves empty. */
  function Drop(m: Forward, g: Group, i: Item, c: Callback): (r: Forward)
    ensures Lookup(r, g, i, c) == None
    ensures forall g', i', c' :: (g', i', c') != (g, i, c) ==> Lookup(r, g', i', c') == Lookup(m, g', i', c')
    ensures NoEmptyForward(m) ==> NoEmptyForward(r)
  {
    if Lookup(m, g, i, c).None? then m else
    var callbacks := m[g][i] - {c};
    assert forall c' :: c' in m[g][i] && c' != c ==> c' in callbacks;
    var items := if callbacks == map[] then m[g] - {i} else m[g][i := callbacks];
    assert forall i' :: i' in m[g] && i' != i ==> i' in items;
    if items == map[] then m - {g} else m[g := items]
  }

  function Unlist(r: Reverse, g: Group, i: Item, c: Callback): (r': Reverse)
    ensures forall g', i', c' :: Listed(r', g', i', c') <==> Listed(r, g', i', c') && (g', i', c') != (g, i, c)
    ensures NoEmptyReverse(r) ==> NoEmptyReverse(r')
  {
    if !Listed(r, g, i, c) then r else
    var items := r[c][g] - {i};
    assert forall i' :: i' in r[c][g] && i' != i ==> i' in items;
    var groups := if items == {} then r[c] - {g} else r[c][g := items];
    assert forall g' :: g' in r[c] && g' != g ==> g' in groups;
    if groups == map[] then r - {c} else r[c := groups]
  }

  lemma Removed(was: Index, now: Index, g: Group, i: Item, c: Callback)
    requires was.Valid() && now.forward == Drop(was.forward, g, i, c) && now.reverse == Unlist(was.reverse, g, i, c)
    ensures now.Valid() && now.At(g, i, c) == None
    ensures forall g', i', c' :: (g', i', c') != (g, i, c) ==> now.At(g', i', c') == was.At(g', i', c')
  {
    forall g', i', c' | (g', i', c') != (g, i, c) ensures now.At(g', i', c') == was.At(g', i', c') {
      assert Lookup(now.forward, g', i', c') == Lookup(was.forward, g', i', c');
    }
    forall g', i', c' ensures now.Agrees(g', i', c') {
      assert was.Agrees(g', i', c');
    }
  }

  lemma SameList(r: Reverse, g: Group, i: Item, c: Callback)
    requires Listed(r, g, i, c)
    ensures List(r, g, i, c) == r
  {
    assert r[c][g] + {i} == r[c][g];
    assert r[c][g := r[c][g]] == r[c];
    assert r[c := r[c]] == r;
  }

  lemma LastHost(hosts: set<Host>, host: Host)
    requires |hosts| == 1 && hosts - {host} != {}
    ensures host !in hosts
  {
    if host in hosts {
      OneHost(hosts, host);
      NoneLeft(hosts, host);
    }
  }

  lemma NoneLeft(hosts: set<Host>, host: Host)
    requires hosts + {host} == {host}
    ensures hosts - {host} == {}
  {
    forall h | h in hosts ensures h in hosts + {host} {
    }
  }

  lemma GoneHost(hosts: set<Host>, host: Host)
    requires |hosts| == 1
    ensures hosts - {host} == {} ==> host in hosts
  {
    if host !in hosts {
      assert hosts - {host} == hosts;
    }
  }

  lemma OneHost(hosts: set<Host>, host: Host)
    requires |hosts| <= 1 && (host in hosts || hosts == {})
    ensures hosts + {host} == {host}
  {
    if host in hosts {
      var rest := hosts - {host};
      assert hosts == rest + {host};
      assert |hosts| == |rest| + 1;
      assert rest == {};
    }
  }

  lemma Entered(was: Index, now: Index, g: Group, i: Item, c: Callback, s: Subscription)
    requires was.Valid() && |s.hosts| == 1
    requires now.forward == Put(was.forward, g, i, c, s) && now.reverse == List(was.reverse, g, i, c)
    ensures now.Valid() && now.At(g, i, c) == Some(s)
    ensures forall g', i', c' :: (g', i', c') != (g, i, c) ==> now.At(g', i', c') == was.At(g', i', c')
  {
    forall g', i', c' | (g', i', c') != (g, i, c) ensures now.At(g', i', c') == was.At(g', i', c') {
      assert Lookup(now.forward, g', i', c') == Lookup(was.forward, g', i', c');
    }
    forall g', i', c' ensures now.Agrees(g', i', c') {
      assert was.Agrees(g', i', c');
    }
  }

  /** Unregistering a new subscription gives back the very same maps. */
  lemma UnregisterUndoesRegister(was: Index, mid: Index, now: Index, g: Group, i: Item, c: Callback)
    requires was.Valid() && now.Valid() && was.At(g, i, c) == None && now.At(g, i, c) == None
    requires forall g', i', c' :: (g', i', c') != (g, i, c) ==> mid.At(g', i', c') == was.At(g', i', c')
    requires forall g', i', c' :: (g', i', c') != (g, i, c) ==> now.At(g', i', c') == mid.At(g', i', c')
    ensures now == was
  {
    forall g', i', c' ensures now.At(g', i', c') == was.At(g', i', c') {
      if (g', i', c') != (g, i, c) {
        assert mid.At(g', i', c') == was.At(g', i', c');
      }
    }
    EntriesDetermineIndex(now, was);
  }

  lemma ListedIsEntry(index: Index, g: Group, i: Item, c: Callback)
    requires index.Valid() && Listed(index.reverse, g, i, c)
    ensures index.At(g, i, c).Some?
  {
    assert index.Agrees(g, i, c);
  }

  /** A callback without entries is not in the reverse map at all. */
  lemma NotListed(index: Index, c: Callback)
    requires index.Valid() && forall g, i :: index.At(g, i, c) == None
    ensures c !in index.reverse
  {
    if c in index.reverse {
      var g :| g in index.reverse[c];
      var i :| i in index.reverse[c][g];
      ListedIsEntry(index, g, i, c);
    }
  }

  class ConfigSubscriber {
    var subscriptionMap: Forward
    var mapByCallbackId: Reverse

    ghost function Entries(): Index
      reads this
    {
      Index(subscriptionMap, mapByCallbackId)
    }

    constructor ()
      ensures Entries() == Index(map[], map[]) && Entries().Valid()
    {
      subscriptionMap, mapByCallbackId := map[], map[];
    }

    /** A callback may follow an option for one host; the version is written even when the host is refused. */
    method RegisterCallback(c: Callback, i: Item, g: Group, host: Host, version: string) returns (outcome: Registration)
      requires Entries().Valid()
      modifies this
      ensures Entries().Valid()
      ensures var was := old(Entries()).At(g, i, c);
        && (outcome.Registered? <==> was.None? || host in was.value.hosts)
        && Entries().At(g, i, c) == Some(Subscription(version, if outcome.Registered? then {host} else was.value.hosts))
      ensures forall g', i', c' :: (g', i', c') != (g, i, c) ==>
        Entries().At(g', i', c') == old(Entries()).At(g', i', c')
    {
      ghost var was := Entries();
      assert was.Agrees(g, i, c);
      var found := Lookup(subscriptionMap, g, i, c);
      var hosts := if found.Some? then found.value.hosts else {};
      if host !in hosts && |hosts| >= 1 {
        subscriptionMap := Put(subscriptionMap, g, i, c, Subscription(version, hosts));
        SameList(mapByCallbackId, g, i, c);
        Entered(was, Entries(), g, i, c, Subscription(version, hosts));
        return OneHostPerCallbackItemSubscriptionAllowed;
      }
      OneHost(hosts, host);
      subscriptionMap := Put(subscriptionMap, g, i, c, Subscription(version, hosts + {host}));
      mapByCallbackId := List(mapByCallbackId, g, i, c);
      Entered(was, Entries(), g, i, c, Subscription(version, {host}));
      return Registered;
    }

    /** Writes the version of a subscription that exists. */
    method RenewSubscription(c: Callback, i: Item, g: Group, version: string)
      requires Entries().Valid()
      modifies this`subscriptionMap
      ensures Entries().Valid()
      ensures var was := old(Entries()).At(g, i, c);
        Entries().At(g, i, c) == if was.Some? then Some(Subscription(version, was.value.hosts)) else None
      ensures forall g', i', c' :: (g', i', c') != (g, i, c) ==>
        Entries().At(g', i', c') == old(Entries()).At(g', i', c')
    {
      ghost var was := Entries();
      var found := Lookup(subscriptionMap, g, i, c);
      if found.Some? {
        assert was.Agrees(g, i, c);
        subscriptionMap := Put(subscriptionMap, g, i, c, found.value.(version := version));
        SameList(mapByCallbackId, g, i, c);
        Entered(was, Entries(), g, i, c, found.value.(version := version));
      }
    }

    /** Removes a subscription, unless a host is named that it is not for. */
    method UnregisterCallbackOption(c: Callback, i: Item, g: Group, host: Host := "")
      requires Entries().Valid()
      modifies this
      ensures Entries().Valid()
      ensures var was := old(Entries()).At(g, i, c);
        Entries().At(g, i, c) == if was.Some? && host != "" && host !in was.value.hosts then was else None
      ensures forall g', i', c' :: (g', i', c') != (g, i, c) ==>
        Entries().At(g', i', c') == old(Entries()).At(g', i', c')
    {
      ghost var was := Entries();
      assert was.Agrees(g, i, c);
      var found := Lookup(subscriptionMap, g, i, c);
      var hosts := if found.Some? then found.value.hosts else {};
      hosts := if host != "" then hosts - {host} else {};
      if hosts == {} {
        RemoveEntry(c, i, g);
        Removed(was, Entries(), g, i, c);
        if found.Some? {
          GoneHost(found.value.hosts, host);
        }
      } else {
        LastHost(found.value.hosts, host);
      }
    }

    method RemoveEntry(c: Callback, i: Item, g: Group)
      requires NoEmptyReverse(mapByCallbackId)
      modifies this
      ensures subscriptionMap == Drop(old(subscriptionMap), g, i, c)
      ensures mapByCallbackId == Unlist(old(mapByCallbackId), g, i, c)
    {
      if Lookup(subscriptionMap, g, i, c).Some? {
        RemoveForward(c, i, g);
      }
      if c in mapByCallbackId && g in mapByCallbackId[c] {
        RemoveReverse(c, i, g);
      }
    }

    method RemoveForward(c: Callback, i: Item, g: Group)
      requires Lookup(subscriptionMap, g, i, c).Some?
      modifies this`subscriptionMap
      ensures subscriptionMap == Drop(old(subscriptionMap), g, i, c)
    {
      var mapGroup := subscriptionMap[g];
      var mapItem := mapGroup[i] - {c};
      if mapItem == map[] {
        mapGroup := mapGroup - {i};
      } else {
        mapGroup := mapGroup[i := mapItem];
      }
      if mapGroup == map[] {
        subscriptionMap := subscriptionMap - {g};
      } else {
        subscriptionMap := subscriptionMap[g := mapGroup];
      }
    }

    method RemoveReverse(c: Callback, i: Item, g: Group)
      requires c in mapByCallbackId && g in mapByCallbackId[c] && NoEmptyReverse(mapByCallbackId)
      modifies this`mapByCallbackId
      ensures mapByCallbackId == Unlist(old(mapByCallbackId), g, i, c)
    {
      var revGroups := mapByCallbackId[c];
      if i !in revGroups[g] {
        assert revGroups[g] - {i} == revGroups[g] && revGroups[g := revGroups[g]] == revGroups;
      }
      var revItems := revGroups[g] - {i};
      if revItems == {} {
        revGroups := revGroups - {g};
      } else {
        revGroups := revGroups[g := revItems];
      }
      if revGroups == map[] {
        mapByCallbackId := mapByCallbackId - {c};
      } else {
        mapByCallbackId := mapByCallbackId[c := revGroups];
      }
    }

    /** Erases a callback from both maps, and nothing else. */
    method UnregisterCallback(c: Callback)
      requires Entries().Valid()
      modifies this
      ensures Entries().Valid() && c !in mapByCallbackId
      ensures forall g, i, c' :: Entries().At(g, i, c') == if c' == c then None else old(Entries()).At(g, i, c')
    {
      ghost var was := Entries();
      var groups := if c in mapByCallbackId then mapByCallbackId[c] else map[];
      var left := groups.Keys;
      forall g, i ensures was.At(g, i, c).Some? <==> g in groups && i in groups[g] {
        assert was.Agrees(g, i, c);
      }
      while left != {}
        invariant left <= groups.Keys && Entries().Valid()
        invariant forall g, i, c' :: Entries().At(g, i, c') == if c' == c && g !in left then None else was.At(g, i, c')
      {
        var g :| g in left;
        UnregisterGroup(c, g, groups[g]);
        left := left - {g};
      }
      NotListed(Entries(), c);
    }

    method UnregisterGroup(c: Callback, g: Group, items: set<Item>)
      requires Entries().Valid() && forall i :: Entries().At(g, i, c).Some? ==> i in items
      modifies this
      ensures Entries().Valid()
      ensures forall g', i, c' ::
        Entries().At(g', i, c') == if (g', c') == (g, c) then None else old(Entries()).At(g', i, c')
    {
      ghost var was := Entries();
      var left := items;
      while left != {}
        invariant left <= items && Entries().Valid()
        invariant forall g', i, c' ::
          Entries().At(g', i, c') == if (g', c') == (g, c) && i !in left then None else was.At(g', i, c')
      {
        var i :| i in left;
        UnregisterCallbackOption(c, i, g);
        left := left - {i};
      }
    }
  }

  /** A subscription that is made and taken back leaves no trace in either map. */
  method RegisterThenUnregister(subscriber: ConfigSubscriber, c: Callback, i: Item, g: Group, host: Host,
                                version: string)
    requires subscriber.Entries().Valid() && subscriber.Entries().At(g, i, c) == None
    modifies subscriber
    ensures subscriber.Entries() == old(subscriber.Entries())
  {
    ghost var was := subscriber.Entries();
    var outcome := subscriber.RegisterCallback(c, i, g, host, version);
    ghost var mid := subscriber.Entries();
    subscriber.UnregisterCallbackOption(c, i, g, host);
    UnregisterUndoesRegister(was, mid, subscriber.Entries(), g, i, c);
  }
}
