/**
 What building trees does, node by node: which nodes related cleaning reaches, what the nodes of a resource
 hold, which resources of a batch go where, and how a status shows on the nodes of its resource.
 */
module BuildLaws {
  import opened Keys
  import opened TreeStore
  import opened TreeDiff
  import opened StructuredTree
  import opened TreeMaker
  import opened TreeBuilder
  import opened TreeReplay

  // ---------------------------------------------------------------- cleaning

  /** A node is related when its metadata says so by a value that is not empty, zero or false. */
  lemma RelatedMeans(meta: Attrs)
    ensures IsRelated(meta) <==>
      "related" in meta && meta["related"] !in {Null, Bool(false), Num(0), Str(""), Arr([]), Obj(map[])}
  {}

  /** Cleaning below a key reaches the nodes that only related ones separate from it. */
  lemma ReachedMeans(v: View, key: Key, k: Key)
    ensures k in RelatedBelow(v, key) <==>
      && key <= k && k != key
      && forall n {:trigger k[..n]} :: |key| < n <= |k| ==>
           && k[..n] in v && "related" in v[k[..n]].meta
           && v[k[..n]].meta["related"] !in {Null, Bool(false), Num(0), Str(""), Arr([]), Obj(map[])}
  {
    if key <= k && k != key {
      assert k[..|k|] == k;
    }
  }

  /** What it reaches becomes a dummy without attributes, and what then has no real node below goes. */
  lemma CleanedAt(v: View, key: Key, k: Key)
    ensures var w, reached := CleanView(v, key), RelatedBelow(v, key);
      && (k in w <==> k in v && exists r :: r in v && k <= r && !v[r].dummy && r !in reached)
      && (k in w ==> w[k] == if k in reached then Val(true, map[], v[k].error, v[k].meta) else v[k])
  {
    DummiedAt(v, RelatedBelow(v, key), k);
  }

  lemma DummiedAt(v: View, ks: set<Key>, k: Key)
    ensures var w := Trim(Dummied(v, ks));
      && (k in w <==> k in v && exists r :: r in v && k <= r && !v[r].dummy && r !in ks)
      && (k in w ==> w[k] == if k in ks then Val(true, map[], v[k].error, v[k].meta) else v[k])
  {
    var u := Dummied(v, ks);
    if k in v && exists r :: r in v && k <= r && !v[r].dummy && r !in ks {
      var r :| r in v && k <= r && !v[r].dummy && r !in ks;
      assert r in u && !u[r].dummy;
    }
    if k in Trim(u) {
      var r :| r in u && k <= r && !u[r].dummy;
      assert r in v && !v[r].dummy && r !in ks;
    }
  }

  /** Clearing resources makes dummies of the nodes they convert to. */
  lemma ClearedAllAt(c: Converter, v: View, rs: seq<Resource>, k: Key)
    ensures var w := ClearAll(c, v, rs);
      && (k in w <==> k in v && exists j ::
            j in v && k <= j && !v[j].dummy && forall r :: r in rs ==> j !in c.convert(r))
      && var gone := exists r :: r in rs && k in c.convert(r);
         k in w ==> w[k] == if gone then Val(true, map[], v[k].error, v[k].meta) else v[k]
  {
    var ks := KeysOfAll(c, rs);
    forall j ensures j in ks <==> exists r :: r in rs && j in c.convert(r) {
    }
    DummiedAt(v, ks, k);
  }

  // ---------------------------------------------------------------- the resources of a batch, in turn

  lemma {:induction false} PrepareInTurn(c: Converter, v: View, a: seq<Resource>, b: seq<Resource>)
    ensures PrepareAll(c, v, a + b) == PrepareAll(c, PrepareAll(c, v, a), b)
  {
    if b == [] {
      assert a + b == a;
    } else {
      assert (a + b)[..|a + b| - 1] == a + b[..|b| - 1];
      PrepareInTurn(c, v, a, b[..|b| - 1]);
    }
  }

  lemma {:induction false} DeleteInTurn(c: Converter, v: View, a: seq<Resource>, b: seq<Resource>)
    ensures DeleteAll(c, v, a + b) == DeleteAll(c, DeleteAll(c, v, a), b)
  {
    if b == [] {
      assert a + b == a;
    } else {
      assert (a + b)[..|a + b| - 1] == a + b[..|b| - 1];
      DeleteInTurn(c, v, a, b[..|b| - 1]);
    }
  }

  /** One resource is prepared by cleaning below its main node, and deleted by clearing that first. */
  lemma OneInTurn(c: Converter, v: View, r: Resource)
    ensures PrepareAll(c, v, []) == v && DeleteAll(c, v, []) == v
    ensures PrepareAll(c, v, [r]) ==
      if c.named(r) && c.mainKey(r).Some? && c.mainKey(r).value in v then CleanView(v, c.mainKey(r).value) else v
    ensures DeleteAll(c, v, [r]) ==
      if c.mainKey(r).None? then v
      else if c.mainKey(r).value in ClearView(v, c.mainKey(r).value)
      then CleanView(ClearView(v, c.mainKey(r).value), c.mainKey(r).value)
      else ClearView(v, c.mainKey(r).value)
  {
    assert [r][..0] == [];
    assert PrepareAll(c, v, []) == v && DeleteAll(c, v, []) == v;
  }

  // ---------------------------------------------------------------- the nodes of a resource

  /** Which resource a key gets its node from: the last one that converts to it. */
  lemma {:induction false} LastOneConverts(c: Converter, rs: seq<Resource>, i: nat, k: Key)
    requires i < |rs| && c.named(rs[i]) && k in c.convert(rs[i])
    requires forall j :: i < j < |rs| ==> !(c.named(rs[j]) && k in c.convert(rs[j]))
    ensures k in NodesOfAll(c, rs) && NodesOfAll(c, rs)[k] == c.AimResToNodes(rs[i])[k]
    decreases |rs|
  {
    var before := rs[..|rs| - 1];
    if i == |rs| - 1 {
    } else {
      LastOneConverts(c, before, i, k);
    }
  }

  lemma {:induction false} NoneConverts(c: Converter, rs: seq<Resource>, k: Key)
    requires forall j :: 0 <= j < |rs| ==> !(c.named(rs[j]) && k in c.convert(rs[j]))
    ensures k !in NodesOfAll(c, rs)
  {
    if rs == [] {
    } else {
      NoneConverts(c, rs[..|rs| - 1], k);
    }
  }

  /** What a converted key holds, up to what its metadata entries are. */
  lemma UpdatedVal(c: Converter, v: View, rs: seq<Resource>, i: nat, k: Key, was: Attrs)
    requires i < |rs| && c.named(rs[i]) && k in c.convert(rs[i])
    requires forall j :: i < j < |rs| ==> !(c.named(rs[j]) && k in c.convert(rs[j]))
    requires var prepared := PrepareAll(c, v, rs); was == if k in prepared then prepared[k].meta else map[]
    ensures k in UpdateView(c, v, rs)
    ensures UpdateView(c, v, rs)[k] == Val(false, c.convert(rs[i])[k], rs[i].error, was + c.MetaOf(rs[i], k))
  {
    LastOneConverts(c, rs, i, k);
  }

  /** The metadata of a node of a resource, whole. */
  lemma MetaIs(c: Converter, r: Resource, k: Key)
    requires k in c.convert(r)
    ensures var m := c.MetaOf(r, k);
      && "monitored" in m && m["monitored"] == Bool(r.mode == Monitored || r.mode == PreExisting)
      && "attributes" in m && m["attributes"] == Obj(c.convert(r)[k])
      && ("related" in m <==> c.mainKey(r) != Some(k)) && ("related" in m ==> m["related"] == Bool(true))
      && ("pending" in m <==> r.pending.Some?) && ("pending" in m ==> m["pending"] == Bool(r.pending.value))
      && forall n :: n in m ==> n == "monitored" || n == "attributes" || n == "related" || n == "pending"
  {}

  /**
   After an update a key that some resource converts to has the node of the last of these: real, with the
   converted attributes, in error as the resource, marked as monitored unless the resource is owned, as
   related unless it is the main node, and as pending when the resource says so.
   */
  lemma UpdatedNode(c: Converter, v: View, rs: seq<Resource>, i: nat, k: Key)
    requires i < |rs| && c.named(rs[i]) && k in c.convert(rs[i])
    requires forall j :: i < j < |rs| ==> !(c.named(rs[j]) && k in c.convert(rs[j]))
    ensures k in UpdateView(c, v, rs)
    ensures var r, x := rs[i], UpdateView(c, v, rs)[k];
      && !x.dummy && x.attrs == c.convert(r)[k] && x.error == r.error
      && "monitored" in x.meta && x.meta["monitored"] == Bool(r.mode == Monitored || r.mode == PreExisting)
      && "attributes" in x.meta && x.meta["attributes"] == Obj(c.convert(r)[k])
      && (c.mainKey(r) != Some(k) ==> "related" in x.meta && x.meta["related"] == Bool(true))
      && (r.pending.Some? ==> "pending" in x.meta && x.meta["pending"] == Bool(r.pending.value))
  {
    var prepared := PrepareAll(c, v, rs);
    UpdatedVal(c, v, rs, i, k, if k in prepared then prepared[k].meta else map[]);
    MetaIs(c, rs[i], k);
  }

  /** What else was known of the node stays known, as far as preparing has left the node there. */
  lemma UpdatedKeeps(c: Converter, v: View, rs: seq<Resource>, i: nat, k: Key, n: string)
    requires i < |rs| && c.named(rs[i]) && k in c.convert(rs[i])
    requires forall j :: i < j < |rs| ==> !(c.named(rs[j]) && k in c.convert(rs[j]))
    requires n != "monitored" && n != "attributes" && (n == "related" ==> c.mainKey(rs[i]) == Some(k))
    requires n == "pending" ==> rs[i].pending.None?
    ensures k in UpdateView(c, v, rs)
    ensures var x, was := UpdateView(c, v, rs)[k], PrepareAll(c, v, rs);
      && (n in x.meta <==> k in was && n in was[k].meta)
      && (n in x.meta ==> x.meta[n] == was[k].meta[n])
  {
    var prepared := PrepareAll(c, v, rs);
    UpdatedVal(c, v, rs, i, k, if k in prepared then prepared[k].meta else map[]);
    MetaIs(c, rs[i], k);
  }

  /** A key that none converts to keeps its node, or gets a placeholder on the way to one that is converted. */
  lemma UpdatedElsewhere(c: Converter, v: View, rs: seq<Resource>, k: Key)
    requires forall j :: 0 <= j < |rs| ==> !(c.named(rs[j]) && k in c.convert(rs[j]))
    ensures var w, was := UpdateView(c, v, rs), PrepareAll(c, v, rs);
      && (k in was ==> k in w && w[k] == was[k])
      && (k in w && k !in was ==> w[k] == Val(true, map[], false, map[]) && k != [])
      && (k !in was && k != [] ==>
            (k in w <==> exists j, i :: 0 <= j < |rs| && c.named(rs[j]) && i in c.convert(rs[j]) && k <= i))
  {
    NoneConverts(c, rs, k);
    if k != [] {
      OnTheWay(c, rs, k);
    }
  }

  /** The keys on the way to converted ones. */
  lemma OnTheWay(c: Converter, rs: seq<Resource>, k: Key)
    requires k != []
    ensures k in PathKeysOf(NodesOfAll(c, rs)) <==>
      exists j, i :: 0 <= j < |rs| && c.named(rs[j]) && i in c.convert(rs[j]) && k <= i
  {
    var items := NodesOfAll(c, rs);
    if k in PathKeysOf(items) {
      var i, n :| i in items && 1 <= n <= |i| && k == i[..n];
      ConvertedFrom(c, rs, i);
    }
    if j, i :| 0 <= j < |rs| && c.named(rs[j]) && i in c.convert(rs[j]) && k <= i {
      ConvertsTo(c, rs, j, i);
      assert k == i[..|k|];
    }
  }

  lemma {:induction false} ConvertedFrom(c: Converter, rs: seq<Resource>, k: Key)
    requires k in NodesOfAll(c, rs)
    ensures exists j :: 0 <= j < |rs| && c.named(rs[j]) && k in c.convert(rs[j])
  {
    if k in NodesToAdd(c, rs[|rs| - 1]) {
    } else {
      ConvertedFrom(c, rs[..|rs| - 1], k);
      var j :| 0 <= j < |rs| - 1 && c.named(rs[..|rs| - 1][j]) && k in c.convert(rs[..|rs| - 1][j]);
      assert rs[j] == rs[..|rs| - 1][j];
    }
  }

  lemma {:induction false} ConvertsTo(c: Converter, rs: seq<Resource>, j: nat, k: Key)
    requires j < |rs| && c.named(rs[j]) && k in c.convert(rs[j])
    ensures k in NodesOfAll(c, rs)
    decreases |rs|
  {
    if j == |rs| - 1 {
    } else {
      ConvertsTo(c, rs[..|rs| - 1], j, k);
    }
  }

  // ---------------------------------------------------------------- what a batch has for each tree

  lemma PutOneMore(u: Updates, os: seq<AimObject>, root: string, delete: bool, parents: Parents)
    requires os != []
    ensures var before, o := os[..|os| - 1], os[|os| - 1];
      && os == before + [o]
      && PutAll(u, os, root, delete, parents) ==
           PutObject(PutAll(u, before, root, delete, parents), o, root, delete, parents)
  {
  }

  /** The configuration tree gets each resource of the root, a monitored one as if it had been there before. */
  lemma {:induction false} PutInConf(u: Updates, os: seq<AimObject>, root: string, delete: bool, parents: Parents,
                                     r: Resource)
    ensures var w := PutAll(u, os, root, delete, parents);
      var of := exists x ::
        Plain(x) in os && x.root == root && r == if x.mode == Monitored then x.(mode := PreExisting) else x;
      && (r in w.confAdd <==> r in u.confAdd || (!delete && of))
      && (r in w.confDel <==> r in u.confDel || (delete && of))
  {
    if os == [] {
    } else {
      PutInConf(u, os[..|os| - 1], root, delete, parents, r);
      PutOneMore(u, os, root, delete, parents);
    }
  }

  /** The monitored tree gets each monitored resource of the root. */
  lemma {:induction false} PutInMon(u: Updates, os: seq<AimObject>, root: string, delete: bool, parents: Parents,
                                    r: Resource)
    ensures var w := PutAll(u, os, root, delete, parents);
      var of := Plain(r) in os && r.root == root && r.mode == Monitored;
      && (r in w.monAdd <==> r in u.monAdd || (!delete && of))
      && (r in w.monDel <==> r in u.monDel || (delete && of))
  {
    if os == [] {
    } else {
      PutInMon(u, os[..|os| - 1], root, delete, parents, r);
      PutOneMore(u, os, root, delete, parents);
    }
  }

  /** The operational tree gets each fault of the root, and loses the resource of a status that goes. */
  lemma {:induction false} PutInOper(u: Updates, os: seq<AimObject>, root: string, delete: bool, parents: Parents,
                                     r: Resource)
    ensures var w := PutAll(u, os, root, delete, parents);
      var of := Fault(r) in os && r.root == root;
      var gone := r.root == root && r.sync &&
        exists id, state :: Status(id, root, state) in os && parents(id) == Some(r);
      && (r in w.operAdd <==> r in u.operAdd || (!delete && of))
      && (r in w.operDel <==> r in u.operDel || (delete && (of || gone)))
  {
    if os == [] {
    } else {
      PutInOper(u, os[..|os| - 1], root, delete, parents, r);
      PutOneMore(u, os, root, delete, parents);
    }
  }

  /** What statuses move: the resource as it is in the database, in error, pending or done as they say. */
  lemma {:induction false} MovedMeans(os: seq<AimObject>, parents: Parents, o: AimObject)
    ensures o in Moved(os, parents) <==>
      exists id, root, state :: Status(id, root, state) in os &&
        parents(id).Some? && parents(id).value.root == root && parents(id).value.sync &&
        o == Plain(match state
                   case Failed => parents(id).value.(error := true, pending := Some(false))
                   case Pending => parents(id).value.(pending := Some(true))
                   case Synced => parents(id).value.(pending := Some(false))
                   case Unknown => parents(id).value)
  {
    if os == [] {
    } else {
      MovedMeans(os[..|os| - 1], parents, o);
      assert os == os[..|os| - 1] + [os[|os| - 1]];
    }
  }

  /** The orphans are the statuses whose resource the database does not hold in their root. */
  lemma {:induction false} OrphansMean(os: seq<AimObject>, parents: Parents, o: AimObject)
    ensures o in Orphans(os, parents) <==>
      o in os && o.Status? && (parents(o.parent).Some? ==> parents(o.parent).value.root != o.resourceRoot)
  {
    if os == [] {
    } else {
      OrphansMean(os[..|os| - 1], parents, o);
      assert os == os[..|os| - 1] + [os[|os| - 1]];
    }
  }

  /** The batch adds this resource, or has a status that moves it. */
  ghost predicate Brings(os: seq<AimObject>, parents: Parents, x: Resource) {
    Plain(x) in os || Plain(x) in Moved(os, parents)
  }

  /**
   A whole batch: the configuration and monitored trees get what is added or updated, itself or by a status, and
   lose what is deleted; the operational tree gets and loses faults.
   */
  lemma BatchMeans(added: seq<AimObject>, updated: seq<AimObject>, deleted: seq<AimObject>, root: string,
                   parents: Parents, r: Resource)
    ensures var u := UpdatesFor(added, updated, deleted, root, parents);
      && (r in u.confAdd <==>
            exists x ::
              && Brings(added + updated, parents, x) && x.root == root
              && r == if x.mode == Monitored then x.(mode := PreExisting) else x)
      && (r in u.confDel <==>
            exists x ::
              Plain(x) in deleted && x.root == root && r == if x.mode == Monitored then x.(mode := PreExisting) else x)
      && (r in u.monAdd <==> Brings(added + updated, parents, r) && r.root == root && r.mode == Monitored)
      && (r in u.monDel <==> Plain(r) in deleted && r.root == root && r.mode == Monitored)
      && (r in u.operAdd <==> (Fault(r) in added || Fault(r) in updated) && r.root == root)
      && (r in u.operDel <==>
            && r.root == root
            && (Fault(r) in deleted ||
                exists id, state :: Status(id, root, state) in deleted && parents(id) == Some(r) && r.sync))
  {
    var now := added + updated + Moved(added, parents) + Moved(updated, parents);
    BatchHas(added, updated, parents, now);
    var first := PutAll(NO_UPDATES, now, root, false, parents);
    PutInConf(NO_UPDATES, now, root, false, parents, r);
    PutInConf(first, deleted, root, true, parents, r);
    PutInMon(NO_UPDATES, now, root, false, parents, r);
    PutInMon(first, deleted, root, true, parents, r);
    PutInOper(NO_UPDATES, now, root, false, parents, r);
    PutInOper(first, deleted, root, true, parents, r);
  }

  /** What a batch brings is what its own lists and what they move hold. */
  lemma BatchHas(added: seq<AimObject>, updated: seq<AimObject>, parents: Parents, now: seq<AimObject>)
    requires now == added + updated + Moved(added, parents) + Moved(updated, parents)
    ensures forall x :: Plain(x) in now <==> Brings(added + updated, parents, x)
    ensures forall x :: Fault(x) in now <==> Fault(x) in added || Fault(x) in updated
  {
    MovedTogether(added, updated, parents);
    MovedAreMoved(added, parents);
    MovedAreMoved(updated, parents);
    assert forall o :: o in now <==> o in added + updated || o in Moved(added + updated, parents);
  }

  lemma {:induction false} MovedTogether(a: seq<AimObject>, b: seq<AimObject>, parents: Parents)
    ensures Moved(a + b, parents) == Moved(a, parents) + Moved(b, parents)
  {
    if b == [] {
      assert a + b == a;
    } else {
      assert (a + b)[..|a + b| - 1] == a + b[..|b| - 1];
      MovedTogether(a, b[..|b| - 1], parents);
    }
  }

  /**
   One more object goes to the end of its lists: a resource of the root for the configuration tree, and for the
   monitored one if it is monitored; a fault, or the resource of a status that goes, for the operational tree.
   */
  lemma PutNext(u: Updates, os: seq<AimObject>, o: AimObject, root: string, delete: bool, parents: Parents)
    ensures PutAll(u, [], root, delete, parents) == u
    ensures var w := PutAll(u, os, root, delete, parents);
      PutAll(u, os + [o], root, delete, parents) ==
        match o
        case Plain(r) =>
          var f := if r.mode == Monitored then r.(mode := PreExisting) else r;
          if r.root != root then w
          else if delete then
            w.(confDel := w.confDel + [f], monDel := if r.mode == Monitored then w.monDel + [r] else w.monDel)
          else
            w.(confAdd := w.confAdd + [f], monAdd := if r.mode == Monitored then w.monAdd + [r] else w.monAdd)
        case Fault(r) =>
          if r.root != root then w
          else if delete then w.(operDel := w.operDel + [r])
          else w.(operAdd := w.operAdd + [r])
        case Status(id, of, _) =>
          if delete && of == root && parents(id).Some? && parents(id).value.root == of && parents(id).value.sync
          then w.(operDel := w.operDel + [parents(id).value]) else w
  {
    assert (os + [o])[..|os|] == os;
  }

  // ---------------------------------------------------------------- what one object shows on the nodes

  /** The pending mark that a node has, if any. */
  ghost function PendingBefore(v: View, k: Key): Option<Json> {
    if k in v && "pending" in v[k].meta then Some(v[k].meta["pending"]) else None
  }

  /** A node in error, and with a mark, as the resource says, up to a pending mark it had when the resource has none. */
  ghost predicate MarkedAs(x: Val, r: Resource, before: Option<Json>) {
    && x.error == r.error
    && "monitored" in x.meta && x.meta["monitored"] == Bool(r.mode != Owned)
    && (if "pending" in x.meta then Some(x.meta["pending"]) else None) ==
         if r.pending.Some? then Some(Bool(r.pending.value)) else before
  }

  /** Clearing leaves the nodes that it does not make dummies of, and their marks. */
  lemma ClearedKeepsMarks(c: Converter, v: View, rs: seq<Resource>, k: Key)
    requires k in v && !v[k].dummy
    ensures var w := ClearAll(c, v, rs);
      && (k in w && !w[k].dummy <==> forall r :: r in rs ==> k !in c.convert(r))
      && (k in w ==> w[k].error == v[k].error && w[k].meta == v[k].meta)
      && (k in w && !w[k].dummy ==> w[k].attrs == v[k].attrs)
  {
    ClearedAllAt(c, v, rs, k);
  }

  lemma UpdatedIsMarked(c: Converter, v: View, r: Resource, k: Key)
    requires c.named(r) && k in c.convert(r)
    ensures var w := UpdateView(c, v, [r]);
      && k in w && !w[k].dummy && w[k].attrs == c.convert(r)[k]
      && MarkedAs(w[k], r, PendingBefore(PrepareAll(c, v, [r]), k))
  {
    UpdatedNode(c, v, [r], 0, k);
    if r.pending.None? {
      UpdatedKeeps(c, v, [r], 0, k, "pending");
    }
  }

  /** One resource added: the trees are updated with it, and cleared of what the other tree has of it. */
  lemma CreatedViews(c: Converter, v: View, r: Resource)
    ensures ConfView(c, v, CreationOf(r)) ==
      ClearAll(c, UpdateView(c, v, [Faked(r)]), if r.mode == Monitored then [r] else [])
    ensures MonView(c, v, CreationOf(r)) ==
      ClearAll(c, UpdateView(c, v, if r.mode == Monitored then [r] else []), [Faked(r)])
  {
    CreationFields(r);
    NothingDeleted(c, v, CreationOf(r));
  }

  /** Updated with one resource and cleared of others, a tree has the nodes that these have not. */
  lemma UpdatedAndCleared(c: Converter, v: View, r: Resource, others: seq<Resource>, k: Key)
    requires c.named(r) && k in c.convert(r)
    ensures var w := ClearAll(c, UpdateView(c, v, [r]), others);
      && (k in w && !w[k].dummy <==> forall o :: o in others ==> k !in c.convert(o))
      && (k in w && !w[k].dummy ==> w[k].attrs == c.convert(r)[k])
      && (k in w ==> MarkedAs(w[k], r, PendingBefore(PrepareAll(c, v, [r]), k)))
  {
    UpdatedIsMarked(c, v, r, k);
    ClearedKeepsMarks(c, UpdateView(c, v, [r]), others, k);
  }

  /**
   The node that a resource has in the configuration tree after the batch of one object: real unless the monitored
   tree has it, with the attributes it converts to, and marked as the resource is.
   */
  lemma CreatedNode(c: Converter, v: View, r: Resource, k: Key)
    requires c.named(Faked(r)) && k in c.convert(Faked(r))
    ensures var w, before := ConfView(c, v, CreationOf(r)), PendingBefore(PrepareAll(c, v, [Faked(r)]), k);
      && (k in w && !w[k].dummy <==> !(r.mode == Monitored && k in c.convert(r)))
      && (k in w && !w[k].dummy ==> w[k].attrs == c.convert(Faked(r))[k])
      && (k in w ==> MarkedAs(w[k], r, before))
  {
    CreatedViews(c, v, r);
    var others := if r.mode == Monitored then [r] else [];
    UpdatedAndCleared(c, v, Faked(r), others, k);
    assert r.mode == Monitored ==> r in others;
  }

  /** The same in the monitored tree, which gets the nodes of monitored resources that the other has not. */
  lemma CreatedMonNode(c: Converter, v: View, r: Resource, k: Key)
    requires r.mode == Monitored && c.named(r) && k in c.convert(r)
    ensures var w, before := MonView(c, v, CreationOf(r)), PendingBefore(PrepareAll(c, v, [r]), k);
      && (k in w && !w[k].dummy <==> k !in c.convert(r.(mode := PreExisting)))
      && (k in w && !w[k].dummy ==> w[k].attrs == c.convert(r)[k])
      && (k in w ==> MarkedAs(w[k], r, before))
  {
    CreatedViews(c, v, r);
    UpdatedAndCleared(c, v, r, [Faked(r)], k);
    assert Faked(r) in [Faked(r)];
  }

  lemma AllNamed(l: Layout, r: Resource)
    requires l.Regular() && r.root == l.root
    ensures l.c.named(r) && l.c.named(Faked(r))
  {
    assert l.RegularFor(r) && l.RegularFor(Faked(r));
  }

  /**
   Building one status of a resource of the root: wherever the resource has a node in the configuration tree, that is
   in error exactly when the status is failed or the resource was in error, and pending exactly as the status says:
   true for a pending one, false for one that failed or is synchronised, and as the resource or else the node
   itself had it for any other.
   */
  lemma StatusNode(l: Layout, v: View, r: Resource, state: SyncState, parents: Parents, k: Key)
    requires l.Regular() && r.root == l.root && r.sync && parents(IdOf(r)) == Some(r)
    requires k in l.c.convert(if r.mode == Monitored then r.(mode := PreExisting) else r)
    ensures var u := UpdatesFor([Status(IdOf(r), l.root, state)], [], [], l.root, parents);
      var w := ConfView(l.c, v, u);
      && (k in w && !w[k].dummy <==> !(r.mode == Monitored && k in l.c.convert(r)))
      && (k in w ==> w[k].error == (r.error || state == Failed))
      && (k in w && state == Pending ==> "pending" in w[k].meta && w[k].meta["pending"] == Bool(true))
      && (k in w && (state == Failed || state == Synced) ==>
            "pending" in w[k].meta && w[k].meta["pending"] == Bool(false))
      && (k in w && state == Unknown && r.pending.Some? ==>
            "pending" in w[k].meta && w[k].meta["pending"] == Bool(r.pending.value))
      && (k in w ==> "monitored" in w[k].meta && w[k].meta["monitored"] == Bool(r.mode != Owned))
  {
    BatchIs(Status(IdOf(r), l.root, state), false, l.root, parents);
    MarkedStaysRegular(l, r, state);
    AllNamed(l, Marked(r, state));
    CreatedNode(l.c, v, Marked(r, state), k);
  }

  lemma MarkedStaysRegular(l: Layout, r: Resource, state: SyncState)
    requires l.Regular()
    ensures l.c.convert(Marked(r, state)) == l.c.convert(r)
    ensures l.c.convert(Faked(Marked(r, state))) == l.c.convert(Faked(r))
    ensures Marked(r, state).root == r.root && Marked(r, state).mode == r.mode
  {
    l.MarkedPart(r, state);
    assert Faked(Marked(r, state)) == Marked(Faked(r), state);
  }

  /** The same in the monitored tree, for a monitored resource. */
  lemma StatusMonNode(l: Layout, v: View, r: Resource, state: SyncState, parents: Parents, k: Key)
    requires l.Regular() && r.root == l.root && r.sync && parents(IdOf(r)) == Some(r) && r.mode == Monitored
    requires k in l.c.convert(r)
    ensures var u := UpdatesFor([Status(IdOf(r), l.root, state)], [], [], l.root, parents);
      var w := MonView(l.c, v, u);
      && (k in w && !w[k].dummy <==> k !in l.c.convert(r.(mode := PreExisting)))
      && (k in w ==> w[k].error == (r.error || state == Failed))
      && (k in w && state == Pending ==> "pending" in w[k].meta && w[k].meta["pending"] == Bool(true))
      && (k in w && (state == Failed || state == Synced) ==>
            "pending" in w[k].meta && w[k].meta["pending"] == Bool(false))
      && (k in w && state == Unknown && r.pending.Some? ==>
            "pending" in w[k].meta && w[k].meta["pending"] == Bool(r.pending.value))
      && (k in w ==> "monitored" in w[k].meta && w[k].meta["monitored"] == Bool(true))
  {
    BatchIs(Status(IdOf(r), l.root, state), false, l.root, parents);
    MarkedStaysRegular(l, r, state);
    assert l.c.convert(Marked(r, state).(mode := PreExisting)) == l.c.convert(Faked(Marked(r, state)));
    AllNamed(l, Marked(r, state));
    CreatedMonNode(l.c, v, Marked(r, state), k);
  }

  /** Building a resource itself: its nodes in the configuration tree are in error and pending as it is. */
  lemma PlainNode(l: Layout, v: View, r: Resource, parents: Parents, k: Key)
    requires l.Regular() && r.root == l.root
    requires k in l.c.convert(if r.mode == Monitored then r.(mode := PreExisting) else r)
    ensures var w := ConfView(l.c, v, UpdatesFor([Plain(r)], [], [], l.root, parents));
      && (k in w && !w[k].dummy <==> !(r.mode == Monitored && k in l.c.convert(r)))
      && (k in w ==> w[k].error == r.error)
      && (k in w && r.pending.Some? ==> "pending" in w[k].meta && w[k].meta["pending"] == Bool(r.pending.value))
      && (k in w ==> "monitored" in w[k].meta && w[k].meta["monitored"] == Bool(r.mode != Owned))
  {
    BatchIs(Plain(r), false, l.root, parents);
    AllNamed(l, r);
    CreatedNode(l.c, v, r, k);
  }

  /** A resource whose status is failed is left out of every comparison, whichever side the tree is on. */
  lemma FailedIsNotListed(l: Layout, v: View, r: Resource, parents: Parents, k: Key, other: View)
    requires l.Regular() && r.root == l.root && r.sync && parents(IdOf(r)) == Some(r)
    requires k in l.c.convert(if r.mode == Monitored then r.(mode := PreExisting) else r)
    ensures var w := ConfView(l.c, v, UpdatesFor([Status(IdOf(r), l.root, Failed)], [], [], l.root, parents));
      && k !in ToAdd(w, other) && k !in ToRemove(other, w)
      && (k in w ==> k !in ToAdd(other, w) && k !in ToRemove(w, other))
  {
    StatusNode(l, v, r, Failed, parents, k);
  }

  /**
   Trees that show resources: a node of the configuration tree is real exactly when its owner is shown and converts
   to it there, a monitored one as if it had been there before and not to a node of its own; the monitored tree
   has the nodes of monitored resources that the configuration tree would not.
   */
  lemma ShownMeans(l: Layout, v: View, w: View, a: Applied, k: Key)
    requires l.Shown(v, w, a)
    ensures var id := l.owner(k);
      && (k in v && !v[k].dummy <==>
            && id in a
            && k in l.c.convert(if a[id].mode == Monitored then a[id].(mode := PreExisting) else a[id])
            && !(a[id].mode == Monitored && k in l.c.convert(a[id])))
      && (k in v && !v[k].dummy ==>
            v[k].attrs == l.c.convert(if a[id].mode == Monitored then a[id].(mode := PreExisting) else a[id])[k])
      && (k in w && !w[k].dummy <==>
            && id in a && a[id].mode == Monitored && k in l.c.convert(a[id])
            && k !in l.c.convert(a[id].(mode := PreExisting)))
      && (k in w && !w[k].dummy ==> w[k].attrs == l.c.convert(a[id])[k])
  {
    assert At(v, k) == l.Expect(a, k) && At(w, k) == l.MonExpect(a, k);
  }
}
