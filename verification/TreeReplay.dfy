/**
 What replaying creations and deletions makes of the configuration and monitored trees of a root:
 their contents are those of the resources applied last, whatever the order was.
 */
module TreeReplay {
  import opened Keys
  import opened TreeStore
  import opened TreeTheory
  import opened TreeMaker
  import opened TreeBuilder

  /** The resources whose changes the trees have seen last. */
  type Applied = map<Id, Resource>

  function ResourceAt(a: Applied, id: Id): Option<Resource> {
    if id in a then Some(a[id]) else None
  }

  /** What building an object says of a resource: what it is now, or that it is gone. */
  datatype Word = Word(id: Id, res: Option<Resource>)

  /** A status says again what the database holds of its resource. */
  function WordOf(o: AimObject, delete: bool, parents: Parents): Option<Word> {
    match o
    case Plain(r) => Some(Word(IdOf(r), if delete then None else Some(r)))
    case Fault(_) => None
    case Status(id, _, _) => if !delete && StandsFor(o, parents) then Some(Word(id, parents(id))) else None
  }

  function Heard(a: Applied, word: Option<Word>): Applied {
    if word.None? then a
    else if word.value.res.Some? then a[word.value.id := word.value.res.value]
    else a - {word.value.id}
  }

  lemma DummiedIsClosed(v: View, ks: set<Key>)
    requires Closed(v)
    ensures Closed(Trim(Dummied(v, ks)))
  {
    assert Closed(Dummied(v, ks));
    TrimIsClosed(Dummied(v, ks));
  }

  /** The attributes that a tree holds under a key. */
  ghost function At(v: View, k: Key): Option<Attrs> {
    if k in v && !v[k].dummy then Some(v[k].attrs) else None
  }

  lemma AtTrim(v: View, ks: set<Key>, k: Key)
    ensures At(Trim(Dummied(v, ks)), k) == if k in ks then None else At(v, k)
  {
    if k in v && !Dummied(v, ks)[k].dummy {
      assert Supported(Dummied(v, ks), k);
    }
  }

  lemma UpdateOfOne(c: Converter, v: View, r: Resource)
    ensures UpdateView(c, v, [r]) == AddMany(PreparedView(c, v, r), NodesToAdd(c, r))
  {
    assert [r][..|[r]| - 1] == [];
    assert PrepareAll(c, v, []) == v && NodesOfAll(c, []) == map[];
    assert NodesOfAll(c, [r]) == NodesOfAll(c, []) + NodesToAdd(c, r) == NodesToAdd(c, r);
  }

  lemma KeysOfOne(c: Converter, r: Resource)
    ensures KeysOfAll(c, [r]) == c.convert(r).Keys && KeysOfAll(c, []) == {}
  {}

  /** The batch of one object. */
  function BatchOf(o: AimObject, delete: bool, root: string, parents: Parents): Updates {
    if delete then UpdatesFor([], [], [o], root, parents) else UpdatesFor([o], [], [], root, parents)
  }

  /** The changes that one resource makes. */
  function CreationOf(r: Resource): Updates {
    Put(NO_UPDATES, r, false)
  }

  function DeletionOf(r: Resource): Updates {
    Put(NO_UPDATES, r, true)
  }

  /** Nothing for the configuration and the monitored tree. */
  predicate OperOnly(u: Updates) {
    u.confAdd == u.confDel == u.monAdd == u.monDel == []
  }

  lemma CreationFields(r: Resource)
    ensures CreationOf(r) == Updates([Faked(r)], [], [], [], if r.mode == Monitored then [r] else [], [])
    ensures DeletionOf(r) == Updates([], [Faked(r)], [], [], [], if r.mode == Monitored then [r] else [])
  {
  }

  lemma NothingDeleted(c: Converter, v: View, u: Updates)
    requires u.confDel == u.monDel == []
    ensures ConfView(c, v, u) == ClearAll(c, UpdateView(c, v, u.confAdd), u.monAdd)
    ensures MonView(c, v, u) == ClearAll(c, UpdateView(c, v, u.monAdd), u.confAdd)
  {
    DeleteNone(c, UpdateView(c, v, u.confAdd));
    DeleteNone(c, UpdateView(c, v, u.monAdd));
  }

  lemma PutOne(u: Updates, o: AimObject, root: string, delete: bool, parents: Parents)
    ensures PutAll(u, [o], root, delete, parents) == PutObject(u, o, root, delete, parents)
    ensures PutAll(u, [], root, delete, parents) == u
    ensures Moved([], parents) == []
    ensures Moved([o], parents) == MovedBy(o, parents)
  {
    assert [o][..|[o]| - 1] == [];
    assert PutAll(u, [], root, delete, parents) == u;
    assert Moved([], parents) == [];
  }

  /** What the batch of one object is made of. */
  lemma BatchIs(o: AimObject, delete: bool, root: string, parents: Parents)
    requires o.Root() == root || o.Fault?
    ensures match o
      case Plain(r) => BatchOf(o, delete, root, parents) == if delete then DeletionOf(r) else CreationOf(r)
      case Fault(_) => OperOnly(BatchOf(o, delete, root, parents))
      case Status(id, _, state) =>
        if !delete && StandsFor(o, parents)
          then BatchOf(o, delete, root, parents) == CreationOf(Marked(parents(id).value, state))
        else OperOnly(BatchOf(o, delete, root, parents))
  {
    PutOne(NO_UPDATES, o, root, delete, parents);
    if delete {
      assert [] + [] + Moved([], parents) + Moved([], parents) == [];
    } else {
      var moved := Moved([o], parents);
      assert [o] + [] + moved + Moved([], parents) == [o] + moved;
      PutAllConcat(NO_UPDATES, [o], moved, root, false, parents);
      if moved != [] {
        PutOne(PutAll(NO_UPDATES, [o], root, false, parents), moved[0], root, false, parents);
      }
    }
  }

  lemma OperOnlyKeeps(c: Converter, v: View, u: Updates)
    requires OperOnly(u) && Trim(v) == v
    ensures ConfView(c, v, u) == v && MonView(c, v, u) == v
  {
    AddNone(v);
    assert KeysOfAll(c, []) == {};
    DummiedNothing(v, {});
  }

  lemma DeleteNone(c: Converter, v: View)
    ensures DeleteAll(c, v, []) == v
  {
  }

  lemma DeleteOfOne(c: Converter, v: View, r: Resource)
    ensures DeleteAll(c, v, [r]) == DeleteOne(c, v, r)
  {
    assert [r][..|[r]| - 1] == [];
    assert DeleteAll(c, v, []) == v;
  }

  lemma NewMetaRelated(current: Attrs, d: Attrs)
    requires "related" in d ==> Truthy(d["related"])
    ensures IsRelated(NewMeta(current, Given(d))) <==> "related" in d || IsRelated(current)
  {}

  lemma AtAddMany(v: View, items: Nodes, k: Key)
    ensures At(AddMany(v, items), k) == if k in items then Some(items[k].attrs) else At(v, k)
  {}

  lemma AddedIsClosed(v: View, items: Nodes)
    requires Closed(v)
    ensures Closed(AddMany(v, items))
  {
    var w := AddMany(v, items);
    forall k, n | k in w && 1 <= n <= |k| ensures k[..n] in w {
      if k in v {
        assert k[..n] in v;
      } else if k in items {
        assert k[..n] in PathKeysOf(items);
      } else {
        var j, m :| j in items && 1 <= m <= |j| && k == j[..m];
        assert k[..n] == j[..n];
      }
    }
  }

  lemma AddedIsTrim(v: View, items: Nodes)
    requires Trim(v) == v
    ensures Trim(AddMany(v, items)) == AddMany(v, items)
  {
    var w := AddMany(v, items);
    forall k | k in w ensures Supported(w, k) {
      if k in v {
        assert k in Trim(v);
        StillSupported(v, items, k);
      } else {
        NewSupported(v, items, k);
      }
    }
    TrimOfSupported(w);
  }

  lemma StillSupported(v: View, items: Nodes, k: Key)
    requires Supported(v, k)
    ensures Supported(AddMany(v, items), k)
  {
    var r :| r in v && k <= r && !v[r].dummy;
    assert r in AddMany(v, items) && !AddMany(v, items)[r].dummy;
  }

  lemma NewSupported(v: View, items: Nodes, k: Key)
    requires k in AddMany(v, items) && k !in v
    ensures Supported(AddMany(v, items), k)
  {
    var w := AddMany(v, items);
    if k in items {
      assert !w[k].dummy;
    } else {
      var j, m :| j in items && 1 <= m <= |j| && k == j[..m];
      assert j in w && !w[j].dummy;
    }
  }

  /**
   What is taken for granted of the resources of one root: which resource a key belongs to, the main
   key of each resource, whether a resource in some mode has a node of its own, and its mode, which
   never changes.
   */
  datatype Layout = Layout(c: Converter, root: string, part: string, owner: Key -> Id, main: Id -> Key,
                           hasMain: (Id, Mode) -> bool,
                           modeOf: Id -> Mode)
  {

    /** All nodes from just below the main one down to `k` belong to the same resource. */
    ghost predicate Hangs(k: Key) {
      var m := main(owner(k));
      m <= k && k != m && forall n {:trigger k[..n]} :: |m| < n <= |k| ==> owner(k[..n]) == owner(k)
    }

    /** Keys belong to one resource each, and related ones hang below the main one by related ones. */
    ghost predicate RegularFor(r: Resource) {
      var m := main(IdOf(r));
      && c.named(r) && c.mainKey(r) == Some(m)
      && (m in c.convert(r) <==> hasMain(IdOf(r), r.mode))
      && forall k :: k in c.convert(r) ==>
           && k != [] && k[0] == part && owner(k) == IdOf(r)
           && (k != m ==> m <= k && forall n {:trigger k[..n]} :: |m| < n <= |k| ==> k[..n] in c.convert(r))
    }

    ghost predicate Regular() {
      && (forall id: Id {:trigger main(id)} :: main(id) != [] && main(id)[0] == part && owner(main(id)) == id)
      && (forall r: Resource {:trigger RegularFor(r)} :: r.root == root ==> RegularFor(r))
      && forall r: Resource, state {:trigger Marked(r, state)} :: c.convert(Marked(r, state)) == c.convert(r)
    }

    /** The nodes that a resource has in the configuration tree. */
    function ConfPart(r: Resource): Content {
      map k | k in c.convert(Faked(r)) && !(r.mode == Monitored && k in c.convert(r)) :: c.convert(Faked(r))[k]
    }

    /** The nodes that a resource has in the monitored tree. */
    function MonPart(r: Resource): Content {
      if r.mode != Monitored then map[] else
      map k | k in c.convert(r) && k !in c.convert(Faked(r)) :: c.convert(r)[k]
    }

    lemma PartIsOwned(r: Resource)
      requires Regular() && r.root == root
      ensures RegularFor(r) && RegularFor(Faked(r)) && IdOf(Faked(r)) == IdOf(r)
      ensures forall k :: k in ConfPart(r) || k in MonPart(r) ==> owner(k) == IdOf(r)
    {
      assert RegularFor(r) && RegularFor(Faked(r));
    }

    /** How a resource is doing does not change its nodes. */
    lemma MarkedPart(r: Resource, state: SyncState)
      requires Regular()
      ensures ConfPart(Marked(r, state)) == ConfPart(r) && MonPart(Marked(r, state)) == MonPart(r)
      ensures IdOf(Marked(r, state)) == IdOf(r) && Marked(r, state).root == r.root && Marked(r, state).mode == r.mode
    {
      assert Faked(Marked(r, state)) == Marked(Faked(r), state);
    }

    // -------------------------------------------------------------- what is known of a tree

    ghost predicate MetaAt(v: View, k: Key)
      requires k in v
    {
      && (IsRelated(v[k].meta) ==> Hangs(k))
      && (!v[k].dummy && k != main(owner(k)) ==> Chain(v, main(owner(k)), k))
    }

    /** Exactly the nodes that are not a resource's own are marked as related, as far as real ones need it. */
    ghost predicate Tidy(v: View) {
      && Closed(v) && Trim(v) == v
      && forall k {:trigger MetaAt(v, k)} :: k in v ==> MetaAt(v, k)
    }

    lemma HangsNotMain(k: Key)
      requires Regular() && Hangs(k)
      ensures k != main(owner(k)) && forall id: Id :: k != main(id)
    {
      forall id: Id ensures k != main(id) {
        assert owner(main(id)) == id;
      }
    }

    /** Cleaning the related nodes below a main node touches nodes of that resource only. */
    lemma RelatedIsOwned(v: View, id: Id, k: Key)
      requires Regular() && Tidy(v) && k in RelatedBelow(v, main(id))
      ensures owner(k) == id && k != main(id)
    {
      var m := main(id);
      var j := k[..|m| + 1];
      assert j in v && IsRelated(v[j].meta) && MetaAt(v, j);
      FirstIsOwned(id, j);
      assert k[..|k|] == k && MetaAt(v, k);
      if |main(owner(k))| < |j| {
        assert k[..|j|] == j;
      } else {
        MainNotRelated(v, id, k);
      }
    }

    /** The main node of another resource would be a related one. */
    lemma MainNotRelated(v: View, id: Id, k: Key)
      requires Regular() && Tidy(v) && k in RelatedBelow(v, main(id)) && Hangs(k)
      ensures |main(owner(k))| <= |main(id)|
    {
      var n := |main(owner(k))|;
      if n > |main(id)| {
        assert k[..n] == main(owner(k)) && MetaAt(v, k[..n]);
        HangsNotMain(k[..n]);
      }
    }

    lemma FirstIsOwned(id: Id, j: Key)
      requires Regular() && Hangs(j) && main(id) <= j && |j| == |main(id)| + 1
      ensures owner(j) == id
    {
      var m, m' := main(id), main(owner(j));
      assert owner(m) == id && owner(m') == owner(j);
      if |m'| == |m| {
        PrefixesOfSameLength(m, m', j);
      } else {
        assert j[..|m|] == m;
      }
    }

    /** Every real node of a resource but its main one is reached by the cleaning. */
    lemma OwnedIsRelated(v: View, id: Id, k: Key)
      requires Regular() && Tidy(v) && k in v && !v[k].dummy && owner(k) == id && k != main(id)
      ensures k in RelatedBelow(v, main(id)) && main(id) in v
    {
      assert MetaAt(v, k);
      assert k[..|main(id)|] == main(id);
    }

    lemma TidyAfterDummied(v: View, ks: set<Key>)
      requires Regular() && Tidy(v)
      ensures Tidy(Trim(Dummied(v, ks)))
    {
      var w := Trim(Dummied(v, ks));
      DummiedIsClosed(v, ks);
      TrimTwice(Dummied(v, ks));
      forall k | k in w ensures MetaAt(w, k) {
        MetaAfterDummied(v, ks, w, k);
      }
    }

    lemma MetaAfterDummied(v: View, ks: set<Key>, w: View, k: Key)
      requires Closed(w) && w == Trim(Dummied(v, ks)) && k in w && k in v && MetaAt(v, k)
      ensures MetaAt(w, k)
    {
      if !w[k].dummy && k != main(owner(k)) {
        ChainStays(v, w, main(owner(k)), k);
      }
    }

    lemma ChainStays(v: View, w: View, top: Key, k: Key)
      requires Chain(v, top, k) && Closed(w) && k in w && forall j :: j in w && j in v ==> w[j].meta == v[j].meta
      ensures Chain(w, top, k)
    {
      forall n | |top| < n <= |k| ensures k[..n] in w && IsRelated(w[k[..n]].meta) {
        assert k[..n] in v;
      }
    }

    // -------------------------------------------------------------- what the operations do to it

    /** Cleaning for a resource leaves of it at most its main node. */
    lemma Prepared(v: View, r: Resource)
      requires Regular() && Tidy(v) && r.root == root
      ensures Tidy(PreparedView(c, v, r))
      ensures var w := PreparedView(c, v, r);
        forall k :: At(w, k) == if owner(k) == IdOf(r) && k != main(IdOf(r)) then None else At(v, k)
    {
      assert RegularFor(r);
      var id := IdOf(r);
      if main(id) in v {
        TidyAfterDummied(v, RelatedBelow(v, main(id)));
      }
      var w := PreparedView(c, v, r);
      forall k {:trigger At(w, k)} ensures At(w, k) == if owner(k) == id && k != main(id) then None else At(v, k) {
        PreparedAt(v, r, k);
      }
    }

    lemma PreparedAt(v: View, r: Resource, k: Key)
      requires Regular() && Tidy(v) && r.root == root && RegularFor(r)
      ensures At(PreparedView(c, v, r), k) == if owner(k) == IdOf(r) && k != main(IdOf(r)) then None else At(v, k)
    {
      var id := IdOf(r);
      if At(v, k).Some? && owner(k) == id && k != main(id) {
        OwnedIsRelated(v, id, k);
      }
      if main(id) in v {
        AtTrim(v, RelatedBelow(v, main(id)), k);
        if k in RelatedBelow(v, main(id)) {
          RelatedIsOwned(v, id, k);
        }
      }
    }

    /** After an update the nodes of a resource are those it converts to, and maybe its old main node. */
    ghost function AfterUpdate(v: View, r: Resource, k: Key): Option<Attrs> {
      if k in c.convert(r) then Some(c.convert(r)[k])
      else if owner(k) == IdOf(r) && k != main(IdOf(r)) then None
      else At(v, k)
    }

    lemma Updated(v: View, r: Resource)
      requires Regular() && Tidy(v) && r.root == root
      ensures Tidy(UpdateView(c, v, [r])) && forall k :: At(UpdateView(c, v, [r]), k) == AfterUpdate(v, r, k)
    {
      assert RegularFor(r);
      UpdateOfOne(c, v, r);
      Prepared(v, r);
      AddedTidy(PreparedView(c, v, r), r);
      forall k ensures At(UpdateView(c, v, [r]), k) == AfterUpdate(v, r, k) {
        AtAddMany(PreparedView(c, v, r), c.AimResToNodes(r), k);
      }
    }

    lemma AddedTidy(v: View, r: Resource)
      requires Regular() && Tidy(v) && r.root == root && RegularFor(r)
      ensures Tidy(AddMany(v, c.AimResToNodes(r)))
    {
      var items := c.AimResToNodes(r);
      var w := AddMany(v, items);
      AddedIsClosed(v, items);
      AddedIsTrim(v, items);
      forall k | k in w ensures MetaAt(w, k) {
        if k in v {
          assert MetaAt(v, k);
        }
        AddedMeta(v, r, w, k);
      }
    }

    /** A related node stays related, and a main node never becomes one. */
    lemma AddedRelated(v: View, r: Resource, w: View, j: Key)
      requires Regular() && r.root == root && RegularFor(r) && w == AddMany(v, c.AimResToNodes(r)) && j in w
      requires j in v ==> MetaAt(v, j)
      ensures IsRelated(w[j].meta) <==> (j in v && IsRelated(v[j].meta)) || (j in c.convert(r) && j != main(IdOf(r)))
    {
      var items := c.AimResToNodes(r);
      if j in items {
        c.RelatedIffNotMain(r, j);
        NewMetaRelated(if j in v then v[j].meta else map[], c.MetaOf(r, j));
        assert w[j].meta == NewMeta(if j in v then v[j].meta else map[], Given(c.MetaOf(r, j)));
        if j == main(IdOf(r)) && j in v && IsRelated(v[j].meta) {
          HangsNotMain(j);
        }
      }
    }

    lemma AddedMeta(v: View, r: Resource, w: View, k: Key)
      requires Regular() && Tidy(v) && r.root == root && RegularFor(r) && w == AddMany(v, c.AimResToNodes(r))
      requires k in w && Closed(w)
      requires k in v ==> MetaAt(v, k)
      ensures MetaAt(w, k)
    {
      AddedRelated(v, r, w, k);
      if k in c.convert(r) && k != main(IdOf(r)) {
        AddedHangs(v, r, w, k);
      } else if !w[k].dummy && k != main(owner(k)) {
        AddedChain(v, r, w, k);
      }
    }

    /** A new node that is not the main one hangs below it by related nodes. */
    lemma AddedHangs(v: View, r: Resource, w: View, k: Key)
      requires Regular() && Tidy(v) && r.root == root && RegularFor(r) && w == AddMany(v, c.AimResToNodes(r)) && k in w
      requires k in c.convert(r) && k != main(IdOf(r))
      ensures Hangs(k) && Chain(w, main(owner(k)), k)
    {
      forall n | |main(IdOf(r))| < n <= |k|
        ensures owner(k[..n]) == owner(k) && k[..n] in w && IsRelated(w[k[..n]].meta)
      {
        AddedStep(v, r, w, k, n);
      }
    }

    /** What was real before is still reached through related nodes. */
    lemma AddedChain(v: View, r: Resource, w: View, k: Key)
      requires Regular() && Tidy(v) && r.root == root && RegularFor(r) && w == AddMany(v, c.AimResToNodes(r))
      requires k in v && Chain(v, main(owner(k)), k)
      ensures Chain(w, main(owner(k)), k)
    {
      forall n | |main(owner(k))| < n <= |k| ensures k[..n] in w && IsRelated(w[k[..n]].meta) {
        assert k[..n] in v && MetaAt(v, k[..n]);
        AddedRelated(v, r, w, k[..n]);
      }
    }

    lemma AddedStep(v: View, r: Resource, w: View, k: Key, n: nat)
      requires Regular() && Tidy(v) && r.root == root && RegularFor(r) && w == AddMany(v, c.AimResToNodes(r)) && k in w
      requires k in c.convert(r) && k != main(IdOf(r)) && |main(IdOf(r))| < n <= |k|
      ensures owner(k[..n]) == owner(k) && k[..n] in w && IsRelated(w[k[..n]].meta)
    {
      var j := k[..n];
      assert j in c.convert(r) && j in c.AimResToNodes(r);
      if j in v {
        assert MetaAt(v, j);
      }
      AddedRelated(v, r, w, j);
    }

    lemma ClearedMain(v: View, key: Key)
      requires Regular() && Tidy(v)
      ensures Tidy(ClearView(v, key)) && forall k :: At(ClearView(v, key), k) == if k == key then None else At(v, k)
    {
      ClearIsDummied(v, key);
      TidyAfterDummied(v, {key});
      forall k ensures At(ClearView(v, key), k) == if k == key then None else At(v, k) {
        AtTrim(v, {key}, k);
      }
    }

    lemma Deleted(v: View, r: Resource)
      requires Regular() && Tidy(v) && r.root == root
      ensures Tidy(DeleteAll(c, v, [r]))
      ensures forall k :: At(DeleteAll(c, v, [r]), k) == if owner(k) == IdOf(r) then None else At(v, k)
    {
      assert RegularFor(r);
      DeleteOfOne(c, v, r);
      var m := main(IdOf(r));
      var w := ClearView(v, m);
      ClearedMain(v, m);
      Prepared(w, r);
      assert DeleteOne(c, v, r) == PreparedView(c, w, r);
      assert owner(m) == IdOf(r);
    }

    lemma ClearedOf(v: View, rs: seq<Resource>)
      requires Regular() && Tidy(v)
      ensures Tidy(ClearAll(c, v, rs))
      ensures forall k :: At(ClearAll(c, v, rs), k) == if k in KeysOfAll(c, rs) then None else At(v, k)
    {
      TidyAfterDummied(v, KeysOfAll(c, rs));
      forall k ensures At(ClearAll(c, v, rs), k) == if k in KeysOfAll(c, rs) then None else At(v, k) {
        AtTrim(v, KeysOfAll(c, rs), k);
      }
    }

    // -------------------------------------------------------------- one resource

    ghost function AfterCreation(v: View, r: Resource, k: Key): Option<Attrs> {
      if r.mode == Monitored && k in c.convert(r) then None else AfterUpdate(v, Faked(r), k)
    }

    ghost function MonAfterCreation(w: View, r: Resource, k: Key): Option<Attrs> {
      if k in c.convert(Faked(r)) then None
      else if r.mode == Monitored then AfterUpdate(w, r, k)
      else At(w, k)
    }

    ghost function MonAfterDeletion(w: View, r: Resource, k: Key): Option<Attrs> {
      if r.mode == Monitored && owner(k) == IdOf(r) then None else At(w, k)
    }

    lemma Created(v: View, r: Resource)
      requires Regular() && Tidy(v) && r.root == root
      ensures Tidy(ConfView(c, v, CreationOf(r)))
      ensures forall k :: At(ConfView(c, v, CreationOf(r)), k) == AfterCreation(v, r, k)
    {
      var u := CreationOf(r);
      CreationFields(r);
      Updated(v, Faked(r));
      NothingDeleted(c, v, u);
      ClearedOf(UpdateView(c, v, u.confAdd), u.monAdd);
      KeysOfOne(c, r);
    }

    lemma MonUpdated(w: View, r: Resource)
      requires Regular() && Tidy(w) && r.root == root
      ensures var x := UpdateView(c, w, CreationOf(r).monAdd);
        Tidy(x) && forall k :: At(x, k) == if r.mode == Monitored then AfterUpdate(w, r, k) else At(w, k)
    {
      if r.mode == Monitored {
        Updated(w, r);
      } else {
        AddNone(w);
      }
    }

    lemma MonCreated(w: View, r: Resource)
      requires Regular() && Tidy(w) && r.root == root
      ensures Tidy(MonView(c, w, CreationOf(r)))
      ensures forall k :: At(MonView(c, w, CreationOf(r)), k) == MonAfterCreation(w, r, k)
    {
      var u := CreationOf(r);
      CreationFields(r);
      MonUpdated(w, r);
      NothingDeleted(c, w, u);
      ClearedOf(UpdateView(c, w, u.monAdd), u.confAdd);
      var w' := MonView(c, w, u);
      forall k {:trigger At(w', k)} ensures At(w', k) == MonAfterCreation(w, r, k) {
        MonCreatedAt(w, r, k);
      }
    }

    lemma MonCreatedAt(w: View, r: Resource, k: Key)
      requires At(UpdateView(c, w, CreationOf(r).monAdd), k) ==
        if r.mode == Monitored then AfterUpdate(w, r, k) else At(w, k)
      requires At(MonView(c, w, CreationOf(r)), k) ==
        if k in KeysOfAll(c, [Faked(r)]) then None else At(UpdateView(c, w, CreationOf(r).monAdd), k)
      ensures At(MonView(c, w, CreationOf(r)), k) == MonAfterCreation(w, r, k)
    {
      KeysOfOne(c, Faked(r));
    }

    lemma Erased(v: View, r: Resource)
      requires Regular() && Tidy(v) && r.root == root
      ensures Tidy(ConfView(c, v, DeletionOf(r)))
      ensures forall k :: At(ConfView(c, v, DeletionOf(r)), k) == if owner(k) == IdOf(r) then None else At(v, k)
    {
      AddNone(v);
      assert UpdateView(c, v, []) == v;
      Deleted(v, Faked(r));
      var w := DeleteAll(c, v, [Faked(r)]);
      ClearedOf(w, []);
      assert KeysOfAll(c, []) == {};
    }

    lemma MonErased(w: View, r: Resource)
      requires Regular() && Tidy(w) && r.root == root
      ensures Tidy(MonView(c, w, DeletionOf(r)))
      ensures forall k :: At(MonView(c, w, DeletionOf(r)), k) == MonAfterDeletion(w, r, k)
    {
      AddNone(w);
      assert UpdateView(c, w, []) == w;
      var x := DeleteAll(c, w, DeletionOf(r).monDel);
      if r.mode == Monitored {
        Deleted(w, r);
      }
      ClearedOf(x, []);
      assert KeysOfAll(c, []) == {};
    }

    // -------------------------------------------------------------- the contents as resources

    ghost predicate Kept(r: Resource) {
      r.root == root && r.mode == modeOf(IdOf(r))
    }

    ghost predicate Sound(a: Applied) {
      forall id :: id in a ==> IdOf(a[id]) == id && Kept(a[id])
    }

    function Expect(a: Applied, k: Key): Option<Attrs> {
      if owner(k) in a && k in ConfPart(a[owner(k)]) then Some(ConfPart(a[owner(k)])[k]) else None
    }

    function MonExpect(a: Applied, k: Key): Option<Attrs> {
      if owner(k) in a && k in MonPart(a[owner(k)]) then Some(MonPart(a[owner(k)])[k]) else None
    }

    /** The configuration tree holds the nodes of exactly these resources. */
    ghost predicate Reflects(v: View, a: Applied) {
      forall k {:trigger At(v, k)} :: At(v, k) == Expect(a, k)
    }

    /** The monitored tree holds the nodes of exactly these resources. */
    ghost predicate MonReflects(w: View, a: Applied) {
      forall k {:trigger At(w, k)} :: At(w, k) == MonExpect(a, k)
    }

    /** Both trees are in order and show exactly these resources. */
    ghost predicate Shown(v: View, w: View, a: Applied) {
      Tidy(v) && Tidy(w) && Sound(a) && Reflects(v, a) && MonReflects(w, a)
    }

    /** These resources give the configuration tree the same contents. */
    ghost predicate SameConf(a: Applied, b: Applied) {
      forall k {:trigger Expect(a, k)} {:trigger Expect(b, k)} :: Expect(a, k) == Expect(b, k)
    }

    /** These resources give the monitored tree the same contents. */
    ghost predicate SameMon(a: Applied, b: Applied) {
      forall k {:trigger MonExpect(a, k)} {:trigger MonExpect(b, k)} :: MonExpect(a, k) == MonExpect(b, k)
    }

    lemma NothingShowsNothing()
      ensures Shown(map[], map[], map[])
    {
      assert Trim(map[]) == map[];
    }

    /** What is shown is shown in one of the trees only. */
    lemma ShownIsExclusive(v: View, w: View, a: Applied)
      requires Shown(v, w, a)
      ensures Exclusive(v, w)
    {
      forall k | k in Real(v) ensures k !in Real(w) {
        assert At(v, k) == Expect(a, k) && At(w, k) == MonExpect(a, k);
      }
    }

    lemma SameAtSameContent(v: View, w: View)
      ensures ContentOf(v) == ContentOf(w) <==> forall k {:trigger At(v, k)} :: At(v, k) == At(w, k)
    {
      if forall k {:trigger At(v, k)} :: At(v, k) == At(w, k) {
        forall k ensures k in ContentOf(v) <==> k in ContentOf(w) {
          assert At(v, k) == At(w, k);
        }
        forall k | k in ContentOf(v) ensures ContentOf(v)[k] == ContentOf(w)[k] {
          assert At(v, k) == At(w, k);
        }
      }
      if ContentOf(v) == ContentOf(w) {
        forall k ensures At(v, k) == At(w, k) {
          assert k in ContentOf(v) <==> k in ContentOf(w);
          if k in ContentOf(v) {
            assert ContentOf(v)[k] == ContentOf(w)[k];
          }
        }
      }
    }

    /** The trees have the same contents exactly when the resources they show give the same nodes. */
    lemma ShownIsContent(v: View, w: View, a: Applied, v': View, w': View, b: Applied)
      requires Shown(v, w, a) && Shown(v', w', b)
      ensures SameConf(a, b) <==> ContentOf(v) == ContentOf(v')
      ensures SameMon(a, b) <==> ContentOf(w) == ContentOf(w')
    {
      SameAtSameContent(v, v');
      SameAtSameContent(w, w');
      forall k {:trigger At(v, k)} {:trigger Expect(a, k)}
        ensures Expect(a, k) == Expect(b, k) <==> At(v, k) == At(v', k)
      {
        assert At(v, k) == Expect(a, k) && At(v', k) == Expect(b, k);
      }
      forall k {:trigger At(w, k)} {:trigger MonExpect(a, k)}
        ensures MonExpect(a, k) == MonExpect(b, k) <==> At(w, k) == At(w', k)
      {
        assert At(w, k) == MonExpect(a, k) && At(w', k) == MonExpect(b, k);
      }
    }

    /** After a creation both trees show the new version of the resource, and the others as before. */
    lemma CreationReflects(v: View, w: View, a: Applied, r: Resource)
      requires Regular() && Shown(v, w, a) && Kept(r)
      ensures Shown(ConfView(c, v, CreationOf(r)), MonView(c, w, CreationOf(r)), a[IdOf(r) := r])
    {
      ConfCreationReflects(v, a, r);
      MonCreationReflects(w, a, r);
    }

    lemma ConfCreationReflects(v: View, a: Applied, r: Resource)
      requires Regular() && Tidy(v) && Sound(a) && Reflects(v, a) && Kept(r)
      ensures Tidy(ConfView(c, v, CreationOf(r))) && Reflects(ConfView(c, v, CreationOf(r)), a[IdOf(r) := r])
    {
      Created(v, r);
      var b, v' := a[IdOf(r) := r], ConfView(c, v, CreationOf(r));
      forall k {:trigger At(v', k)} ensures At(v', k) == Expect(b, k) {
        CreationAt(v, a, r, k);
      }
    }

    lemma MonCreationReflects(w: View, a: Applied, r: Resource)
      requires Regular() && Tidy(w) && Sound(a) && MonReflects(w, a) && Kept(r)
      ensures Tidy(MonView(c, w, CreationOf(r))) && MonReflects(MonView(c, w, CreationOf(r)), a[IdOf(r) := r])
    {
      MonCreated(w, r);
      var b, w' := a[IdOf(r) := r], MonView(c, w, CreationOf(r));
      forall k {:trigger At(w', k)} ensures At(w', k) == MonExpect(b, k) {
        MonCreationAt(w, a, r, k);
      }
    }

    lemma CreationAt(v: View, a: Applied, r: Resource, k: Key)
      requires Regular() && Sound(a) && Reflects(v, a) && Kept(r)
      ensures AfterCreation(v, r, k) == Expect(a[IdOf(r) := r], k)
    {
      PartIsOwned(r);
      assert At(v, k) == Expect(a, k);
      if k == main(IdOf(r)) && IdOf(r) in a && k !in c.convert(Faked(r)) {
        OldMainGone(a, r);
      }
    }

    /** A main node that the new version lacks, the old one lacked as well. */
    lemma OldMainGone(a: Applied, r: Resource)
      requires Regular() && Sound(a) && Kept(r) && IdOf(r) in a && main(IdOf(r)) !in c.convert(Faked(r))
      ensures Expect(a, main(IdOf(r))) == None
    {
      PartIsOwned(r);
      PartIsOwned(a[IdOf(r)]);
    }

    lemma MonCreationAt(w: View, a: Applied, r: Resource, k: Key)
      requires Regular() && Sound(a) && MonReflects(w, a) && Kept(r)
      ensures MonAfterCreation(w, r, k) == MonExpect(a[IdOf(r) := r], k)
    {
      PartIsOwned(r);
      assert At(w, k) == MonExpect(a, k);
      if owner(k) == IdOf(r) {
        if IdOf(r) in a {
          PartIsOwned(a[IdOf(r)]);
        }
      }
    }

    lemma DeletionReflects(v: View, w: View, a: Applied, r: Resource)
      requires Regular() && Shown(v, w, a) && Kept(r)
      ensures Shown(ConfView(c, v, DeletionOf(r)), MonView(c, w, DeletionOf(r)), a - {IdOf(r)})
    {
      Erased(v, r);
      MonErased(w, r);
      var b, v', w' := a - {IdOf(r)}, ConfView(c, v, DeletionOf(r)), MonView(c, w, DeletionOf(r));
      forall k {:trigger At(v', k)} ensures At(v', k) == Expect(b, k) {
        DeletionAt(v, a, r, k);
      }
      forall k {:trigger At(w', k)} ensures At(w', k) == MonExpect(b, k) {
        MonDeletionAt(w, a, r, k);
      }
    }

    lemma DeletionAt(v: View, a: Applied, r: Resource, k: Key)
      requires Reflects(v, a)
      ensures (if owner(k) == IdOf(r) then None else At(v, k)) == Expect(a - {IdOf(r)}, k)
    {
      assert At(v, k) == Expect(a, k);
    }

    lemma MonDeletionAt(w: View, a: Applied, r: Resource, k: Key)
      requires MonReflects(w, a) && Sound(a) && Kept(r)
      ensures MonAfterDeletion(w, r, k) == MonExpect(a - {IdOf(r)}, k)
    {
      assert At(w, k) == MonExpect(a, k);
    }

    /** An object that can be built: a resource or status of this root, or any fault. */
    ghost predicate Buildable(o: AimObject) {
      match o
      case Plain(r) => Kept(r)
      case Fault(_) => true
      case Status(_, resourceRoot, _) => resourceRoot == root
    }

    lemma EverythingIsRooted(o: AimObject, parents: Parents)
      requires Regular()
      ensures ObjectRooted(o, root, c, part, parents)
    {
      match o {
        case Plain(r) =>
          AllRootedHere(r);
          AllRootedHere(Faked(r));
        case Fault(r) => AllRootedHere(r);
        case Status(id, _, state) =>
          if StandsFor(o, parents) {
            var r := parents(id).value;
            MarkedPart(r, state);
            AllRootedHere(r);
            AllRootedHere(Marked(r, state));
            AllRootedHere(Faked(Marked(r, state)));
          }
      }
    }

    lemma AllRootedHere(r: Resource)
      requires Regular()
      ensures r.root == root ==> c.Rooted(r, part)
    {
      if r.root == root {
        assert RegularFor(r) && main(IdOf(r)) != [];
      }
    }

    /** The resource of a status is kept as the others are. */
    ghost predicate KeptObject(o: AimObject, parents: Parents) {
      match o
      case Plain(r) => Kept(r)
      case Fault(_) => true
      case Status(id, resourceRoot, _) =>
        resourceRoot == root && (StandsFor(o, parents) ==> IdOf(parents(id).value) == id && Kept(parents(id).value))
    }

    /** Building one object makes the trees show what it says. */
    lemma BatchReflects(v: View, w: View, a: Applied, o: AimObject, delete: bool, parents: Parents)
      requires Regular() && Shown(v, w, a) && KeptObject(o, parents)
      ensures var u := BatchOf(o, delete, root, parents);
        Shown(ConfView(c, v, u), MonView(c, w, u), Heard(a, WordOf(o, delete, parents)))
    {
      BatchIs(o, delete, root, parents);
      match o {
        case Plain(r) =>
          if delete {
            DeletionReflects(v, w, a, r);
          } else {
            CreationReflects(v, w, a, r);
          }
        case Fault(_) =>
          OperOnlyKeeps(c, v, BatchOf(o, delete, root, parents));
          OperOnlyKeeps(c, w, BatchOf(o, delete, root, parents));
        case Status(id, _, state) =>
          if !delete && StandsFor(o, parents) {
            StatusReflects(v, w, a, parents(id).value, state);
          } else {
            OperOnlyKeeps(c, v, BatchOf(o, delete, root, parents));
            OperOnlyKeeps(c, w, BatchOf(o, delete, root, parents));
          }
      }
    }

    lemma StatusReflects(v: View, w: View, a: Applied, r: Resource, state: SyncState)
      requires Regular() && Shown(v, w, a) && Kept(r)
      ensures var u := CreationOf(Marked(r, state)); Shown(ConfView(c, v, u), MonView(c, w, u), a[IdOf(r) := r])
    {
      MarkedPart(r, state);
      CreationReflects(v, w, a, Marked(r, state));
      var b, b' := a[IdOf(r) := Marked(r, state)], a[IdOf(r) := r];
      forall k ensures SameExpectAt(b, b', k) {
        MarkedExpect(a, r, state, k);
      }
      var u := CreationOf(Marked(r, state));
      SameIsShown(ConfView(c, v, u), MonView(c, w, u), b, b');
    }

    ghost predicate SameExpectAt(a: Applied, b: Applied, k: Key) {
      Expect(a, k) == Expect(b, k) && MonExpect(a, k) == MonExpect(b, k)
    }

    lemma MarkedExpect(a: Applied, r: Resource, state: SyncState, k: Key)
      requires Regular()
      ensures SameExpectAt(a[IdOf(r) := Marked(r, state)], a[IdOf(r) := r], k)
    {
      MarkedPart(r, state);
    }

    lemma SameIsShown(v: View, w: View, a: Applied, b: Applied)
      requires Shown(v, w, a) && Sound(b) && forall k :: SameExpectAt(a, b, k)
      ensures Shown(v, w, b)
    {
      forall k ensures At(v, k) == Expect(b, k) && At(w, k) == MonExpect(b, k) {
        assert At(v, k) == Expect(a, k) && At(w, k) == MonExpect(a, k) && SameExpectAt(a, b, k);
      }
    }
  }
}
