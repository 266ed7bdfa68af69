/** Building the configuration, operational and monitored trees of a root from batches of changed resources. */
module TreeBuilder {
  import opened Keys
  import opened TreeStore
  import opened StructuredTree
  import opened TreeMaker

  /** What names a resource: its class and its identity. */
  datatype Id = Id(kind: string, ident: seq<string>)

  function IdOf(r: Resource): Id {
    Id(r.kind, r.ident)
  }

  /** How a status says its resource is doing. */
  datatype SyncState = Failed | Pending | Synced | Unknown

  /** What a batch is about: resources, statuses that name their resource, and faults. */
  datatype AimObject =
    | Plain(res: Resource)
    | Status(parent: Id, resourceRoot: string, state: SyncState)
    | Fault(res: Resource)
  {
    function Root(): string {
      if Status? then resourceRoot else res.root
    }
  }

  /** The resources that the database holds when the trees are built. */
  type Parents = Id -> Option<Resource>

  /** A resource, in the state that its status tells of. */
  function Marked(r: Resource, state: SyncState): Resource {
    match state
    case Failed => r.(error := true, pending := Some(false))
    case Pending => r.(pending := Some(true))
    case Synced => r.(pending := Some(false))
    case Unknown => r
  }

  /** A status whose resource exists, in the root that the status says. */
  predicate HasParent(o: AimObject, parents: Parents) {
    o.Status? && parents(o.parent).Some? && parents(o.parent).value.root == o.resourceRoot
  }

  /** The resource that the status stands for when the trees are built, unless it is not to be synchronised. */
  predicate StandsFor(o: AimObject, parents: Parents) {
    HasParent(o, parents) && parents(o.parent).value.sync
  }

  /** The changes of one root: what to add to and delete from each of its trees. */
  datatype Updates = Updates(confAdd: seq<Resource>, confDel: seq<Resource>, operAdd: seq<Resource>,
                             operDel: seq<Resource>,
                             monAdd: seq<Resource>, monDel: seq<Resource>)

  const NO_UPDATES := Updates([], [], [], [], [], [])

  /** In the configuration tree a monitored resource counts as one that was there before. */
  function Faked(r: Resource): Resource {
    if r.mode == Monitored then r.(mode := PreExisting) else r
  }

  /** One more resource to add or to delete. */
  function Put(u: Updates, r: Resource, delete: bool): Updates {
    var v :=
      if r.mode != Monitored then u
      else if delete then u.(monDel := u.monDel + [r])
      else u.(monAdd := u.monAdd + [r]);
    if delete then v.(confDel := v.confDel + [Faked(r)]) else v.(confAdd := v.confAdd + [Faked(r)])
  }

  function PutOper(u: Updates, r: Resource, delete: bool): Updates {
    if delete then u.(operDel := u.operDel + [r]) else u.(operAdd := u.operAdd + [r])
  }

  /** One more object; a status that goes takes its resource out of the operational tree. */
  function PutObject(u: Updates, o: AimObject, root: string, delete: bool, parents: Parents): Updates {
    match o
    case Plain(r) => if r.root == root then Put(u, r, delete) else u
    case Fault(r) => if r.root == root then PutOper(u, r, delete) else u
    case Status(id, resourceRoot, _) =>
      if delete && resourceRoot == root && StandsFor(o, parents) then PutOper(u, parents(id).value, true) else u
  }

  function PutAll(u: Updates, os: seq<AimObject>, root: string, delete: bool, parents: Parents): Updates {
    if os == [] then u else
    PutObject(PutAll(u, os[..|os| - 1], root, delete, parents), os[|os| - 1], root, delete, parents)
  }

  lemma {:induction false} PutAllConcat(u: Updates, a: seq<AimObject>, b: seq<AimObject>, root: string, delete: bool,
                                        parents: Parents)
    ensures var v := PutAll(u, a, root, delete, parents);
      PutAll(u, a + b, root, delete, parents) == PutAll(v, b, root, delete, parents)
  {
    if b == [] {
      assert a + b == a;
    } else {
      assert (a + b)[..|a + b| - 1] == a + b[..|b| - 1];
      PutAllConcat(u, a, b[..|b| - 1], root, delete, parents);
    }
  }

  function MovedBy(o: AimObject, parents: Parents): seq<AimObject> {
    if StandsFor(o, parents) then [Plain(Marked(parents(o.parent).value, o.state))] else []
  }

  /** The resources that added or updated statuses stand for; they are updated themselves. */
  function Moved(os: seq<AimObject>, parents: Parents): seq<AimObject> {
    if os == [] then [] else
    var o := os[|os| - 1];
    Moved(os[..|os| - 1], parents) + MovedBy(o, parents)
  }

  /** Statuses that were added or updated and have no resource; they are to be deleted. */
  function Orphans(os: seq<AimObject>, parents: Parents): seq<AimObject> {
    if os == [] then [] else
    var o := os[|os| - 1];
    Orphans(os[..|os| - 1], parents) + if o.Status? && !HasParent(o, parents) then [o] else []
  }

  function UpdatesFor(added: seq<AimObject>, updated: seq<AimObject>, deleted: seq<AimObject>, root: string,
                      parents: Parents): Updates
  {
    var now := added + updated + Moved(added, parents) + Moved(updated, parents);
    PutAll(PutAll(NO_UPDATES, now, root, false, parents), deleted, root, true, parents)
  }

  function UpdatesAt(m: map<string, Updates>, root: string): Updates {
    if root in m then m[root] else NO_UPDATES
  }

  ghost function ConfView(c: Converter, v: View, u: Updates): View {
    ClearAll(c, DeleteAll(c, UpdateView(c, v, u.confAdd), u.confDel), u.monAdd)
  }

  ghost function OperView(c: Converter, v: View, u: Updates): View {
    DeleteAll(c, DeleteAll(c, DeleteAll(c, UpdateView(c, v, u.operAdd), u.operDel), u.confDel), u.monDel)
  }

  ghost function MonView(c: Converter, v: View, u: Updates): View {
    ClearAll(c, DeleteAll(c, UpdateView(c, v, u.monAdd), u.monDel), u.confAdd)
  }

  /** The three trees of one root. */
  datatype Trees = Trees(conf: StructuredHashTree, oper: StructuredHashTree, mon: StructuredHashTree) {

    ghost predicate Valid(part: string)
      reads conf, oper, mon, conf.nodes.Values, oper.nodes.Values, mon.nodes.Values
    {
      && conf != oper && conf != mon && oper != mon
      && Fit(conf, part) && Fit(oper, part) && Fit(mon, part)
      && conf.nodes.Values !! oper.nodes.Values !! mon.nodes.Values
    }
  }

  /** The changes of every root, when these objects have been taken in on top of those in `u`. */
  ghost predicate TakenIn(m: map<string, Updates>, u: string -> Updates, os: seq<AimObject>, delete: bool,
                          parents: Parents)
  {
    forall root {:trigger UpdatesAt(m, root)} :: root != "" ==>
      UpdatesAt(m, root) == PutAll(u(root), os, root, delete, parents)
  }

  /** One object goes to its root, or to that of the resource that it stands for. */
  method SegregateOne(m: map<string, Updates>, o: AimObject, delete: bool, parents: Parents)
    returns (m': map<string, Updates>)
    ensures forall root {:trigger UpdatesAt(m', root)} :: root != "" ==>
      UpdatesAt(m', root) == PutObject(UpdatesAt(m, root), o, root, delete, parents)
  {
    m' := m;
    if o.Status? {
      if !HasParent(o, parents) {
        if !delete {
          return;
        }
      } else if delete && parents(o.parent).value.sync {
        var parent := parents(o.parent).value;
        m' := m'[parent.root := PutOper(UpdatesAt(m', parent.root), parent, true)];
      }
    }
    var key := o.Root();
    if key == "" {
      return;
    }
    if key !in m' {
      m' := m'[key := NO_UPDATES];
    }
    match o {
      case Plain(r) => m' := m'[key := Put(m'[key], r, delete)];
      case Fault(r) => m' := m'[key := PutOper(m'[key], r, delete)];
      case Status(_, _, _) =>
    }
  }

  lemma TakenOneMore(m: map<string, Updates>, u: string -> Updates, os: seq<AimObject>, i: nat, delete: bool,
                     parents: Parents,
                     m': map<string, Updates>)
    requires i < |os| && TakenIn(m, u, os[..i], delete, parents)
    requires forall root {:trigger UpdatesAt(m', root)} :: root != "" ==>
      UpdatesAt(m', root) == PutObject(UpdatesAt(m, root), os[i], root, delete, parents)
    ensures TakenIn(m', u, os[..i + 1], delete, parents)
  {
    assert os[..i + 1][..i] == os[..i];
    forall root {:trigger UpdatesAt(m', root)} | root != ""
      ensures UpdatesAt(m', root) == PutAll(u(root), os[..i + 1], root, delete, parents) {
      assert UpdatesAt(m, root) == PutAll(u(root), os[..i], root, delete, parents);
    }
  }

  lemma MovedOneMore(os: seq<AimObject>, i: nat, parents: Parents)
    requires i < |os|
    ensures var o := os[i];
      && Moved(os[..i + 1], parents) ==
           Moved(os[..i], parents) + MovedBy(o, parents)
      && Orphans(os[..i + 1], parents) ==
           Orphans(os[..i], parents) + if o.Status? && !HasParent(o, parents) then [o] else []
  {
    assert os[..i + 1][..i] == os[..i];
  }

  lemma {:induction false} MovedAreMoved(os: seq<AimObject>, parents: Parents)
    ensures forall o :: o in Moved(os, parents) ==> o.Plain?
  {
    if os == [] {
    } else {
      MovedAreMoved(os[..|os| - 1], parents);
    }
  }

  /** Nothing more moves on account of resources. */
  lemma {:induction false} MovedOnce(a: seq<AimObject>, b: seq<AimObject>, parents: Parents)
    requires forall o :: o in b ==> o.Plain?
    ensures Moved(a + b, parents) == Moved(a, parents) && Orphans(a + b, parents) == Orphans(a, parents)
  {
    if b == [] {
      assert a + b == a;
    } else {
      assert (a + b)[..|a + b| - 1] == a + b[..|b| - 1] && b[|b| - 1] in b;
      MovedOnce(a, b[..|b| - 1], parents);
    }
  }

  /** What a status moves joins the end of a list. */
  method Follow(o: AimObject, parents: Parents, list: seq<AimObject>, orphans: seq<AimObject>)
    returns (list': seq<AimObject>, orphans': seq<AimObject>)
    ensures list' == list + MovedBy(o, parents)
    ensures orphans' == orphans + if o.Status? && !HasParent(o, parents) then [o] else []
  {
    list', orphans' := list, orphans;
    if o.Status? {
      if !HasParent(o, parents) {
        orphans' := orphans + [o];
      } else if parents(o.parent).value.sync {
        list' := list + [Plain(Marked(parents(o.parent).value, o.state))];
      }
    }
  }

  method SegregateAdded(added: seq<AimObject>, updated: seq<AimObject>, parents: Parents)
    returns (m: map<string, Updates>, list: seq<AimObject>, orphans: seq<AimObject>)
    ensures TakenIn(m, _ => NO_UPDATES, added, false, parents)
    ensures list == updated + Moved(added, parents) && orphans == Orphans(added, parents)
  {
    m, list, orphans := map[], updated, [];
    for i := 0 to |added|
      invariant TakenIn(m, _ => NO_UPDATES, added[..i], false, parents)
      invariant list == updated + Moved(added[..i], parents) && orphans == Orphans(added[..i], parents)
    {
      ghost var was := m;
      list, orphans := Follow(added[i], parents, list, orphans);
      m := SegregateOne(m, added[i], false, parents);
      TakenOneMore(was, _ => NO_UPDATES, added, i, false, parents, m);
      MovedOneMore(added, i, parents);
    }
    assert added[..|added|] == added;
  }

  /** How far the second list has been read: what its first part moved is at its end. */
  ghost predicate ReadUpTo(list: seq<AimObject>, list0: seq<AimObject>, i: nat, parents: Parents,
                           orphans0: seq<AimObject>, orphans: seq<AimObject>)
  {
    && |list0| <= |list| && i <= |list|
    && list == list0 + Moved(FirstOf(list0, i), parents) && orphans == orphans0 + Orphans(FirstOf(list0, i), parents)
  }

  ghost function FirstOf(list: seq<AimObject>, i: nat): seq<AimObject> {
    if i <= |list| then list[..i] else list
  }

  /** The next object of the list belonged to it from the start, and moves what it stands for. */
  lemma ReadGiven(list: seq<AimObject>, list0: seq<AimObject>, i: nat, parents: Parents,
                  orphans0: seq<AimObject>, orphans: seq<AimObject>)
    requires i < |list0| && ReadUpTo(list, list0, i, parents, orphans0, orphans)
    ensures ReadUpTo(list + MovedBy(list[i], parents), list0, i + 1, parents, orphans0,
                     orphans + if list[i].Status? && !HasParent(list[i], parents) then [list[i]] else [])
  {
    MovedOneMore(list0, i, parents);
    var moved := Moved(FirstOf(list0, i), parents);
    assert list[i] == list0[i];
    assert (list0 + moved) + MovedBy(list[i], parents) == list0 + (moved + MovedBy(list[i], parents));
  }

  /** The next object was moved there by a status that came before, and moves nothing. */
  lemma ReadMoved(list: seq<AimObject>, list0: seq<AimObject>, i: nat, parents: Parents,
                  orphans0: seq<AimObject>, orphans: seq<AimObject>)
    requires |list0| <= i < |list| && ReadUpTo(list, list0, i, parents, orphans0, orphans)
    ensures ReadUpTo(list, list0, i + 1, parents, orphans0, orphans) && list[i].Plain?
  {
    MovedAreMoved(list0, parents);
    assert list0[..|list0|] == list0;
    assert list[i] in Moved(list0, parents);
  }

  method ReadNext(m: map<string, Updates>, ghost u: string -> Updates, list: seq<AimObject>,
                  ghost list0: seq<AimObject>, i: nat,
                  ghost orphans0: seq<AimObject>, orphans: seq<AimObject>, parents: Parents)
    returns (m': map<string, Updates>, list': seq<AimObject>, orphans': seq<AimObject>)
    requires i < |list| && ReadUpTo(list, list0, i, parents, orphans0, orphans)
    requires TakenIn(m, u, list[..i], false, parents)
    ensures ReadUpTo(list', list0, i + 1, parents, orphans0, orphans') && TakenIn(m', u, list'[..i + 1], false, parents)
    ensures i >= |list0| ==> list' == list
  {
    list', orphans' := Follow(list[i], parents, list, orphans);
    if i < |list0| {
      ReadGiven(list, list0, i, parents, orphans0, orphans);
    } else {
      ReadMoved(list, list0, i, parents, orphans0, orphans);
    }
    m' := SegregateOne(m, list[i], false, parents);
    TakenOneMore(m, u, list, i, false, parents, m');
    assert list'[..i + 1] == list[..i + 1];
  }

  /** The second list grows while it is read, by what its own statuses move. */
  method SegregateUpdated(m: map<string, Updates>, list0: seq<AimObject>, orphans0: seq<AimObject>, parents: Parents)
    returns (m': map<string, Updates>, orphans: seq<AimObject>)
    ensures TakenIn(m', root => UpdatesAt(m, root), list0 + Moved(list0, parents), false, parents)
    ensures orphans == orphans0 + Orphans(list0, parents)
  {
    ghost var u := root => UpdatesAt(m, root);
    var list, i := list0, 0;
    m', orphans := m, orphans0;
    while i < |list|
      invariant ReadUpTo(list, list0, i, parents, orphans0, orphans) && TakenIn(m', u, list[..i], false, parents)
      decreases if i <= |list0| then |list0| - i else 0, |list| - i
    {
      m', list, orphans := ReadNext(m', u, list, list0, i, orphans0, orphans, parents);
      i := i + 1;
    }
    assert list0[..|list0|] == list0 && list[..|list|] == list;
  }

  method SegregateDeleted(m: map<string, Updates>, deleted: seq<AimObject>, parents: Parents)
    returns (m': map<string, Updates>)
    ensures TakenIn(m', root => UpdatesAt(m, root), deleted, true, parents)
  {
    ghost var u := root => UpdatesAt(m, root);
    m' := m;
    for i := 0 to |deleted|
      invariant TakenIn(m', u, deleted[..i], true, parents)
    {
      ghost var was := m';
      m' := SegregateOne(m', deleted[i], true, parents);
      TakenOneMore(was, u, deleted, i, true, parents, m');
    }
    assert deleted[..|deleted|] == deleted;
  }

  /** The changes of every root, and the statuses that have lost their resource. */
  method Segregate(added: seq<AimObject>, updated: seq<AimObject>, deleted: seq<AimObject>, parents: Parents)
    returns (byRoot: map<string, Updates>, orphans: seq<AimObject>)
    ensures forall root {:trigger UpdatesAt(byRoot, root)} :: root != "" ==>
      UpdatesAt(byRoot, root) == UpdatesFor(added, updated, deleted, root, parents)
    ensures orphans == Orphans(added, parents) + Orphans(updated, parents)
    ensures forall root {:trigger root in byRoot} :: root != "" ==>
      var now := added + updated + Moved(added, parents) + Moved(updated, parents);
      PutAll(PutAll(NO_UPDATES, now, root, false, parents), deleted, root, true, parents) ==
        if root in byRoot then byRoot[root] else Updates([], [], [], [], [], [])
  {
    var m, list;
    m, list, orphans := SegregateAdded(added, updated, parents);
    ghost var first := m;
    m, orphans := SegregateUpdated(m, list, orphans, parents);
    ghost var second := m;
    byRoot := SegregateDeleted(m, deleted, parents);
    MovedAreMoved(added, parents);
    MovedOnce(updated, Moved(added, parents), parents);
    forall root {:trigger UpdatesAt(byRoot, root)} | root != ""
      ensures UpdatesAt(byRoot, root) == UpdatesFor(added, updated, deleted, root, parents)
    {
      SegregatedAt(UpdatesAt(first, root), UpdatesAt(second, root), added, updated, root, parents);
    }
    assert forall root {:trigger root in byRoot} :: root != "" ==>
      UpdatesAt(byRoot, root) == UpdatesFor(added, updated, deleted, root, parents);
  }

  /** What both loops over added and updated objects have taken in for one root. */
  lemma SegregatedAt(first: Updates, second: Updates, added: seq<AimObject>, updated: seq<AimObject>, root: string,
                     parents: Parents)
    requires first == PutAll(NO_UPDATES, added, root, false, parents)
    requires var list := updated + Moved(added, parents);
      second == PutAll(first, list + Moved(list, parents), root, false, parents)
    ensures var now := added + updated + Moved(added, parents) + Moved(updated, parents);
      second == PutAll(NO_UPDATES, now, root, false, parents)
  {
    var list := updated + Moved(added, parents);
    MovedAreMoved(added, parents);
    MovedOnce(updated, Moved(added, parents), parents);
    PutAllConcat(NO_UPDATES, added, list + Moved(list, parents), root, false, parents);
    InParts(added, updated, Moved(added, parents), Moved(updated, parents));
  }

  lemma InParts(a: seq<AimObject>, b: seq<AimObject>, m: seq<AimObject>, n: seq<AimObject>)
    ensures a + ((b + m) + n) == a + b + m + n
  {}

  /** What an object puts into the trees of the root starts with the part that stands for the root. */
  ghost predicate ObjectRooted(o: AimObject, root: string, c: Converter, part: string, parents: Parents) {
    match o
    case Plain(r) => r.root == root ==> c.Rooted(r, part) && c.Rooted(Faked(r), part)
    case Fault(r) => r.root == root ==> c.Rooted(r, part)
    case Status(id, resourceRoot, state) => resourceRoot == root && StandsFor(o, parents) ==>
      && c.Rooted(parents(id).value, part)
      && c.Rooted(Marked(parents(id).value, state), part) && c.Rooted(Faked(Marked(parents(id).value, state)), part)
  }

  ghost predicate ObjectsRooted(os: seq<AimObject>, root: string, c: Converter, part: string, parents: Parents) {
    forall o :: o in os ==> ObjectRooted(o, root, c, part, parents)
  }

  lemma {:induction false} MovedRooted(os: seq<AimObject>, root: string, c: Converter, part: string, parents: Parents)
    requires ObjectsRooted(os, root, c, part, parents)
    ensures ObjectsRooted(Moved(os, parents), root, c, part, parents)
  {
    if os == [] {
    } else {
      MovedRooted(os[..|os| - 1], root, c, part, parents);
      assert ObjectRooted(os[|os| - 1], root, c, part, parents);
    }
  }

  lemma UpdatesRooted(c: Converter, added: seq<AimObject>, updated: seq<AimObject>, deleted: seq<AimObject>,
                      root: string, part: string,
                      parents: Parents)
    requires ObjectsRooted(added + updated + deleted, root, c, part, parents)
    ensures AllRooted(UpdatesFor(added, updated, deleted, root, parents), c, part)
  {
    assert ObjectsRooted(added, root, c, part, parents) && ObjectsRooted(updated, root, c, part, parents);
    MovedRooted(added, root, c, part, parents);
    MovedRooted(updated, root, c, part, parents);
    var now := added + updated + Moved(added, parents) + Moved(updated, parents);
    PutAllRooted(NO_UPDATES, now, root, false, c, part, parents);
    PutAllRooted(PutAll(NO_UPDATES, now, root, false, parents), deleted, root, true, c, part, parents);
  }

  lemma {:induction false} PutAllRooted(u: Updates, os: seq<AimObject>, root: string, delete: bool, c: Converter,
                                        part: string,
                                        parents: Parents)
    requires AllRooted(u, c, part) && ObjectsRooted(os, root, c, part, parents)
    ensures AllRooted(PutAll(u, os, root, delete, parents), c, part)
  {
    if os == [] {
    } else {
      PutAllRooted(u, os[..|os| - 1], root, delete, c, part, parents);
      assert ObjectRooted(os[|os| - 1], root, c, part, parents);
    }
  }

  ghost predicate RootedIn(rs: seq<Resource>, c: Converter, part: string) {
    forall r :: r in rs ==> c.Rooted(r, part)
  }

  ghost predicate AllRooted(u: Updates, c: Converter, part: string) {
    && RootedIn(u.confAdd, c, part) && RootedIn(u.confDel, c, part) && RootedIn(u.operAdd, c, part)
    && RootedIn(u.operDel, c, part) && RootedIn(u.monAdd, c, part) && RootedIn(u.monDel, c, part)
  }

  method UpdateThenDelete(tree: StructuredHashTree, c: Converter, adds: seq<Resource>, dels: seq<Resource>,
                          part: string)
    requires Fit(tree, part) && RootedIn(adds, c, part) && RootedIn(dels, c, part)
    modifies tree, tree.nodes.Values
    ensures Fit(tree, part) && tree.OnlyNewNodes(old(tree.nodes))
    ensures tree.View() == DeleteAll(c, UpdateView(c, old(tree.View()), adds), dels)
  {
    Update(tree, c, adds, part);
    Delete(tree, c, dels, part);
  }

  /** Updates, deletes and then clears what another tree owns now. */
  method UpdateTree(tree: StructuredHashTree, c: Converter, adds: seq<Resource>, dels: seq<Resource>,
                    clears: seq<Resource>, part: string)
    requires Fit(tree, part) && RootedIn(adds, c, part) && RootedIn(dels, c, part) && RootedIn(clears, c, part)
    modifies tree, tree.nodes.Values
    ensures Fit(tree, part) && tree.OnlyNewNodes(old(tree.nodes))
    ensures tree.View() == ClearAll(c, DeleteAll(c, UpdateView(c, old(tree.View()), adds), dels), clears)
  {
    UpdateThenDelete(tree, c, adds, dels, part);
    Clear(tree, c, clears, part);
  }

  method DeleteTwice(tree: StructuredHashTree, c: Converter, dels: seq<Resource>, more: seq<Resource>, part: string)
    requires Fit(tree, part) && RootedIn(dels, c, part) && RootedIn(more, c, part)
    modifies tree, tree.nodes.Values
    ensures Fit(tree, part) && tree.OnlyNewNodes(old(tree.nodes))
    ensures tree.View() == DeleteAll(c, DeleteAll(c, old(tree.View()), dels), more)
  {
    Delete(tree, c, dels, part);
    Delete(tree, c, more, part);
  }

  method UpdateOper(tree: StructuredHashTree, c: Converter, u: Updates, part: string)
    requires Fit(tree, part) && AllRooted(u, c, part)
    modifies tree, tree.nodes.Values
    ensures Fit(tree, part) && tree.OnlyNewNodes(old(tree.nodes)) && tree.View() == OperView(c, old(tree.View()), u)
  {
    UpdateThenDelete(tree, c, u.operAdd, u.operDel, part);
    DeleteTwice(tree, c, u.confDel, u.monDel, part);
  }

  method BuildConf(trees: Trees, c: Converter, u: Updates, part: string)
    requires trees.Valid(part) && AllRooted(u, c, part)
    modifies trees.conf, trees.conf.nodes.Values
    ensures trees.Valid(part) && trees.conf.OnlyNewNodes(old(trees.conf.nodes))
    ensures trees.conf.View() == ConfView(c, old(trees.conf.View()), u)
    ensures trees.oper.View() == old(trees.oper.View()) && trees.mon.View() == old(trees.mon.View())
    ensures trees.oper.nodes == old(trees.oper.nodes) && trees.mon.nodes == old(trees.mon.nodes)
  {
    UpdateTree(trees.conf, c, u.confAdd, u.confDel, u.monAdd, part);
  }

  method BuildOper(trees: Trees, c: Converter, u: Updates, part: string)
    requires trees.Valid(part) && AllRooted(u, c, part)
    modifies trees.oper, trees.oper.nodes.Values
    ensures trees.Valid(part) && trees.oper.OnlyNewNodes(old(trees.oper.nodes))
    ensures trees.oper.View() == OperView(c, old(trees.oper.View()), u)
    ensures trees.conf.View() == old(trees.conf.View()) && trees.mon.View() == old(trees.mon.View())
    ensures trees.conf.nodes == old(trees.conf.nodes) && trees.mon.nodes == old(trees.mon.nodes)
  {
    UpdateOper(trees.oper, c, u, part);
  }

  method BuildMon(trees: Trees, c: Converter, u: Updates, part: string)
    requires trees.Valid(part) && AllRooted(u, c, part)
    modifies trees.mon, trees.mon.nodes.Values
    ensures trees.Valid(part) && trees.mon.OnlyNewNodes(old(trees.mon.nodes))
    ensures trees.mon.View() == MonView(c, old(trees.mon.View()), u)
    ensures trees.conf.View() == old(trees.conf.View()) && trees.oper.View() == old(trees.oper.View())
    ensures trees.conf.nodes == old(trees.conf.nodes) && trees.oper.nodes == old(trees.oper.nodes)
  {
    UpdateTree(trees.mon, c, u.monAdd, u.monDel, u.confAdd, part);
  }

  /**
   Applies a batch to the trees of `root`; objects of other roots are passed over. Statuses without a
   resource are returned, as they are to be deleted from the database.
   */
  method Build(c: Converter, added: seq<AimObject>, updated: seq<AimObject>, deleted: seq<AimObject>, root: string,
               part: string,
               trees: Trees, parents: Parents) returns (orphans: seq<AimObject>)
    requires trees.Valid(part) && root != "" && ObjectsRooted(added + updated + deleted, root, c, part, parents)
    modifies trees.conf, trees.oper, trees.mon, trees.conf.nodes.Values, trees.oper.nodes.Values, trees.mon.nodes.Values
    ensures trees.Valid(part)
    ensures trees.conf.OnlyNewNodes(old(trees.conf.nodes)) && trees.oper.OnlyNewNodes(old(trees.oper.nodes))
    ensures trees.mon.OnlyNewNodes(old(trees.mon.nodes))
    ensures var u := UpdatesFor(added, updated, deleted, root, parents);
      && trees.conf.View() == ConfView(c, old(trees.conf.View()), u)
      && trees.oper.View() == OperView(c, old(trees.oper.View()), u)
      && trees.mon.View() == MonView(c, old(trees.mon.View()), u)
    ensures orphans == Orphans(added, parents) + Orphans(updated, parents)
    ensures var u, v := UpdatesFor(added, updated, deleted, root, parents), old(trees.conf.View());
      trees.conf.View() == ClearAll(c, DeleteAll(c, UpdateView(c, v, u.confAdd), u.confDel), u.monAdd)
    ensures var u, v := UpdatesFor(added, updated, deleted, root, parents), old(trees.mon.View());
      trees.mon.View() == ClearAll(c, DeleteAll(c, UpdateView(c, v, u.monAdd), u.monDel), u.confAdd)
    ensures var u, v := UpdatesFor(added, updated, deleted, root, parents), old(trees.oper.View());
      trees.oper.View() ==
        DeleteAll(c, DeleteAll(c, DeleteAll(c, UpdateView(c, v, u.operAdd), u.operDel), u.confDel), u.monDel)
  {
    var byRoot;
    byRoot, orphans := Segregate(added, updated, deleted, parents);
    ghost var u := UpdatesFor(added, updated, deleted, root, parents);
    assert UpdatesAt(byRoot, root) == u;
    UpdatesRooted(c, added, updated, deleted, root, part, parents);
    if root in byRoot {
      BuildTrees(c, byRoot[root], part, trees);
    } else {
      trees.conf.ValidView();
      trees.oper.ValidView();
      trees.mon.ValidView();
      NothingToBuild(trees.conf.View(), c);
      NothingToBuild(trees.oper.View(), c);
      NothingToBuild(trees.mon.View(), c);
    }
  }

  method BuildTrees(c: Converter, u: Updates, part: string, trees: Trees)
    requires trees.Valid(part) && AllRooted(u, c, part)
    modifies trees.conf, trees.oper, trees.mon, trees.conf.nodes.Values, trees.oper.nodes.Values, trees.mon.nodes.Values
    ensures trees.Valid(part)
    ensures trees.conf.OnlyNewNodes(old(trees.conf.nodes)) && trees.oper.OnlyNewNodes(old(trees.oper.nodes))
    ensures trees.mon.OnlyNewNodes(old(trees.mon.nodes))
    ensures trees.conf.View() == ConfView(c, old(trees.conf.View()), u)
    ensures trees.oper.View() == OperView(c, old(trees.oper.View()), u)
    ensures trees.mon.View() == MonView(c, old(trees.mon.View()), u)
  {
    BuildConf(trees, c, u, part);
    BuildOper(trees, c, u, part);
    BuildMon(trees, c, u, part);
  }

  lemma NothingToBuild(v: View, c: Converter)
    requires Trim(v) == v
    ensures ConfView(c, v, NO_UPDATES) == v && MonView(c, v, NO_UPDATES) == v && OperView(c, v, NO_UPDATES) == v
  {
    AddNone(v);
    DummiedNothing(v, {});
    assert KeysOfAll(c, []) == {};
  }

  // ---------------------------------------------------------------- who owns a key

  /** Keys that are real nodes. */
  ghost function Real(v: View): set<Key> {
    set k | k in v && !v[k].dummy
  }

  lemma RealAfterTrim(v: View, ks: set<Key>)
    ensures Real(Trim(Dummied(v, ks))) == Real(v) - ks
  {
    var w := Dummied(v, ks);
    forall k ensures k in Real(Trim(w)) <==> k in Real(v) && k !in ks {
      assert k in w && !w[k].dummy ==> Supported(w, k);
    }
  }

  lemma RealAfterClean(v: View, key: Key)
    ensures Real(CleanView(v, key)) <= Real(v)
  {
    RealAfterTrim(v, RelatedBelow(v, key));
  }

  lemma {:induction false} RealAfterPrepare(c: Converter, v: View, rs: seq<Resource>)
    ensures Real(PrepareAll(c, v, rs)) <= Real(v)
  {
    if rs == [] {
    } else {
      var init, r := rs[..|rs| - 1], rs[|rs| - 1];
      RealAfterPrepare(c, v, init);
      if c.mainKey(r).Some? {
        RealAfterClean(PrepareAll(c, v, init), c.mainKey(r).value);
      }
    }
  }

  lemma {:induction false} RealAfterDelete(c: Converter, v: View, rs: seq<Resource>)
    ensures Real(DeleteAll(c, v, rs)) <= Real(v)
  {
    if rs == [] {
    } else {
      var init, r := rs[..|rs| - 1], rs[|rs| - 1];
      RealAfterDelete(c, v, init);
      var w := DeleteAll(c, v, init);
      if c.mainKey(r).Some? {
        RealAfterCleared(w, c.mainKey(r).value);
        RealAfterClean(ClearView(w, c.mainKey(r).value), c.mainKey(r).value);
      }
    }
  }

  lemma RealAfterCleared(v: View, key: Key)
    ensures Real(ClearView(v, key)) <= Real(v)
  {
    if key in v {
      assert v[key := v[key].(dummy := true, attrs := map[])] == Dummied(v, {key});
      RealAfterTrim(v, {key});
    }
  }

  lemma {:induction false} NodesAreConverted(c: Converter, rs: seq<Resource>)
    ensures NodesOfAll(c, rs).Keys <= KeysOfAll(c, rs)
  {
    if rs == [] {
    } else {
      NodesAreConverted(c, rs[..|rs| - 1]);
      forall k | k in NodesOfAll(c, rs) ensures k in KeysOfAll(c, rs) {
        assert rs[|rs| - 1] in rs;
        if k in KeysOfAll(c, rs[..|rs| - 1]) {
          var r :| r in rs[..|rs| - 1] && k in c.convert(r);
          assert r in rs;
        }
      }
    }
  }

  lemma RealAfterUpdate(c: Converter, v: View, rs: seq<Resource>)
    ensures Real(UpdateView(c, v, rs)) <= Real(v) + KeysOfAll(c, rs)
  {
    RealAfterPrepare(c, v, rs);
    NodesAreConverted(c, rs);
  }

  /** What a batch can make real in a tree, and what it certainly makes no longer real. */
  lemma RealAfterBatch(c: Converter, v: View, adds: seq<Resource>, dels: seq<Resource>, clears: seq<Resource>)
    ensures Real(ClearAll(c, DeleteAll(c, UpdateView(c, v, adds), dels), clears)) <=
      Real(v) + KeysOfAll(c, adds) - KeysOfAll(c, clears)
  {
    RealAfterUpdate(c, v, adds);
    RealAfterDelete(c, UpdateView(c, v, adds), dels);
    RealAfterTrim(DeleteAll(c, UpdateView(c, v, adds), dels), KeysOfAll(c, clears));
  }

  /** No key is real in the configuration tree and in the monitored tree. */
  ghost predicate Exclusive(conf: View, mon: View) {
    Real(conf) !! Real(mon)
  }

  lemma BatchKeepsExclusive(c: Converter, conf: View, mon: View, u: Updates)
    requires Exclusive(conf, mon)
    ensures Exclusive(ConfView(c, conf, u), MonView(c, mon, u))
  {
    RealAfterBatch(c, conf, u.confAdd, u.confDel, u.monAdd);
    RealAfterBatch(c, mon, u.monAdd, u.monDel, u.confAdd);
  }

  /** The configuration and monitored trees after some batches, starting from nothing. */
  ghost function BatchesView(c: Converter, batches: seq<Updates>): (View, View) {
    if batches == [] then (map[], map[]) else
    var (conf, mon) := BatchesView(c, batches[..|batches| - 1]);
    (ConfView(c, conf, batches[|batches| - 1]), MonView(c, mon, batches[|batches| - 1]))
  }

  /** Ownership is exclusive after any batches, whatever the conversion is. */
  lemma {:induction false} OwnershipIsExclusive(c: Converter, batches: seq<Updates>)
    ensures Exclusive(BatchesView(c, batches).0, BatchesView(c, batches).1)
  {
    if batches == [] {
    } else {
      var before := batches[..|batches| - 1];
      OwnershipIsExclusive(c, before);
      BatchKeepsExclusive(c, BatchesView(c, before).0, BatchesView(c, before).1, batches[|batches| - 1]);
    }
  }
}
