/**
 Keeping the stored trees of one root in step with the database: commits are logged, the log is replayed onto
 the trees later, and a log that has grown too long is replaced by a rebuild from the database.
 */
module DbListener {
  import opened Keys
  import opened TreeStore
  import opened TreeTheory
  import opened StructuredTree
  import opened TreeJson
  import opened TreeMaker
  import opened TreeBuilder
  import opened TreeReplay
  import opened ActionLog
  import opened LogRuns
  import opened LogLaws
  import LedgerLaws
  import RootsLog
  import opened FaultRuns

  /** The root hash of a tree with these nodes; an empty tree is known by its root key. */
  ghost function StoreHash(s: Store, part: string): Option<Digest> {
    if [part] in s then s[[part]].full else Some(KeyHash([part]))
  }

  /** A stored tree. */
  class TreeRow {
    var tree: Json
    ghost var store: Store
    ghost var rootKey: Option<Key>

    ghost predicate Valid(part: string)
      reads this
    {
      && (if rootKey.Some? then rootKey.value == [part] && Good(store, [part]) else store == map[])
      && tree == StoreJson(store, rootKey)
    }

    constructor (ghost part: string)
      ensures Valid(part) && store == map[]
    {
      tree := Obj(map[]);
      store, rootKey := map[], None;
    }

    /** The tree that the row holds. */
    method Get(part: string) returns (t: StructuredHashTree)
      requires Valid(part)
      ensures fresh(t) && Fit(t, part) && t.store == store
      ensures forall n :: n in t.nodes ==> fresh(t.nodes[n])
    {
      t := FromString(tree, Some([part]), false, store, rootKey);
    }

    /** The root hash of the tree that the row holds. */
    method RootFullHash(part: string) returns (h: Option<Digest>)
      requires Valid(part)
      ensures h == StoreHash(store, part)
    {
      var t := Get(part);
      h := t.RootFullHash();
      if t.root != null {
        assert t.LinkedAt(t.root.key);
      }
    }

    method Put(t: StructuredHashTree, part: string)
      requires Fit(t, part)
      modifies this
      ensures Valid(part) && store == t.store
    {
      tree := ToString(t);
      store, rootKey := t.store, if t.root == null then None else Some(t.root.key);
    }

    method Clean(ghost part: string)
      modifies this
      ensures Valid(part) && store == map[]
    {
      tree := Obj(map[]);
      store, rootKey := map[], None;
    }
  }

  class HashTreeDbListener {
    const c: Converter
    const root: string
    const part: string
    const blocks: Blocks
    const conf: TreeRow
    const oper: TreeRow
    const mon: TreeRow
    var db: Db
    var logs: seq<Entry>
    var needsReset: bool
    ghost const layout: Layout
    /** The resources that the configuration and monitored trees show. */
    ghost var applied: Applied
    ghost var lost: set<Id>

    ghost function State(): Ledger
      reads this
    {
      Ledger(db, logs, needsReset, applied, lost)
    }

    ghost predicate Setting() {
      && layout.c == c && layout.root == root && layout.part == part && layout.Regular() && root != ""
      && conf != oper && conf != mon && oper != mon
    }

    ghost predicate RowsValid()
      reads conf, oper, mon
    {
      conf.Valid(part) && oper.Valid(part) && mon.Valid(part)
    }

    /** The stored trees show exactly the applied resources. */
    ghost predicate Shows()
      reads conf, mon, `applied
    {
      layout.Shown(ViewOf(conf.store), ViewOf(mon.store), applied)
    }

    ghost predicate Valid()
      reads this, conf, oper, mon
    {
      Setting() && RowsValid() && Shows() && InOrder(layout, blocks, State())
    }

    constructor (c: Converter, root: string, part: string, blocks: Blocks, ghost layout: Layout)
      requires layout.c == c && layout.root == root && layout.part == part && layout.Regular() && root != ""
      ensures Valid() && fresh(conf) && fresh(oper) && fresh(mon)
      ensures this.c == c && this.root == root && this.part == part && this.blocks == blocks && this.layout == layout
      ensures State() == Ledger(map[], [], false, map[], {}) && ViewOf(oper.store) == map[]
    {
      this.c, this.root, this.part, this.blocks, this.layout := c, root, part, blocks, layout;
      conf := new TreeRow(part);
      oper := new TreeRow(part);
      mon := new TreeRow(part);
      db, logs, needsReset, applied, lost := map[], [], false, map[], {};
      new;
      layout.NothingShowsNothing();
    }

    /** The stored configuration and monitored trees share no real key. */
    lemma StoredAreExclusive()
      requires Valid()
      ensures Exclusive(ViewOf(conf.store), ViewOf(mon.store))
    {
      layout.ShownIsExclusive(ViewOf(conf.store), ViewOf(mon.store), applied);
    }

    // -------------------------------------------------------------- commits

    /** The change of one object, and its entry in the log unless a reset is on its way. */
    method LogChange(o: AimObject, delete: bool, resetting: bool) returns (resetting': bool)
      requires Valid() && WellKeptObject(layout, o) && (resetting ==> HasReset(logs))
      modifies this`db, this`logs
      ensures Valid() && State() == AfterChange(root, old(State()), o, delete)
      ensures resetting' ==> HasReset(logs)
    {
      ChangeKeepsOrder(layout, blocks, State(), o, delete);
      db := Changed(db, o, delete);
      resetting' := resetting || exists e :: e in logs && e.action == Reset;
      if resetting' {
        return;
      }
      var action := ActionFor(o, delete);
      if |logs| >= MAX_EVENTS_PER_ROOT {
        action := Reset;
      }
      logs := logs + [Entry(action, o)];
    }

    method LogChanges(os: seq<AimObject>, delete: bool, resetting: bool) returns (resetting': bool)
      requires Valid() && Loggable(layout, os) && (resetting ==> HasReset(logs))
      modifies this`db, this`logs
      ensures Valid() && State() == AfterChanges(root, old(State()), os, delete) && (resetting' ==> HasReset(logs))
    {
      resetting' := resetting;
      for i := 0 to |os|
        invariant Valid() && State() == AfterChanges(root, old(State()), os[..i], delete)
        invariant resetting' ==> HasReset(logs)
      {
        assert os[..i + 1][..i] == os[..i];
        if os[i].Root() == root {
          resetting' := LogChange(os[i], delete, resetting');
        }
      }
      assert os[..|os|] == os;
    }

    /** A commit: whatever it adds, updates and deletes, the trees can still be brought up to date. */
    method OnCommit(added: seq<AimObject>, updated: seq<AimObject>, deleted: seq<AimObject>)
      requires Valid() && Loggable(layout, added + updated) && Loggable(layout, deleted)
      modifies this`db, this`logs
      ensures Valid() && State() == AfterCommit(root, old(State()), added, updated, deleted)
      ensures State() ==
        AfterChanges(root, AfterChanges(root, AfterChanges(root, old(State()), added, false), updated, false),
          deleted, true)
    {
      LedgerLaws.ChangesInTurn(root, State(), added, updated, false);
      var resetting := LogChanges(added + updated, false, false);
      resetting := LogChanges(deleted, true, resetting);
    }

    // -------------------------------------------------------------- processing the log

    /** The entries to replay, and whether a reset is on its way: all of them are of this root. */
    method PreprocessLogs() returns (todo: seq<Entry>, resetting: bool, ghost order: seq<string>)
      requires Valid()
      ensures resetting == HasReset(logs) && AnOrder(order, SortedOut(blocks, db, logs).queues.Keys)
      ensures todo == Emptied(SortedOut(blocks, db, logs), order)
      ensures forall e :: !resetting && NamesDiffer(blocks, db, logs) && HeededRule(db, logs, e) ==>
        var id := Id(e.obj.res.kind, e.obj.res.ident);
        LastWord(db, todo, id) == Some(Word(id, if id in db && !blocks(db[id]) then Some(db[id]) else None))
    {
      var byRoot, roots;
      byRoot, roots, order := RootsLog.PreprocessLogs(blocks, db, logs);
      RootsLog.OneRootLists(blocks, db, logs, order, root);
      todo, resetting := RootsLog.ListOf(byRoot, root), root in roots;
      if !resetting && NamesDiffer(blocks, db, logs) {
        forall e | HeededRule(db, logs, e)
          ensures var id := Id(e.obj.res.kind, e.obj.res.ident);
            LastWord(db, todo, id) == Some(Word(id, if id in db && !blocks(db[id]) then Some(db[id]) else None))
        {
          ProcessedHears(blocks, db, logs, order, e);
        }
      }
    }

    // -------------------------------------------------------------- pushing changes to the trees

    /** The same of the trees being edited. */
    ghost predicate ShowsOf(trees: Trees, a: Applied)
      reads trees.conf, trees.mon
    {
      layout.Shown(trees.conf.View(), trees.mon.View(), a)
    }

    /** What building an object makes of trees that show these resources. */
    lemma ObjectShows(v: View, w: View, a: Applied, o: AimObject, delete: bool, parents: Parents)
      requires Setting() && layout.Shown(v, w, a) && layout.KeptObject(o, parents)
      ensures ObjectRooted(o, root, c, part, parents)
      ensures var u := BatchOf(o, delete, root, parents);
        layout.Shown(ConfView(c, v, u), MonView(c, w, u), Heard(a, WordOf(o, delete, parents)))
    {
      layout.EverythingIsRooted(o, parents);
      layout.BatchReflects(v, w, a, o, delete, parents);
    }

    method BuildObject(trees: Trees, o: AimObject, delete: bool, parents: Parents)
      requires trees.Valid(part) && root != "" && ObjectRooted(o, root, c, part, parents)
      modifies trees.conf, trees.oper, trees.mon, trees.conf.nodes.Values, trees.oper.nodes.Values,
               trees.mon.nodes.Values
      ensures trees.Valid(part)
      ensures trees.conf.OnlyNewNodes(old(trees.conf.nodes)) && trees.oper.OnlyNewNodes(old(trees.oper.nodes))
      ensures trees.mon.OnlyNewNodes(old(trees.mon.nodes))
      ensures trees.conf.View() == ConfView(c, old(trees.conf.View()), BatchOf(o, delete, root, parents))
      ensures trees.mon.View() == MonView(c, old(trees.mon.View()), BatchOf(o, delete, root, parents))
      ensures trees.oper.View() == OperView(c, old(trees.oper.View()), BatchOf(o, delete, root, parents))
    {
      var added := if delete then [] else [o];
      var deleted := if delete then [o] else [];
      assert added + [] + deleted == [o];
      var orphans := Build(c, added, [], deleted, root, part, trees, parents);
    }

    /** An object is built into trees that show these resources. */
    method BuildShown(trees: Trees, o: AimObject, delete: bool, ghost a: Applied)
      requires Setting() && GoodDb(layout, db) && trees.Valid(part) && ShowsOf(trees, a) && layout.Buildable(o)
      modifies trees.conf, trees.oper, trees.mon, trees.conf.nodes.Values, trees.oper.nodes.Values,
               trees.mon.nodes.Values
      ensures trees.Valid(part) && ShowsOf(trees, Heard(a, WordOf(o, delete, LookUp(db))))
      ensures trees.oper.View() == OperView(c, old(trees.oper.View()), BatchOf(o, delete, root, LookUp(db)))
      ensures trees.conf.OnlyNewNodes(old(trees.conf.nodes)) && trees.oper.OnlyNewNodes(old(trees.oper.nodes))
      ensures trees.mon.OnlyNewNodes(old(trees.mon.nodes))
    {
      var parents := LookUp(db);
      ghost var v, w := trees.conf.View(), trees.mon.View();
      ObjectShows(v, w, a, o, delete, parents);
      ghost var u := BatchOf(o, delete, root, parents);
      BuildObject(trees, o, delete, parents);
      assert trees.conf.View() == ConfView(c, v, u) && trees.mon.View() == MonView(c, w, u);
    }

    /** One entry is built into the trees. */
    method ReplayEntry(trees: Trees, e: Entry, ghost a: Applied)
      requires Setting() && GoodDb(layout, db) && trees.Valid(part) && ShowsOf(trees, a) && layout.Buildable(e.obj)
      modifies trees.conf, trees.oper, trees.mon, trees.conf.nodes.Values, trees.oper.nodes.Values,
               trees.mon.nodes.Values
      ensures trees.Valid(part) && ShowsOf(trees, Apply(db, a, e))
      ensures trees.oper.View() == PushedOne(layout, db, old(trees.oper.View()), e)
      ensures trees.conf.OnlyNewNodes(old(trees.conf.nodes)) && trees.oper.OnlyNewNodes(old(trees.oper.nodes))
      ensures trees.mon.OnlyNewNodes(old(trees.mon.nodes))
    {
      if e.action != Skip {
        BuildShown(trees, e.obj, e.action != Create, a);
      }
    }

    ghost function NodesOf(trees: Trees): set<Node>
      reads trees.conf`nodes, trees.oper`nodes, trees.mon`nodes
    {
      trees.conf.nodes.Values + trees.oper.nodes.Values + trees.mon.nodes.Values
    }

    twostate lemma NewNodesAreFresh(trees: Trees)
      requires trees.conf.OnlyNewNodes(old(trees.conf.nodes)) && trees.oper.OnlyNewNodes(old(trees.oper.nodes))
      requires trees.mon.OnlyNewNodes(old(trees.mon.nodes))
      ensures fresh(NodesOf(trees) - old(NodesOf(trees)))
    {}

    /** One more entry; the trees keep their nodes or get new ones. */
    method ReplayNext(trees: Trees, todo: seq<Entry>, i: nat, ghost a: Applied, ghost w: View)
      returns (ghost more: set<Node>)
      requires Setting() && GoodDb(layout, db) && AllBuildable(layout, todo)
      requires i < |todo| && Replaying(trees, todo, i, a, w)
      modifies trees.conf, trees.oper, trees.mon, trees.conf.nodes.Values, trees.oper.nodes.Values,
               trees.mon.nodes.Values
      ensures Replaying(trees, todo, i + 1, a, w)
      ensures fresh(more) && NodesOf(trees) <= old(NodesOf(trees)) + more
    {
      assert todo[..i + 1][..i] == todo[..i] && todo[i] in todo;
      ReplayEntry(trees, todo[i], Replay(db, a, todo[..i]));
      NewNodesAreFresh(trees);
      more := NodesOf(trees) - old(NodesOf(trees));
    }

    /** Nobody else has these trees. */
    twostate predicate OwnTrees(new trees: Trees)
      reads trees.conf, trees.oper, trees.mon
    {
      && fresh(trees.conf) && fresh(trees.oper) && fresh(trees.mon)
      && (forall n :: n in trees.conf.nodes ==> fresh(trees.conf.nodes[n]))
      && (forall n :: n in trees.oper.nodes ==> fresh(trees.oper.nodes[n]))
      && (forall n :: n in trees.mon.nodes ==> fresh(trees.mon.nodes[n]))
    }

    twostate lemma OwnNodesAreFresh(new trees: Trees)
      requires OwnTrees(trees)
      ensures fresh(NodesOf(trees))
    {}

    method ReadTrees() returns (trees: Trees)
      requires RowsValid()
      ensures trees.Valid(part) && OwnTrees(trees)
      ensures trees.conf.store == conf.store && trees.oper.store == oper.store && trees.mon.store == mon.store
    {
      var conf := this.conf.Get(part);
      var oper := this.oper.Get(part);
      var mon := this.mon.Get(part);
      trees := Trees(conf, oper, mon);
    }

    method WriteTrees(trees: Trees, ghost a: Applied)
      requires Setting() && trees.Valid(part) && ShowsOf(trees, a)
      modifies this`applied, conf, oper, mon
      ensures RowsValid() && Shows() && applied == a && oper.store == trees.oper.store
    {
      conf.Put(trees.conf, part);
      oper.Put(trees.oper, part);
      mon.Put(trees.mon, part);
      applied := a;
    }

    /** The stored trees, before any entry is built into them. */
    method ReadToReplay(todo: seq<Entry>) returns (trees: Trees)
      requires RowsValid() && Shows()
      ensures Replaying(trees, todo, 0, applied, ViewOf(oper.store)) && fresh(NodesOf(trees))
      ensures fresh(trees.conf) && fresh(trees.oper) && fresh(trees.mon)
    {
      trees := ReadTrees();
      OwnNodesAreFresh(trees);
      assert todo[..0] == [];
    }

    /** The stored trees, with the entries built into them. */
    method ReadAndReplay(todo: seq<Entry>) returns (trees: Trees)
      requires Setting() && RowsValid() && Shows() && GoodDb(layout, db) && AllBuildable(layout, todo)
      ensures Replaying(trees, todo, |todo|, applied, ViewOf(oper.store))
      ensures fresh(trees.conf) && fresh(trees.oper) && fresh(trees.mon)
    {
      trees := ReadToReplay(todo);
      ghost var own, w := NodesOf(trees), ViewOf(oper.store);
      for i := 0 to |todo|
        invariant Replaying(trees, todo, i, applied, w) && fresh(own) && NodesOf(trees) <= own
      {
        ghost var more := ReplayNext(trees, todo, i, applied, w);
        own := own + more;
      }
    }

    /** Reads the trees, builds the entries into them and stores them again. */
    method PushEntries(todo: seq<Entry>)
      requires Setting() && RowsValid() && Shows() && GoodDb(layout, db) && AllBuildable(layout, todo)
      modifies this`applied, conf, oper, mon
      ensures RowsValid() && Shows() && applied == Replay(db, old(applied), todo)
      ensures ViewOf(oper.store) == Pushed(layout, db, old(ViewOf(oper.store)), todo)
    {
      var trees := ReadAndReplay(todo);
      assert todo[..|todo|] == todo;
      WriteTrees(trees, Replay(db, applied, todo));
    }

    /** The first entries have been built into the trees. */
    ghost predicate Replaying(trees: Trees, todo: seq<Entry>, i: nat, a: Applied, w: View)
      reads this`db, trees.conf, trees.oper, trees.mon
      reads trees.conf.nodes.Values, trees.oper.nodes.Values, trees.mon.nodes.Values
    {
      && i <= |todo| && trees.Valid(part) && ShowsOf(trees, Replay(db, a, todo[..i]))
      && trees.oper.View() == Pushed(layout, db, w, todo[..i])
    }

    // -------------------------------------------------------------- rebuilding

    ghost predicate Base()
      reads this, conf, oper, mon
    {
      Setting() && RowsValid() && Shows() && GoodDb(layout, db)
    }

    /** The trees are emptied; what they had shown is forgotten. */
    method DeleteTrees()
      requires Base()
      modifies this`applied, this`needsReset, conf, oper, mon
      ensures Base() && applied == map[] && !needsReset && ViewOf(oper.store) == map[]
    {
      conf.Clean(part);
      oper.Clean(part);
      mon.Clean(part);
      needsReset, applied := false, map[];
      layout.NothingShowsNothing();
    }

    /** The creations that make the trees of one resource anew: its state and faults first, if it has any. */
    method ListResource(id: Id, stats: Stats) returns (todo: seq<Entry>)
      requires GoodDb(layout, db) && layout.root == root && id in db
      ensures AllBuildable(layout, todo) && todo == ListedOf(blocks, db, root, stats, id)
      ensures forall a :: Replay(db, a, todo) == if id in Wanted(blocks, db) then a[id := db[id]] else a
    {
      todo := [];
      var obj := db[id];
      if Blocked(blocks, obj) || !obj.sync {
        return;
      }
      var stat := stats(id);
      if stat.Some? {
        todo := StatEntries(id, root, stat.value);
      }
      ghost var before := todo;
      todo := todo + [Entry(Create, Plain(obj))];
      forall a ensures Replay(db, a, todo) == a[id := obj] {
        ListedSays(db, a, id, root, stat, before);
      }
    }

    /** The creations that make the trees anew, in no particular order. */
    method ListResources(stats: Stats) returns (todo: seq<Entry>, ghost order: seq<Id>)
      requires GoodDb(layout, db) && layout.root == root
      ensures AllBuildable(layout, todo) && Replay(db, map[], todo) == Wanted(blocks, db)
      ensures AllListed(blocks, db, root, stats, order, todo)
    {
      todo, order := [], [];
      var left := db.Keys;
      while left != {}
        invariant left <= db.Keys && AllBuildable(layout, todo)
        invariant Replay(db, map[], todo) == Wanted(blocks, db) - left
        invariant todo == ListedInOrder(blocks, db, root, stats, order)
        invariant forall id :: id in db.Keys - left ==> id in order
      {
        var id :| id in left;
        var more := ListResource(id, stats);
        ReplayAppended(db, map[], todo, more);
        OneMoreWanted(blocks, db, left, id);
        assert (order + [id])[..|order|] == order;
        todo, order, left := todo + more, order + [id], left - {id};
      }
    }

    method RecreateTrees(stats: Stats)
      requires Base() && applied == map[] && !needsReset && ViewOf(oper.store) == map[]
      modifies this`applied, this`lost, this`needsReset, this`logs, conf, oper, mon
      ensures Base() && State() == Rebuilt(blocks, old(State()))
      ensures OperRemade(layout, blocks, db, stats, ViewOf(oper.store))
      decreases false, 2
    {
      var todo;
      ghost var order;
      todo, order := ListResources(stats);
      if todo != [] {
        PushChanges(todo, false, false, stats);
      }
      lost := {};
    }

    method ResetRoot(stats: Stats)
      requires Base()
      modifies this`applied, this`lost, this`needsReset, this`logs, conf, oper, mon
      ensures Base() && State() == Rebuilt(blocks, old(State()))
      ensures OperRemade(layout, blocks, db, stats, ViewOf(oper.store))
      decreases true, 0
    {
      DeleteTrees();
      RecreateTrees(stats);
    }

    /** Builds the entries into the trees, unless these are to be rebuilt anyway; then the log stays as it is. */
    method PushChanges(todo: seq<Entry>, deleteLogs: bool, checkReset: bool, stats: Stats)
      requires Base() && AllBuildable(layout, todo)
      modifies this`applied, this`lost, this`needsReset, this`logs, conf, oper, mon
      ensures Base()
      ensures checkReset && old(needsReset) ==>
        State() == Rebuilt(blocks, old(State())) && OperRemade(layout, blocks, db, stats, ViewOf(oper.store))
      ensures !(checkReset && old(needsReset)) ==>
        && applied == Replay(db, old(applied), todo) && needsReset == old(needsReset) && lost == old(lost)
        && logs == (if deleteLogs then [] else old(logs))
        && ViewOf(oper.store) == Pushed(layout, db, old(ViewOf(oper.store)), todo)
      decreases checkReset, 1
    {
      if checkReset && needsReset {
        ResetRoot(stats);
        return;
      }
      PushEntries(todo);
      if deleteLogs {
        logs := [];
      }
    }

    /** Brings the trees up to date with the log; a log with a reset gives way to a rebuild. */
    method CatchUpWithActionLog(stats: Stats)
      requires Valid()
      modifies this`applied, this`lost, this`needsReset, this`logs, conf, oper, mon
      ensures Valid() && State() == CaughtUp(blocks, old(State()))
      ensures OperCaughtUp(layout, blocks, old(State()), stats, old(ViewOf(oper.store)), ViewOf(oper.store))
      ensures old(lost) == {} && NamesDiffer(blocks, old(db), old(logs)) ==> lost == {}
      ensures old(lost) == {} && NamesDiffer(blocks, old(db), old(logs)) && (!old(needsReset) || old(logs) == []) ==>
        forall id ::
          && (id in applied <==> id in db && db[id].sync && !(db[id].kind == "SecurityGroupRule" && blocks(db[id])))
          && (id in applied ==> applied[id] == db[id])
    {
      if lost == {} && NamesDiffer(blocks, db, logs) {
        LedgerLaws.DifferentNamesAreShown(layout, blocks, State());
      }
      if logs == [] {
        return;
      }
      CatchUpKeepsOrder(layout, blocks, State());
      var todo, resetting := ProcessLogs();
      if resetting {
        PushReset(stats);
      } else {
        PushProcessed(todo, stats);
      }
    }

    /** The processed log, which replays as it should. */
    method ProcessLogs() returns (todo: seq<Entry>, resetting: bool)
      requires Valid()
      ensures AllBuildable(layout, todo) && resetting == HasReset(logs)
      ensures Replay(db, applied, todo) == Replayed(blocks, db, logs, applied)
      ensures Processed(blocks, db, logs, todo)
    {
      ghost var order;
      todo, resetting, order := PreprocessLogs();
      SortedOutBuildable(layout, blocks, db, logs);
      EmptiedBuildable(layout, SortedOut(blocks, db, logs), order);
      ReplayIsReplayed(blocks, db, logs, order, applied);
    }

    /** A root with a reset on its way loses its log and is rebuilt. */
    method PushReset(stats: Stats)
      requires Base() && HasReset(logs)
      modifies this`applied, this`lost, this`needsReset, this`logs, conf, oper, mon
      ensures Base() && State() == CaughtUp(blocks, old(State()))
      ensures OperRemade(layout, blocks, db, stats, ViewOf(oper.store))
    {
      logs, needsReset := [], true;
      PushChanges([], true, true, stats);
    }

    /** The others replay their logs, unless a rebuild was asked for. */
    method PushProcessed(todo: seq<Entry>, stats: Stats)
      requires Base() && logs != [] && !HasReset(logs) && AllBuildable(layout, todo)
      requires Replay(db, applied, todo) == Replayed(blocks, db, logs, applied) && Processed(blocks, db, logs, todo)
      modifies this`applied, this`lost, this`needsReset, this`logs, conf, oper, mon
      ensures Base() && State() == CaughtUp(blocks, old(State()))
      ensures OperCaughtUp(layout, blocks, old(State()), stats, old(ViewOf(oper.store)), ViewOf(oper.store))
    {
      var wasAsked := needsReset;
      PushChanges(todo, true, true, stats);
      if !wasAsked {
        lost := ShownWrong(blocks, db, applied);
      }
    }

    // -------------------------------------------------------------- checking

    /**
     Rebuilds the trees from the database and compares the configuration tree before and after. It is
     the same exactly when what it showed gives the nodes of what belongs in it.
     */
    method ValidateConfigTree(stats: Stats) returns (same: bool)
      requires Valid()
      modifies this`applied, this`lost, this`needsReset, this`logs, conf, oper, mon
      ensures Valid() && State() == Rebuilt(blocks, old(State()))
      ensures same <==> layout.SameConf(old(applied), Wanted(blocks, db))
      ensures StoreHash(mon.store, part) == old(StoreHash(mon.store, part)) <==>
        layout.SameMon(old(applied), Wanted(blocks, db))
    {
      var before := conf.RootFullHash(part);
      ghost var a, s, t := applied, conf.store, mon.store;
      RebuildKeepsOrder(layout, blocks, State());
      ResetRoot(stats);
      var after := conf.RootFullHash(part);
      layout.ShownIsContent(ViewOf(s), ViewOf(t), a, ViewOf(conf.store), ViewOf(mon.store), applied);
      SameHashIsContent(s, conf.store, part);
      SameHashIsContent(t, mon.store, part);
      same := before == after;
    }

    /** An agent asks for the trees to be rebuilt. */
    method SetNeedsReset()
      requires Valid()
      modifies this`needsReset
      ensures Valid() && State() == old(State()).(needsReset := true)
    {
      needsReset := true;
    }

    method RunEvent(e: DbEvent)
      requires Valid() && LoggableEvent(layout, e)
      modifies this`db, this`applied, this`lost, this`needsReset, this`logs, conf, oper, mon
      ensures Valid() && State() == AfterEvent(blocks, root, old(State()), e)
      ensures OperAfter(layout, blocks, old(State()), e, old(ViewOf(oper.store)), ViewOf(oper.store))
    {
      match e {
        case Commit(added, updated, deleted) => OnCommit(added, updated, deleted);
        case CatchUp(stats) => CatchUpWithActionLog(stats);
        case RequestReset => SetNeedsReset();
      }
    }

    method RunEvents(events: seq<DbEvent>)
      requires Valid() && LoggableRun(layout, events)
      modifies this`db, this`applied, this`lost, this`needsReset, this`logs, conf, oper, mon
      ensures Valid() && State() == AfterRun(blocks, root, old(State()), events)
    {
      ghost var s := State();
      for i := 0 to |events|
        invariant Valid() && State() == AfterRun(blocks, root, s, events[..i])
      {
        assert events[..i + 1][..i] == events[..i] && events[i] in events;
        RunEvent(events[i]);
      }
      assert events[..|events|] == events;
    }

    /** The faults that the operational tree shows are those of this ledger. */
    ghost predicate FaultsFollowed(t: FaultLedger)
      reads this, oper
    {
      && t.base == State() && FaultsInOrder(t) && GoodFaultLedger(layout, t)
      && FaultsShown(layout, ViewOf(oper.store), t.shown)
    }

    method RunEventWithFaults(e: DbEvent, ghost t: FaultLedger, ghost home: Id -> Id)
      requires Valid() && LoggableEvent(layout, e) && FaultsFollowed(t) && GoodFaultEvent(layout, home, t, e)
      modifies this`db, this`applied, this`lost, this`needsReset, this`logs, conf, oper, mon
      ensures Valid() && FaultsFollowed(AfterFaultEvent(blocks, home, root, t, e))
    {
      ghost var v := ViewOf(oper.store);
      FaultEventKeepsOrder(layout, blocks, home, t, e);
      RunEvent(e);
      EventShows(layout, blocks, home, t, e, v, ViewOf(oper.store));
    }

    /**
     The operational tree over a run: it shows the faults that the ledger says, and when the log is drained
     in the end these are all faults of the database but the omitted ones.
     */
    method RunWithFaults(events: seq<DbEvent>, ghost s: FaultLedger, ghost home: Id -> Id)
      requires Valid() && LoggableRun(layout, events) && FaultsFollowed(s)
      requires GoodFaultRun(layout, blocks, home, s, events)
      modifies this`db, this`applied, this`lost, this`needsReset, this`logs, conf, oper, mon
      ensures Valid() && var t := AfterFaultRun(blocks, home, root, s, events);
        FaultsFollowed(t) && (logs == [] ==> t.shown == t.faults - t.omitted)
    {
      for i := 0 to |events|
        invariant Valid() && FaultsFollowed(AfterFaultRun(blocks, home, root, s, events[..i]))
      {
        assert events[..i + 1][..i] == events[..i] && events[i] in events;
        RunIsGood(layout, blocks, home, s, events, i);
        RunEventWithFaults(events[i], AfterFaultRun(blocks, home, root, s, events[..i]), home);
      }
      assert events[..|events|] == events;
      if logs == [] {
        DrainedFaults(AfterFaultRun(blocks, home, root, s, events));
      }
    }

    /**
     Rebuilds the trees and compares the operational one before and after: it is the same exactly when the
     faults shown give the same nodes as those of the resources that belong in the trees.
     */
    method CompareFaultsWithRebuilt(stats: Stats, ghost s: FaultLedger, ghost home: Id -> Id) returns (same: bool)
      requires Valid() && FaultsFollowed(s) && StatsTell(s.faults, home, stats)
      modifies this`applied, this`lost, this`needsReset, this`logs, conf, oper, mon
      ensures Valid() && State() == Rebuilt(blocks, old(State()))
      ensures same <==> SameFaults(layout, s.shown, WantedFaults(blocks, db, s.faults, home))
      ensures FaultsShown(layout, ViewOf(oper.store), WantedFaults(blocks, db, s.faults, home))
    {
      var before := oper.RootFullHash(part);
      ghost var was := oper.store;
      RebuildKeepsOrder(layout, blocks, State());
      ResetRoot(stats);
      var after := oper.RootFullHash(part);
      ghost var order, todo :|
        AllListed(blocks, db, root, stats, order, todo) && ViewOf(oper.store) == Pushed(layout, db, map[], todo);
      RebuildShowsFaults(layout, blocks, db, s.faults, home, stats, order);
      FaultsAreContent(layout, ViewOf(was), s.shown, ViewOf(oper.store), WantedFaults(blocks, db, s.faults, home));
      SameHashIsContent(was, oper.store, part);
      same := before == after;
    }

    /** Any run, after which the log is drained. */
    method RunAndDrain(events: seq<DbEvent>, stats: Stats)
      requires Valid() && LoggableRun(layout, events)
      modifies this`db, this`applied, this`lost, this`needsReset, this`logs, conf, oper, mon
      ensures Valid() && logs == [] && State() == AfterRun(blocks, root, old(State()), Drained(events, stats))
    {
      ghost var s := State();
      DrainedRun(blocks, root, s, events, stats);
      RunEvents(events);
      CatchUpWithActionLog(stats);
      CatchUpWithActionLog(stats);
      TwiceDrains(blocks, AfterRun(blocks, root, s, events));
    }

    /** Rebuilds the trees, and compares both the configuration tree and the monitored one before and after. */
    method CompareWithRebuilt(stats: Stats) returns (same: bool, monSame: bool)
      requires Valid()
      modifies this`applied, this`lost, this`needsReset, this`logs, conf, oper, mon
      ensures Valid() && State() == Rebuilt(blocks, old(State()))
      ensures same <==> layout.SameConf(old(applied), Wanted(blocks, db))
      ensures monSame <==> layout.SameMon(old(applied), Wanted(blocks, db))
    {
      var before := mon.RootFullHash(part);
      same := ValidateConfigTree(stats);
      var after := mon.RootFullHash(part);
      monSame := before == after;
    }

    /**
     Incremental equals rebuilt: any run of commits, catch-ups and requests for a reset, after which the
     log is drained. Then the trees are rebuilt from the database and their root hashes compared with
     those before. Each is the same exactly when the resources shown give the same nodes in that tree as
     those of the database. Both are when nothing is lost in the end, and nothing is when every log names
     each rule uniquely.
     */
    method Run(events: seq<DbEvent>, stats: Stats) returns (same: bool, monSame: bool)
      requires Valid() && LoggableRun(layout, events)
      modifies this`db, this`applied, this`lost, this`needsReset, this`logs, conf, oper, mon
      ensures Valid() && logs == []
      ensures var drained := AfterRun(blocks, root, old(State()), Drained(events, stats));
        && State() == Rebuilt(blocks, drained)
        && (same <==> layout.SameConf(drained.applied, Wanted(blocks, db)))
        && (monSame <==> layout.SameMon(drained.applied, Wanted(blocks, db)))
        && (drained.lost == {} ==> same && monSame)
        && (old(lost) == {} && UniqueNamesInRun(blocks, root, old(State()), Drained(events, stats)) ==>
              drained.lost == {} && same && monSame)
    {
      ghost var s := State();
      RunAndDrain(events, stats);
      ActionLogDrained(s, State(), events, stats);
      same, monSame := CompareWithRebuilt(stats);
    }

    /** With the log drained and nothing lost, the trees show what a rebuild makes of the database. */
    lemma ActionLogDrained(s: Ledger, drained: Ledger, events: seq<DbEvent>, stats: Stats)
      requires Setting() && InOrder(layout, blocks, s) && InOrder(layout, blocks, drained)
      requires LoggableRun(layout, events)
      requires drained == AfterRun(blocks, root, s, Drained(events, stats)) && drained.logs == []
      ensures s.lost == {} && UniqueNamesInRun(blocks, root, s, Drained(events, stats)) ==> drained.lost == {}
      ensures drained.lost == {} ==>
        && layout.SameConf(drained.applied, Wanted(blocks, drained.db))
        && layout.SameMon(drained.applied, Wanted(blocks, drained.db))
    {
      if s.lost == {} && UniqueNamesInRun(blocks, root, s, Drained(events, stats)) {
        UniqueNamesLoseNothing(layout, blocks, s, Drained(events, stats));
      }
      LogRuns.DrainedIsWanted(layout, blocks, drained);
    }
  }

  /** A run that ends with two catch-ups, the second because a requested reset leaves the log to the next time. */
  function Drained(events: seq<DbEvent>, stats: Stats): seq<DbEvent> {
    events + [CatchUp(stats)] + [CatchUp(stats)]
  }

  lemma DrainedRun(blocks: Blocks, root: string, s: Ledger, events: seq<DbEvent>, stats: Stats)
    ensures AfterRun(blocks, root, s, Drained(events, stats)) ==
            CaughtUp(blocks, CaughtUp(blocks, AfterRun(blocks, root, s, events)))
  {
    var once := events + [CatchUp(stats)];
    assert once[..|events|] == events && Drained(events, stats)[..|once|] == once;
    assert AfterRun(blocks, root, s, once) == CaughtUp(blocks, AfterRun(blocks, root, s, events));
  }

  lemma ReplayOneMore(db: Db, a: Applied, es: seq<Entry>, e: Entry)
    ensures Replay(db, a, es + [e]) == Apply(db, Replay(db, a, es), e)
  {
    assert (es + [e])[..|es|] == es;
  }

  lemma {:induction false} FaultsSayNothing(db: Db, a: Applied, es: seq<Entry>)
    requires forall e :: e in es ==> e.obj.Fault?
    ensures Replay(db, a, es) == a
  {
    if es == [] {
    } else {
      FaultsSayNothing(db, a, es[..|es| - 1]);
    }
  }

  /** The state of a resource says again what the database holds of it. */
  lemma StatSaysAgain(db: Db, a: Applied, id: Id, root: string, stat: Stat)
    requires id in db && db[id].root == root && db[id].sync
    ensures Replay(db, a, StatEntries(id, root, stat)) == a[id := db[id]]
  {
    var first := [Entry(Create, Status(id, root, stat.state))];
    ReplayAppended(db, a, first, FaultEntries(stat.faults));
    ReplayOneMore(db, a, [], first[0]);
    assert [] + [first[0]] == first;
    FaultsSayNothing(db, Replay(db, a, first), FaultEntries(stat.faults));
  }

  lemma ListedSays(db: Db, a: Applied, id: Id, root: string, stat: Option<Stat>, before: seq<Entry>)
    requires id in db && db[id].root == root && db[id].sync && IdOf(db[id]) == id
    requires before == if stat.Some? then StatEntries(id, root, stat.value) else []
    ensures Replay(db, a, before + [Entry(Create, Plain(db[id]))]) == a[id := db[id]]
  {
    ReplayOneMore(db, a, before, Entry(Create, Plain(db[id])));
    if stat.Some? {
      StatSaysAgain(db, a, id, root, stat.value);
    }
  }

  lemma OneMoreWanted(blocks: Blocks, db: Db, left: set<Id>, id: Id)
    requires id in left && left <= db.Keys
    ensures Wanted(blocks, db) - (left - {id}) ==
      if id in Wanted(blocks, db) then (Wanted(blocks, db) - left)[id := db[id]] else Wanted(blocks, db) - left
  {
  }

  /** Stored trees of one root have the same hash exactly when they have the same contents. */
  lemma SameHashIsContent(s: Store, t: Store, part: string)
    requires s == map[] || Good(s, [part])
    requires t == map[] || Good(t, [part])
    ensures StoreHash(s, part) == StoreHash(t, part) <==> ContentOf(ViewOf(s)) == ContentOf(ViewOf(t))
  {
    HashOfStore(s, part);
    HashOfStore(t, part);
    if s != map[] && t != map[] {
      RootHashIsContent(s, [part], t, [part]);
    }
  }

  lemma HashOfStore(s: Store, part: string)
    requires s == map[] || Good(s, [part])
    ensures s == map[] <==> ContentOf(ViewOf(s)) == map[]
    ensures s == map[] <==> StoreHash(s, part) == Some(KeyHash([part]))
    ensures s != map[] ==> [part] in s
  {
    if s != map[] {
      NodesFromContent(s, [part], [part]);
      assert HashAt(s, [part]);
    }
  }

  lemma MissingShows(l: Layout, a: Applied, w: Applied, x: Resource)
    requires l.Regular() && l.Kept(x) && IdOf(x) !in a && IdOf(x) in w && w[IdOf(x)] == x && l.ConfPart(x) != map[]
    ensures !l.SameConf(a, w)
  {
    var k :| k in l.ConfPart(x);
    l.PartIsOwned(x);
    assert l.Expect(a, k) != l.Expect(w, k);
  }

  /** Two new rules of one name: the first is in the database, the trees miss it, and a rebuild tells. */
  method SharedNameLosesRule(listener: HashTreeDbListener, x: Resource, y: Resource, stats: Stats) returns (same: bool)
    requires listener.Valid() && listener.State() == Ledger(map[], [], false, map[], {})
    requires x.kind == RULE && y.kind == RULE && IdOf(x) != IdOf(y)
    requires x.ident != [] && y.ident != [] && x.ident[|x.ident| - 1] == y.ident[|y.ident| - 1]
    requires WellKept(listener.layout, x) && WellKept(listener.layout, y) && !Blocked(listener.blocks, x)
    requires listener.layout.ConfPart(x) != map[]
    modifies listener, listener.conf, listener.oper, listener.mon
    ensures listener.Valid() && IdOf(x) in listener.db && listener.logs == [] && !same
  {
    SharedNameIsLost(listener.layout, listener.blocks, listener.State(), x, y);
    listener.OnCommit([Plain(x), Plain(y)], [], []);
    listener.CatchUpWithActionLog(stats);
    MissingShows(listener.layout, listener.applied, Wanted(listener.blocks, listener.db), x);
    same := listener.ValidateConfigTree(stats);
  }
}
