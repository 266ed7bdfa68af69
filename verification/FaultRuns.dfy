/**
 The operational tree over runs. Faults are logged and replayed like everything else; nothing makes them
 void, but a rebuild only finds the faults of the resources that belong in the trees.
 */
module FaultRuns {
  import opened Keys
  import opened TreeStore
  import opened TreeTheory
  import opened TreeMaker
  import opened TreeBuilder
  import opened TreeReplay
  import opened ActionLog
  import opened LogRuns

  // ---------------------------------------------------------------- the tree

  function FaultExpect(l: Layout, f: Applied, k: Key): Option<Attrs> {
    if l.owner(k) in f && k in l.c.convert(f[l.owner(k)]) then Some(l.c.convert(f[l.owner(k)])[k]) else None
  }

  /** The operational tree is in order and holds the nodes of exactly these faults. */
  ghost predicate FaultsShown(l: Layout, v: View, f: Applied) {
    l.Tidy(v) && l.Sound(f) && HoldsFaults(l, v, f)
  }

  ghost predicate HoldsFaults(l: Layout, v: View, f: Applied) {
    forall k {:trigger At(v, k)} :: At(v, k) == FaultExpect(l, f, k)
  }

  /** These faults give the operational tree the same contents. */
  ghost predicate SameFaults(l: Layout, f: Applied, g: Applied) {
    forall k {:trigger FaultExpect(l, f, k)} {:trigger FaultExpect(l, g, k)} ::
      FaultExpect(l, f, k) == FaultExpect(l, g, k)
  }

  lemma FaultsAreContent(l: Layout, v: View, f: Applied, w: View, g: Applied)
    requires FaultsShown(l, v, f) && FaultsShown(l, w, g)
    ensures SameFaults(l, f, g) <==> ContentOf(v) == ContentOf(w)
  {
    l.SameAtSameContent(v, w);
    forall k {:trigger At(v, k)} {:trigger FaultExpect(l, f, k)}
      ensures FaultExpect(l, f, k) == FaultExpect(l, g, k) <==> At(v, k) == At(w, k)
    {
      assert At(v, k) == FaultExpect(l, f, k) && At(w, k) == FaultExpect(l, g, k);
    }
  }

  /** What building an object does to the faults that are shown: only that of a fault counts. */
  function FaultWord(o: AimObject, delete: bool): Option<Word> {
    if o.Fault? then Some(Word(IdOf(o.res), if delete then None else Some(o.res))) else None
  }

  const FAULT := "AciFault"

  /** A fault of this root, or anything else that is not mistaken for one. */
  ghost predicate FaultOrNot(l: Layout, o: AimObject, parents: Parents) {
    match o
    case Fault(r) => l.Kept(r) && r.kind == FAULT
    case Plain(r) => l.Kept(r) && r.kind != FAULT
    case Status(id, resourceRoot, _) =>
      && resourceRoot == l.root
      && (HasParent(o, parents) ==> IdOf(parents(id).value) == id && id.kind != FAULT)
  }

  ghost predicate OnlyFaults(f: Applied) {
    forall id :: id in f ==> id.kind == FAULT
  }

  lemma FaultBatch(r: Resource, delete: bool, root: string, parents: Parents)
    requires r.root == root
    ensures BatchOf(Fault(r), delete, root, parents) ==
      if delete then NO_UPDATES.(operDel := [r]) else NO_UPDATES.(operAdd := [r])
  {
    var o := Fault(r);
    PutOne(NO_UPDATES, o, root, delete, parents);
    if delete {
      assert [] + [] + Moved([], parents) + Moved([], parents) == [];
    } else {
      assert [o] + [] + Moved([o], parents) + Moved([], parents) == [o];
    }
  }

  lemma UpdateShown(l: Layout, v: View, f: Applied, r: Resource)
    requires l.Regular() && FaultsShown(l, v, f) && l.Kept(r)
    ensures FaultsShown(l, UpdateView(l.c, v, [r]), f[IdOf(r) := r])
  {
    l.Updated(v, r);
    var w := UpdateView(l.c, v, [r]);
    var g := f[IdOf(r) := r];
    forall k {:trigger At(w, k)} ensures At(w, k) == FaultExpect(l, g, k) {
      CreatedAt(l, v, f, r, k);
    }
  }

  lemma CreationShown(l: Layout, v: View, f: Applied, r: Resource, parents: Parents)
    requires l.Regular() && FaultsShown(l, v, f) && l.Kept(r)
    ensures FaultsShown(l, OperView(l.c, v, BatchOf(Fault(r), false, l.root, parents)), f[IdOf(r) := r])
  {
    FaultBatch(r, false, l.root, parents);
    UpdateShown(l, v, f, r);
    DeleteNone(l.c, UpdateView(l.c, v, [r]));
  }

  lemma CreatedAt(l: Layout, v: View, f: Applied, r: Resource, k: Key)
    requires l.Regular() && FaultsShown(l, v, f) && l.Kept(r)
    ensures l.AfterUpdate(v, r, k) == FaultExpect(l, f[IdOf(r) := r], k)
  {
    assert l.RegularFor(r) && At(v, k) == FaultExpect(l, f, k);
    if l.owner(k) == IdOf(r) {
      if IdOf(r) in f {
        assert l.RegularFor(f[IdOf(r)]);
      }
    }
  }

  lemma DeletionShown(l: Layout, v: View, f: Applied, r: Resource)
    requires l.Regular() && FaultsShown(l, v, f) && r.root == l.root
    ensures FaultsShown(l, DeleteAll(l.c, v, [r]), f - {IdOf(r)})
  {
    l.Deleted(v, r);
    var w := DeleteAll(l.c, v, [r]);
    forall k {:trigger At(w, k)} ensures At(w, k) == FaultExpect(l, f - {IdOf(r)}, k) {
      assert At(v, k) == FaultExpect(l, f, k);
    }
  }

  /** A resource that goes takes no fault with it. */
  lemma NoFaultGone(l: Layout, v: View, f: Applied, r: Resource)
    requires l.Regular() && FaultsShown(l, v, f) && OnlyFaults(f) && r.root == l.root && r.kind != FAULT
    ensures FaultsShown(l, DeleteAll(l.c, v, [r]), f)
  {
    DeletionShown(l, v, f, r);
    assert f - {IdOf(r)} == f;
  }

  lemma NothingUpdated(c: Converter, v: View)
    ensures UpdateView(c, v, []) == v
  {
    AddNone(v);
  }

  lemma PlainShown(l: Layout, v: View, f: Applied, r: Resource, delete: bool, parents: Parents)
    requires l.Regular() && FaultsShown(l, v, f) && OnlyFaults(f) && l.Kept(r) && r.kind != FAULT
    ensures FaultsShown(l, OperView(l.c, v, BatchOf(Plain(r), delete, l.root, parents)), f)
  {
    BatchIs(Plain(r), delete, l.root, parents);
    CreationFields(r);
    NothingUpdated(l.c, v);
    DeleteNone(l.c, v);
    if delete {
      NoFaultGone(l, v, f, Faked(r));
      var w := DeleteAll(l.c, v, [Faked(r)]);
      DeleteNone(l.c, w);
      if r.mode == Monitored {
        NoFaultGone(l, w, f, r);
      }
    }
  }

  lemma StatusBatch(o: AimObject, delete: bool, root: string, parents: Parents)
    requires o.Status? && o.resourceRoot == root
    ensures var u := BatchOf(o, delete, root, parents);
      u.operAdd == u.confDel == u.monDel == [] &&
      u.operDel == if delete && StandsFor(o, parents) then [parents(o.parent).value] else []
  {
    PutOne(NO_UPDATES, o, root, delete, parents);
    if delete {
      assert [] + [] + Moved([], parents) + Moved([], parents) == [];
    } else {
      var moved := Moved([o], parents);
      assert [o] + [] + moved + Moved([], parents) == [o] + moved;
      PutAllConcat(NO_UPDATES, [o], moved, root, false, parents);
      if moved != [] {
        PutOne(PutAll(NO_UPDATES, [o], root, false, parents), moved[0], root, false, parents);
        CreationFields(moved[0].res);
      }
    }
  }

  lemma StatusShown(l: Layout, v: View, f: Applied, o: AimObject, delete: bool, parents: Parents)
    requires l.Regular() && FaultsShown(l, v, f) && OnlyFaults(f) && o.Status? && FaultOrNot(l, o, parents)
    ensures FaultsShown(l, OperView(l.c, v, BatchOf(o, delete, l.root, parents)), f)
  {
    StatusBatch(o, delete, l.root, parents);
    NothingUpdated(l.c, v);
    DeleteNone(l.c, v);
    if delete && StandsFor(o, parents) {
      var r := parents(o.parent).value;
      NoFaultGone(l, v, f, r);
      DeleteNone(l.c, DeleteAll(l.c, v, [r]));
    }
  }

  /** Building one object makes the operational tree show what it says of a fault. */
  lemma FaultReflects(l: Layout, v: View, f: Applied, o: AimObject, delete: bool, parents: Parents)
    requires l.Regular() && FaultsShown(l, v, f) && OnlyFaults(f) && FaultOrNot(l, o, parents)
    ensures FaultsShown(l, OperView(l.c, v, BatchOf(o, delete, l.root, parents)), Heard(f, FaultWord(o, delete)))
    ensures OnlyFaults(Heard(f, FaultWord(o, delete)))
  {
    match o {
      case Fault(r) =>
        if delete {
          FaultBatch(r, true, l.root, parents);
          NothingUpdated(l.c, v);
          DeletionShown(l, v, f, r);
          DeleteNone(l.c, DeleteAll(l.c, v, [r]));
        } else {
          CreationShown(l, v, f, r, parents);
        }
      case Plain(r) => PlainShown(l, v, f, r, delete, parents);
      case Status(_, _, _) => StatusShown(l, v, f, o, delete, parents);
    }
  }

  // ---------------------------------------------------------------- replaying

  ghost function PushedOne(l: Layout, db: Db, v: View, e: Entry): View {
    if e.action == Skip then v else OperView(l.c, v, BatchOf(e.obj, e.action != Create, l.root, LookUp(db)))
  }

  /** The operational tree when these entries have been built into it. */
  ghost function Pushed(l: Layout, db: Db, v: View, es: seq<Entry>): View {
    if es == [] then v else
      PushedOne(l, db, Pushed(l, db, v, es[..|es| - 1]), es[|es| - 1])
  }

  function FaultSays(e: Entry): Option<Word> {
    if e.action == Skip then None else FaultWord(e.obj, e.action != Create)
  }

  function FaultReplay(f: Applied, es: seq<Entry>): Applied {
    if es == [] then f else Heard(FaultReplay(f, es[..|es| - 1]), FaultSays(es[|es| - 1]))
  }

  /** The last word about a fault. */
  function LastFault(es: seq<Entry>, id: Id): Option<Word> {
    if es == [] then None else
      var said := FaultSays(es[|es| - 1]);
      if said.Some? && said.value.id == id then said else LastFault(es[..|es| - 1], id)
  }

  lemma {:induction false} FaultIsLast(f: Applied, es: seq<Entry>, id: Id)
    ensures ResourceAt(FaultReplay(f, es), id) == After(f, id, LastFault(es, id))
  {
    if es == [] {
    } else {
      FaultIsLast(f, es[..|es| - 1], id);
    }
  }

  lemma FaultMore(f: Applied, es: seq<Entry>, e: Entry, id: Id)
    ensures FaultReplay(f, es + [e]) == Heard(FaultReplay(f, es), FaultSays(e))
    ensures LastFault(es + [e], id) ==
      if FaultSays(e).Some? && FaultSays(e).value.id == id then FaultSays(e) else LastFault(es, id)
  {
    assert (es + [e])[..|es|] == es;
  }

  lemma {:induction false} FaultsAppended(f: Applied, es: seq<Entry>, more: seq<Entry>)
    ensures FaultReplay(f, es + more) == FaultReplay(FaultReplay(f, es), more)
  {
    if more == [] {
      assert es + more == es;
    } else {
      assert (es + more)[..|es + more| - 1] == es + more[..|more| - 1];
      FaultsAppended(f, es, more[..|more| - 1]);
    }
  }

  ghost predicate AllFaultOrNot(l: Layout, db: Db, es: seq<Entry>) {
    forall e :: e in es ==> FaultOrNot(l, e.obj, LookUp(db))
  }

  /** Building entries into the operational tree makes it show what they say of faults. */
  lemma {:induction false} PushedShows(l: Layout, db: Db, v: View, f: Applied, es: seq<Entry>)
    requires l.Regular() && FaultsShown(l, v, f) && OnlyFaults(f) && AllFaultOrNot(l, db, es)
    ensures FaultsShown(l, Pushed(l, db, v, es), FaultReplay(f, es)) && OnlyFaults(FaultReplay(f, es))
  {
    if es == [] {
    } else {
      var before, e := es[..|es| - 1], es[|es| - 1];
      assert es == before + [e] && e in es;
      PushedShows(l, db, v, f, before);
      if e.action != Skip {
        FaultReflects(l, Pushed(l, db, v, before), FaultReplay(f, before), e.obj, e.action != Create, LookUp(db));
      }
    }
  }

  // ---------------------------------------------------------------- replaying a processed log

  lemma ResolvedFault(blocks: Blocks, db: Db, e: Entry)
    ensures FaultSays(Resolved(blocks, db, e)) == FaultSays(e) && (OfRule(e) ==> FaultSays(e) == None)
  {}

  lemma {:induction false} PlainFaults(blocks: Blocks, db: Db, logs: seq<Entry>, id: Id)
    ensures LastFault(SortedOut(blocks, db, logs).plain, id) == LastFault(logs, id)
  {
    if logs == [] {
    } else {
      var before, e := logs[..|logs| - 1], logs[|logs| - 1];
      var plain, x := SortedOut(blocks, db, before).plain, Resolved(blocks, db, e);
      PlainFaults(blocks, db, before, id);
      ResolvedFault(blocks, db, e);
      if !(OfRule(e) && x.action != Skip) {
        FaultMore(map[], plain, x, id);
      }
    }
  }

  ghost predicate NoFaults(es: seq<Entry>) {
    forall e :: e in es ==> e.obj.Plain?
  }

  ghost predicate NoFaultQueues(q: Queues) {
    forall n :: n in q ==> NoFaults(q[n])
  }

  lemma {:induction false} NoFaultSaid(es: seq<Entry>, id: Id)
    requires NoFaults(es)
    ensures LastFault(es, id) == None
  {
    if es == [] {
    } else {
      NoFaultSaid(es[..|es| - 1], id);
    }
  }

  lemma {:induction false} QueuesHaveNoFaults(blocks: Blocks, db: Db, logs: seq<Entry>)
    ensures NoFaultQueues(SortedOut(blocks, db, logs).queues)
  {
    if logs == [] {
    } else {
      var s, e := SortedOut(blocks, db, logs[..|logs| - 1]), logs[|logs| - 1];
      QueuesHaveNoFaults(blocks, db, logs[..|logs| - 1]);
      var x := Resolved(blocks, db, e);
      assert SortedOut(blocks, db, logs) == SortOne(blocks, db, s, e);
      if OfRule(e) && x.action != Skip {
        EnqueuedNoFaults(s.queues, x);
      }
    }
  }

  lemma EnqueuedNoFaults(q: Queues, e: Entry)
    requires e.obj.Plain? && NoFaultQueues(q)
    ensures NoFaultQueues(Enqueue(q, e))
  {
    var n := NameOf(IdOf(e.obj.res));
    var list := Enqueue(q, e)[n];
    forall x | x in list ensures x.obj.Plain? {
      var i :| 0 <= i < |list| && list[i] == x;
      if i < |list| - 1 {
        assert q[n][i] in q[n];
      }
    }
  }

  lemma {:induction false} LastFaultAppended(es: seq<Entry>, more: seq<Entry>, id: Id)
    ensures LastFault(es + more, id) ==
      if LastFault(more, id).Some? then LastFault(more, id) else LastFault(es, id)
  {
    if more == [] {
      assert es + more == es;
    } else {
      assert (es + more)[..|es + more| - 1] == es + more[..|more| - 1];
      LastFaultAppended(es, more[..|more| - 1], id);
    }
  }

  lemma {:induction false} EmptiedFaults(s: Sorting, order: seq<string>, id: Id)
    requires (forall n :: n in order ==> n in s.queues) && NoFaultQueues(s.queues)
    ensures LastFault(Emptied(s, order), id) == LastFault(s.plain, id)
  {
    if order == [] {
    } else {
      var n := order[|order| - 1];
      EmptiedFaults(s, order[..|order| - 1], id);
      NoFaultSaid(s.queues[n], id);
      LastFaultAppended(Emptied(s, order[..|order| - 1]), s.queues[n], id);
    }
  }

  /** The processed log says of faults what the log itself does: no fault is made void or put in another order. */
  lemma ProcessedFaults(blocks: Blocks, db: Db, logs: seq<Entry>, order: seq<string>, f: Applied)
    requires forall n :: n in order ==> n in SortedOut(blocks, db, logs).queues
    ensures FaultReplay(f, Emptied(SortedOut(blocks, db, logs), order)) == FaultReplay(f, logs)
  {
    var s := SortedOut(blocks, db, logs);
    QueuesHaveNoFaults(blocks, db, logs);
    forall id ensures ResourceAt(FaultReplay(f, Emptied(s, order)), id) == ResourceAt(FaultReplay(f, logs), id) {
      FaultIsLast(f, Emptied(s, order), id);
      FaultIsLast(f, logs, id);
      EmptiedFaults(s, order, id);
      PlainFaults(blocks, db, logs, id);
    }
    SameEverywhere(FaultReplay(f, Emptied(s, order)), FaultReplay(f, logs));
  }

  // ---------------------------------------------------------------- rebuilding

  /** What is listed of one resource when the trees are made anew. */
  function ListedOf(blocks: Blocks, db: Db, root: string, stats: Stats, id: Id): seq<Entry> {
    if id !in Wanted(blocks, db) then [] else
    (if stats(id).Some? then StatEntries(id, root, stats(id).value) else []) + [Entry(Create, Plain(db[id]))]
  }

  function ListedInOrder(blocks: Blocks, db: Db, root: string, stats: Stats, order: seq<Id>): seq<Entry> {
    if order == [] then [] else
    ListedInOrder(blocks, db, root, stats, order[..|order| - 1]) +
      ListedOf(blocks, db, root, stats, order[|order| - 1])
  }

  /** These are the entries of all resources, in some order. */
  ghost predicate AllListed(blocks: Blocks, db: Db, root: string, stats: Stats, order: seq<Id>, todo: seq<Entry>) {
    todo == ListedInOrder(blocks, db, root, stats, order) && forall id :: id in db ==> id in order
  }

  /** The states that a rebuild reads tell the faults of each resource, as the database holds them. */
  ghost predicate StatsTell(faults: Applied, home: Id -> Id, stats: Stats) {
    && (forall f :: f in faults ==> IdOf(faults[f]) == f)
    && forall id, f {:trigger HasFault(stats, id, f)} :: HasFault(stats, id, f) <==>
         IdOf(f) in faults && faults[IdOf(f)] == f && home(IdOf(f)) == id
  }

  ghost predicate HasFault(stats: Stats, id: Id, f: Resource) {
    stats(id).Some? && f in stats(id).value.faults
  }

  /** The faults of resources that belong in the trees. */
  function WantedFaults(blocks: Blocks, db: Db, faults: Applied, home: Id -> Id): Applied {
    map f | f in faults && home(f) in Wanted(blocks, db) :: faults[f]
  }

  lemma {:induction false} FaultEntriesSay(fs: seq<Resource>, id: Id)
    ensures var said := LastFault(FaultEntries(fs), id);
      if said.None? then forall f :: f in fs ==> IdOf(f) != id
      else said.value.id == id && said.value.res.Some? && said.value.res.value in fs && IdOf(said.value.res.value) == id
  {
    if fs == [] {
    } else {
      var before, f := fs[..|fs| - 1], fs[|fs| - 1];
      assert fs == before + [f];
      assert FaultEntries(fs) == FaultEntries(before) + [Entry(Create, Fault(f))];
      FaultMore(map[], FaultEntries(before), Entry(Create, Fault(f)), id);
      FaultEntriesSay(before, id);
    }
  }

  /** The entries listed of one resource say what the database holds of its faults, and of no others. */
  lemma ListedOfSaysFaults(blocks: Blocks, db: Db, faults: Applied, home: Id -> Id, root: string, stats: Stats, r: Id,
                           id: Id)
    requires StatsTell(faults, home, stats)
    ensures LastFault(ListedOf(blocks, db, root, stats, r), id) ==
      if r in Wanted(blocks, db) && id in faults && home(id) == r then Some(Word(id, Some(faults[id]))) else None
  {
    assert id in faults ==> HasFault(stats, home(id), faults[id]);
    if r in Wanted(blocks, db) {
      var last := [Entry(Create, Plain(db[r]))];
      NoFaultSaid(last, id);
      if stats(r).Some? {
        var stat := stats(r).value;
        var first := [Entry(Create, Status(r, root, stat.state))];
        FaultMore(map[], [], first[0], id);
        assert [] + first == first;
        LastFaultAppended(first, FaultEntries(stat.faults), id);
        LastFaultAppended(StatEntries(r, root, stat), last, id);
        FaultEntriesSay(stat.faults, id);
        var said := LastFault(FaultEntries(stat.faults), id);
        if said.Some? {
          assert HasFault(stats, r, said.value.res.value);
        }
      } else {
        assert [] + last == last;
      }
    }
  }

  lemma {:induction false} ListedFaultsSay(blocks: Blocks, db: Db, faults: Applied, home: Id -> Id, root: string,
                                      stats: Stats, order: seq<Id>, id: Id)
    requires StatsTell(faults, home, stats)
    ensures LastFault(ListedInOrder(blocks, db, root, stats, order), id) ==
      if id in faults && home(id) in order && home(id) in Wanted(blocks, db) then Some(Word(id, Some(faults[id])))
      else None
  {
    if order == [] {
    } else {
      var before, r := order[..|order| - 1], order[|order| - 1];
      assert order == before + [r];
      ListedFaultsSay(blocks, db, faults, home, root, stats, before, id);
      ListedOfSaysFaults(blocks, db, faults, home, root, stats, r, id);
      LastFaultAppended(ListedInOrder(blocks, db, root, stats, before), ListedOf(blocks, db, root, stats, r), id);
    }
  }

  /** Made anew, the operational tree shows exactly the faults of the resources that belong in the trees. */
  lemma RebuildFinds(blocks: Blocks, db: Db, faults: Applied, home: Id -> Id, root: string, stats: Stats,
                     order: seq<Id>)
    requires StatsTell(faults, home, stats) && forall id :: id in db ==> id in order
    ensures FaultReplay(map[], ListedInOrder(blocks, db, root, stats, order)) == WantedFaults(blocks, db, faults, home)
  {
    var f := FaultReplay(map[], ListedInOrder(blocks, db, root, stats, order));
    var w := WantedFaults(blocks, db, faults, home);
    forall id ensures ResourceAt(f, id) == ResourceAt(w, id) {
      FaultIsLast(map[], ListedInOrder(blocks, db, root, stats, order), id);
      ListedFaultsSay(blocks, db, faults, home, root, stats, order, id);
    }
    SameEverywhere(f, w);
  }

  // ---------------------------------------------------------------- runs

  /**
   The ledger of a root with the table of faults, those that the operational tree shows, and those that the
   last rebuild has left out and no entry has brought up since.
   */
  datatype FaultLedger = FaultLedger(base: Ledger, faults: Applied, shown: Applied, omitted: set<Id>)

  function FaultChanged(faults: Applied, o: AimObject, delete: bool): Applied {
    Heard(faults, FaultWord(o, delete))
  }

  function AfterFaultChange(root: string, s: FaultLedger, o: AimObject, delete: bool): FaultLedger {
    if o.Root() != root then s
    else s.(base := AfterChange(root, s.base, o, delete), faults := FaultChanged(s.faults, o, delete))
  }

  function AfterFaultChanges(root: string, s: FaultLedger, os: seq<AimObject>, delete: bool): FaultLedger {
    if os == [] then s
    else AfterFaultChange(root, AfterFaultChanges(root, s, os[..|os| - 1], delete), os[|os| - 1], delete)
  }

  function Mentioned(logs: seq<Entry>): set<Id> {
    set e | e in logs && e.obj.Fault? :: IdOf(e.obj.res)
  }

  predicate Rebuilds(s: Ledger) {
    s.logs != [] && (HasReset(s.logs) || s.needsReset)
  }

  ghost function FaultsCaughtUp(blocks: Blocks, home: Id -> Id, s: FaultLedger): FaultLedger {
    var base := CaughtUp(blocks, s.base);
    if s.base.logs == [] then s
    else if Rebuilds(s.base) then
      var found := WantedFaults(blocks, s.base.db, s.faults, home);
      FaultLedger(base, s.faults, found, s.faults.Keys - found.Keys)
    else FaultLedger(base, s.faults, FaultReplay(s.shown, s.base.logs), s.omitted - Mentioned(s.base.logs))
  }

  ghost function AfterFaultEvent(blocks: Blocks, home: Id -> Id, root: string, s: FaultLedger, e: DbEvent):
    FaultLedger
  {
    match e
    case Commit(added, updated, deleted) =>
      AfterFaultChanges(root, AfterFaultChanges(root, s, added + updated, false), deleted, true)
    case CatchUp(_) => FaultsCaughtUp(blocks, home, s)
    case RequestReset => s.(base := s.base.(needsReset := true))
  }

  ghost function AfterFaultRun(blocks: Blocks, home: Id -> Id, root: string, s: FaultLedger, events: seq<DbEvent>):
    FaultLedger
  {
    if events == [] then s
    else AfterFaultEvent(blocks, home, root, AfterFaultRun(blocks, home, root, s, events[..|events| - 1]),
                         events[|events| - 1])
  }

  /** The last entry of a fault tells whether there is one; without an entry it is shown, unless it was left out. */
  ghost predicate FaultTold(s: FaultLedger, id: Id) {
    var last := LastFault(s.base.logs, id);
    if last.Some? then last.value.res == ResourceAt(s.faults, id)
    else ResourceAt(s.shown, id) == if id in s.omitted then None else ResourceAt(s.faults, id)
  }

  ghost predicate FaultsInOrder(s: FaultLedger) {
    HasReset(s.base.logs) || forall id {:trigger LastFault(s.base.logs, id)} :: FaultTold(s, id)
  }

  lemma FaultChangeKeepsOrder(root: string, s: FaultLedger, o: AimObject, delete: bool)
    requires FaultsInOrder(s)
    ensures FaultsInOrder(AfterFaultChange(root, s, o, delete))
  {
    var t := AfterFaultChange(root, s, o, delete);
    if o.Root() == root && !HasReset(s.base.logs) {
      var e := t.base.logs[|s.base.logs|];
      ResetMore(s.base.logs, e);
      if !HasReset(t.base.logs) {
        forall id ensures FaultTold(t, id) {
          assert FaultTold(s, id);
          FaultMore(s.shown, s.base.logs, e, id);
        }
      }
    }
  }

  lemma {:induction false} FaultChangesKeepOrder(root: string, s: FaultLedger, os: seq<AimObject>, delete: bool)
    requires FaultsInOrder(s)
    ensures FaultsInOrder(AfterFaultChanges(root, s, os, delete))
  {
    if os == [] {
    } else {
      FaultChangesKeepOrder(root, s, os[..|os| - 1], delete);
      FaultChangeKeepsOrder(root, AfterFaultChanges(root, s, os[..|os| - 1], delete), os[|os| - 1], delete);
    }
  }

  lemma {:induction false} LastIsMentioned(logs: seq<Entry>, id: Id)
    requires NoSkips(logs)
    ensures LastFault(logs, id).Some? <==> id in Mentioned(logs)
  {
    if logs == [] {
    } else {
      var before, e := logs[..|logs| - 1], logs[|logs| - 1];
      assert logs == before + [e];
      NoSkipsBefore(logs);
      LastIsMentioned(before, id);
    }
  }

  lemma FaultCatchUpKeepsOrder(blocks: Blocks, home: Id -> Id, s: FaultLedger)
    requires FaultsInOrder(s) && NoSkips(s.base.logs)
    ensures FaultsInOrder(FaultsCaughtUp(blocks, home, s))
  {
    var t := FaultsCaughtUp(blocks, home, s);
    if s.base.logs != [] {
      forall id ensures FaultTold(t, id) {
        if !HasReset(s.base.logs) {
          assert FaultTold(s, id);
          FaultIsLast(s.shown, s.base.logs, id);
          LastIsMentioned(s.base.logs, id);
        }
      }
    }
  }

  lemma {:induction false} SameLedgers(root: string, s: FaultLedger, os: seq<AimObject>, delete: bool)
    ensures AfterFaultChanges(root, s, os, delete).base == AfterChanges(root, s.base, os, delete)
  {
    if os == [] {
    } else {
      SameLedgers(root, s, os[..|os| - 1], delete);
    }
  }

  lemma FaultEventKeepsOrder(l: Layout, blocks: Blocks, home: Id -> Id, s: FaultLedger, e: DbEvent)
    requires FaultsInOrder(s) && InOrder(l, blocks, s.base) && LoggableEvent(l, e)
    ensures FaultsInOrder(AfterFaultEvent(blocks, home, l.root, s, e))
    ensures AfterFaultEvent(blocks, home, l.root, s, e).base == AfterEvent(blocks, l.root, s.base, e)
  {
    match e {
      case Commit(added, updated, deleted) =>
        var t := AfterFaultChanges(l.root, s, added + updated, false);
        SameLedgers(l.root, s, added + updated, false);
        SameLedgers(l.root, t, deleted, true);
        FaultChangesKeepOrder(l.root, s, added + updated, false);
        FaultChangesKeepOrder(l.root, t, deleted, true);
      case CatchUp(_) => FaultCatchUpKeepsOrder(blocks, home, s);
      case RequestReset =>
        var t := AfterFaultEvent(blocks, home, l.root, s, e);
        if !HasReset(s.base.logs) {
          forall id ensures FaultTold(t, id) {
            assert FaultTold(s, id);
          }
        }
    }
  }

  /** Over any run the log tells of every fault that is not shown as the database holds it. */
  lemma {:induction false} FaultRunKeepsOrder(l: Layout, blocks: Blocks, home: Id -> Id, s: FaultLedger,
                                              events: seq<DbEvent>)
    requires FaultsInOrder(s) && InOrder(l, blocks, s.base) && LoggableRun(l, events)
    ensures FaultsInOrder(AfterFaultRun(blocks, home, l.root, s, events))
    ensures AfterFaultRun(blocks, home, l.root, s, events).base == AfterRun(blocks, l.root, s.base, events)
  {
    if events == [] {
    } else {
      var before, e := events[..|events| - 1], events[|events| - 1];
      assert e in events && forall x :: x in before ==> x in events;
      FaultRunKeepsOrder(l, blocks, home, s, before);
      RunKeepsOrder(l, blocks, s.base, before);
      FaultEventKeepsOrder(l, blocks, home, AfterFaultRun(blocks, home, l.root, s, before), e);
    }
  }

  /** With the log drained, the faults of the database are shown but for the omitted ones, and no others. */
  lemma DrainedFaults(s: FaultLedger)
    requires FaultsInOrder(s) && s.base.logs == []
    ensures s.shown == s.faults - s.omitted
  {
    forall id ensures ResourceAt(s.shown, id) == ResourceAt(s.faults - s.omitted, id) {
      assert FaultTold(s, id);
    }
    SameEverywhere(s.shown, s.faults - s.omitted);
  }

  /** No catch-up of the run makes the trees anew. */
  ghost predicate NoRebuild(blocks: Blocks, root: string, s: Ledger, events: seq<DbEvent>) {
    events == [] ||
      (NoRebuild(blocks, root, s, events[..|events| - 1]) &&
        (events[|events| - 1].CatchUp? ==> !Rebuilds(AfterRun(blocks, root, s, events[..|events| - 1]))))
  }

  lemma {:induction false} ChangesOmitNothing(root: string, s: FaultLedger, os: seq<AimObject>, delete: bool)
    ensures AfterFaultChanges(root, s, os, delete).omitted == s.omitted
  {
    if os == [] {
    } else {
      ChangesOmitNothing(root, s, os[..|os| - 1], delete);
    }
  }

  lemma {:induction false} NoRebuildOmitsNothing(l: Layout, blocks: Blocks, home: Id -> Id, s: FaultLedger,
                                                 events: seq<DbEvent>)
    requires FaultsInOrder(s) && InOrder(l, blocks, s.base) && LoggableRun(l, events)
    requires NoRebuild(blocks, l.root, s.base, events)
    ensures AfterFaultRun(blocks, home, l.root, s, events).omitted <= s.omitted
  {
    if events == [] {
    } else {
      var before, e := events[..|events| - 1], events[|events| - 1];
      assert e in events && forall x :: x in before ==> x in events;
      NoRebuildOmitsNothing(l, blocks, home, s, before);
      FaultRunKeepsOrder(l, blocks, home, s, before);
      var t := AfterFaultRun(blocks, home, l.root, s, before);
      if e.Commit? {
        ChangesOmitNothing(l.root, t, e.added + e.updated, false);
        ChangesOmitNothing(l.root, AfterFaultChanges(l.root, t, e.added + e.updated, false), e.deleted, true);
      }
    }
  }

  /** A run that replays all its logs ends with every fault of the database shown, and nothing else. */
  lemma ReplayedFaultsAreAll(l: Layout, blocks: Blocks, home: Id -> Id, s: FaultLedger, events: seq<DbEvent>)
    requires FaultsInOrder(s) && InOrder(l, blocks, s.base) && LoggableRun(l, events) && s.omitted == {}
    requires NoRebuild(blocks, l.root, s.base, events)
    requires AfterRun(blocks, l.root, s.base, events).logs == []
    ensures var t := AfterFaultRun(blocks, home, l.root, s, events); t.shown == t.faults
  {
    FaultRunKeepsOrder(l, blocks, home, s, events);
    NoRebuildOmitsNothing(l, blocks, home, s, events);
    var t := AfterFaultRun(blocks, home, l.root, s, events);
    DrainedFaults(t);
    assert t.faults - {} == t.faults;
  }

  /**
   With the log drained, a rebuild changes no fault exactly when the omitted faults are those of resources
   that do not belong in the trees: the replay shows these, and a rebuild does not.
   */
  lemma RebuildKeepsFaults(blocks: Blocks, home: Id -> Id, s: FaultLedger)
    requires FaultsInOrder(s) && s.base.logs == []
    ensures s.shown == WantedFaults(blocks, s.base.db, s.faults, home) <==>
      forall f :: f in s.faults ==> (f in s.omitted <==> home(f) !in Wanted(blocks, s.base.db))
  {
    var found := WantedFaults(blocks, s.base.db, s.faults, home);
    DrainedFaults(s);
    forall f | f in s.faults ensures f in s.shown <==> f !in s.omitted {
    }
    if s.shown != found {
      SameEverywhere(s.shown, found);
      var f :| ResourceAt(s.shown, f) != ResourceAt(found, f);
      assert f in s.faults;
    }
  }

  const NO_FAULTS := FaultLedger(Ledger(map[], [], false, map[], {}), map[], map[], {})

  /** A resource that is not to be synchronised and its fault come in one commit, and are caught up with. */
  function WithFault(x: Resource, f: Resource, stats: Stats): seq<DbEvent> {
    [Commit([Plain(x), Fault(f)], [], []), CatchUp(stats)]
  }

  lemma CommitBoth(root: string, x: Resource, f: Resource)
    requires x.root == f.root == root && !x.sync
    ensures AfterFaultChanges(root, NO_FAULTS, [Plain(x), Fault(f)], false) ==
      FaultLedger(Ledger(map[IdOf(x) := x], [Entry(Delete, Plain(x)), Entry(Create, Fault(f))], false, map[], {}),
                  map[IdOf(f) := f], map[], {})
  {
    var both := [Plain(x), Fault(f)];
    assert both[..1] == [Plain(x)] && [Plain(x)][..0] == [];
    assert AfterFaultChanges(root, NO_FAULTS, [], false) == NO_FAULTS;
    var one := AfterFaultChanges(root, NO_FAULTS, both[..1], false);
    assert one == FaultLedger(Ledger(map[IdOf(x) := x], [Entry(Delete, Plain(x))], false, map[], {}), map[], map[], {});
    assert !HasReset(one.base.logs);
  }

  /** The fault is shown, though a rebuild would not find it. */
  lemma FaultOfUnwanted(blocks: Blocks, home: Id -> Id, root: string, x: Resource, f: Resource, stats: Stats)
    requires x.root == f.root == root && !x.sync && home(IdOf(f)) == IdOf(x)
    ensures var t := AfterFaultRun(blocks, home, root, NO_FAULTS, WithFault(x, f, stats));
      && t.base.logs == [] && t.faults == t.shown == map[IdOf(f) := f] && t.base.db == map[IdOf(x) := x]
      && WantedFaults(blocks, t.base.db, t.faults, home) == map[]
  {
    var events, both := WithFault(x, f, stats), [Plain(x), Fault(f)];
    assert events[..1] == [Commit(both, [], [])] && events[..1][..0] == [];
    assert both + [] == both;
    CommitBoth(root, x, f);
    var s := AfterFaultRun(blocks, home, root, NO_FAULTS, events[..1]);
    assert AfterFaultRun(blocks, home, root, NO_FAULTS, events[..1][..0]) == NO_FAULTS;
    assert s == AfterFaultChanges(root, NO_FAULTS, both, false);
    var logs := [Entry(Delete, Plain(x)), Entry(Create, Fault(f))];
    assert s.base.logs == logs && !HasReset(logs);
    assert logs[..1] == [Entry(Delete, Plain(x))] && logs[..1][..0] == [];
    assert FaultReplay(map[], logs[..1]) == map[];
  }

  // ---------------------------------------------------------------- the tree after a catch-up

  ghost predicate SortingFaultOrNot(l: Layout, db: Db, s: Sorting) {
    AllFaultOrNot(l, db, s.plain) && forall n :: n in s.queues ==> AllFaultOrNot(l, db, s.queues[n])
  }

  /** The database holds resources of this root, none of which is mistaken for a fault. */
  ghost predicate NoFaultInDb(l: Layout, db: Db) {
    GoodDb(l, db) && forall id :: id in db ==> id.kind != FAULT
  }

  lemma EnqueuedFaultOrNot(l: Layout, db: Db, q: Queues, e: Entry)
    requires e.obj.Plain? && FaultOrNot(l, e.obj, LookUp(db)) && forall n :: n in q ==> AllFaultOrNot(l, db, q[n])
    ensures forall n :: n in Enqueue(q, e) ==> AllFaultOrNot(l, db, Enqueue(q, e)[n])
  {
    var n := NameOf(IdOf(e.obj.res));
    var list := Enqueue(q, e)[n];
    forall x | x in list ensures FaultOrNot(l, x.obj, LookUp(db)) {
      var i :| 0 <= i < |list| && list[i] == x;
      if i < |list| - 1 {
        assert q[n][i] in q[n] && x.obj == q[n][i].obj;
      }
    }
  }

  lemma {:induction false} SortedFaultOrNot(l: Layout, blocks: Blocks, db: Db, logs: seq<Entry>)
    requires NoFaultInDb(l, db) && AllFaultOrNot(l, db, logs)
    ensures SortingFaultOrNot(l, db, SortedOut(blocks, db, logs))
  {
    if logs == [] {
    } else {
      var before, e := logs[..|logs| - 1], logs[|logs| - 1];
      assert logs == before + [e] && e in logs;
      SortedFaultOrNot(l, blocks, db, before);
      var s, x := SortedOut(blocks, db, before), Resolved(blocks, db, e);
      assert FaultOrNot(l, x.obj, LookUp(db));
      if OfRule(e) && x.action != Skip {
        EnqueuedFaultOrNot(l, db, s.queues, x);
      }
    }
  }

  lemma {:induction false} EmptiedFaultOrNot(l: Layout, db: Db, s: Sorting, order: seq<string>)
    requires SortingFaultOrNot(l, db, s) && forall n :: n in order ==> n in s.queues
    ensures AllFaultOrNot(l, db, Emptied(s, order))
  {
    if order == [] {
    } else {
      EmptiedFaultOrNot(l, db, s, order[..|order| - 1]);
      assert order[|order| - 1] in order;
    }
  }

  /** Replaying a processed log makes the operational tree show what the log says of faults. */
  lemma ReplayShowsFaults(l: Layout, blocks: Blocks, db: Db, logs: seq<Entry>, f: Applied, v: View, order: seq<string>)
    requires l.Regular() && FaultsShown(l, v, f) && OnlyFaults(f)
    requires NoFaultInDb(l, db) && AllFaultOrNot(l, db, logs)
    requires forall n :: n in order ==> n in SortedOut(blocks, db, logs).queues
    ensures FaultsShown(l, Pushed(l, db, v, Emptied(SortedOut(blocks, db, logs), order)), FaultReplay(f, logs))
    ensures OnlyFaults(FaultReplay(f, logs))
  {
    var sorted := SortedOut(blocks, db, logs);
    SortedFaultOrNot(l, blocks, db, logs);
    EmptiedFaultOrNot(l, db, sorted, order);
    PushedShows(l, db, v, f, Emptied(sorted, order));
    ProcessedFaults(blocks, db, logs, order, f);
  }

  /** The faults of the table are kept as the others are. */
  ghost predicate GoodFaults(l: Layout, faults: Applied) {
    l.Sound(faults) && OnlyFaults(faults)
  }

  lemma {:induction false} ListedFaultOrNot(l: Layout, blocks: Blocks, db: Db, faults: Applied, home: Id -> Id,
                                            stats: Stats, order: seq<Id>)
    requires NoFaultInDb(l, db) && GoodFaults(l, faults) && StatsTell(faults, home, stats)
    ensures AllFaultOrNot(l, db, ListedInOrder(blocks, db, l.root, stats, order))
  {
    if order == [] {
    } else {
      var id := order[|order| - 1];
      ListedFaultOrNot(l, blocks, db, faults, home, stats, order[..|order| - 1]);
      forall e | e in ListedOf(blocks, db, l.root, stats, id) ensures FaultOrNot(l, e.obj, LookUp(db)) {
        if e.obj.Fault? {
          assert HasFault(stats, id, e.obj.res);
        }
      }
    }
  }

  /** A rebuild, in whatever order it lists the resources, leaves it with the faults of those that belong there. */
  lemma RebuildShowsFaults(l: Layout, blocks: Blocks, db: Db, faults: Applied, home: Id -> Id, stats: Stats,
                           order: seq<Id>)
    requires l.Regular() && NoFaultInDb(l, db) && GoodFaults(l, faults) && StatsTell(faults, home, stats)
    requires forall id :: id in db ==> id in order
    ensures var todo := ListedInOrder(blocks, db, l.root, stats, order);
      FaultsShown(l, Pushed(l, db, map[], todo), WantedFaults(blocks, db, faults, home))
  {
    var todo := ListedInOrder(blocks, db, l.root, stats, order);
    ListedFaultOrNot(l, blocks, db, faults, home, stats, order);
    l.NothingShowsNothing();
    PushedShows(l, db, map[], map[], todo);
    RebuildFinds(blocks, db, faults, home, l.root, stats, order);
  }

  // ---------------------------------------------------------------- the tree over runs

  /** This is what the log comes to, in some order of its lists. */
  ghost predicate Processed(blocks: Blocks, db: Db, logs: seq<Entry>, todo: seq<Entry>) {
    exists order ::
      AnOrder(order, SortedOut(blocks, db, logs).queues.Keys) && todo == Emptied(SortedOut(blocks, db, logs), order)
  }

  /** The operational tree was made anew from all resources. */
  ghost predicate OperRemade(l: Layout, blocks: Blocks, db: Db, stats: Stats, w: View) {
    exists order, todo :: AllListed(blocks, db, l.root, stats, order, todo) && w == Pushed(l, db, map[], todo)
  }

  /** The processed log was built into the operational tree. */
  ghost predicate OperReplayed(l: Layout, blocks: Blocks, s: Ledger, v: View, w: View) {
    exists todo :: Processed(blocks, s.db, s.logs, todo) && w == Pushed(l, s.db, v, todo)
  }

  /** What a catch-up makes of the operational tree. */
  ghost predicate OperCaughtUp(l: Layout, blocks: Blocks, s: Ledger, stats: Stats, v: View, w: View) {
    if s.logs == [] then w == v
    else if Rebuilds(s) then OperRemade(l, blocks, s.db, stats, w)
    else OperReplayed(l, blocks, s, v, w)
  }

  ghost predicate OperAfter(l: Layout, blocks: Blocks, s: Ledger, e: DbEvent, v: View, w: View) {
    if e.CatchUp? then OperCaughtUp(l, blocks, s, e.stats, v, w) else w == v
  }

  /** Faults are of one kind and nothing else is. */
  ghost predicate Apart(l: Layout, o: AimObject) {
    match o
    case Fault(r) => l.Kept(r) && r.kind == FAULT
    case Plain(r) => l.Kept(r) && r.kind != FAULT
    case Status(id, resourceRoot, _) => resourceRoot == l.root && id.kind != FAULT
  }

  ghost predicate AllApart(l: Layout, os: seq<AimObject>) {
    forall o :: o in os && o.Root() == l.root ==> Apart(l, o)
  }

  ghost predicate GoodFaultLedger(l: Layout, s: FaultLedger) {
    && NoFaultInDb(l, s.base.db) && GoodFaults(l, s.faults) && OnlyFaults(s.shown)
    && forall e :: e in s.base.logs ==> Apart(l, e.obj)
  }

  /** The states that a catch-up reads are those of the database at that time. */
  ghost predicate GoodFaultEvent(l: Layout, home: Id -> Id, s: FaultLedger, e: DbEvent) {
    match e
    case Commit(added, updated, deleted) => AllApart(l, added + updated) && AllApart(l, deleted)
    case CatchUp(stats) => StatsTell(s.faults, home, stats)
    case RequestReset => true
  }

  ghost predicate GoodFaultRun(l: Layout, blocks: Blocks, home: Id -> Id, s: FaultLedger, events: seq<DbEvent>) {
    events == [] ||
      (GoodFaultRun(l, blocks, home, s, events[..|events| - 1]) &&
        GoodFaultEvent(l, home, AfterFaultRun(blocks, home, l.root, s, events[..|events| - 1]), events[|events| - 1]))
  }

  lemma {:induction false} RunIsGood(l: Layout, blocks: Blocks, home: Id -> Id, s: FaultLedger, events: seq<DbEvent>,
                                     i: nat)
    requires GoodFaultRun(l, blocks, home, s, events) && i < |events|
    ensures GoodFaultEvent(l, home, AfterFaultRun(blocks, home, l.root, s, events[..i]), events[i])
  {
    var before := events[..|events| - 1];
    if i < |before| {
      RunIsGood(l, blocks, home, s, before, i);
      assert before[..i] == events[..i];
    } else {
      assert before == events[..i];
    }
  }

  lemma GoodChange(l: Layout, s: FaultLedger, o: AimObject, delete: bool)
    requires GoodFaultLedger(l, s) && (o.Root() == l.root ==> Apart(l, o) && WellKeptObject(l, o))
    ensures GoodFaultLedger(l, AfterFaultChange(l.root, s, o, delete))
    ensures AfterFaultChange(l.root, s, o, delete).shown == s.shown
  {}

  lemma {:induction false} GoodChanges(l: Layout, s: FaultLedger, os: seq<AimObject>, delete: bool)
    requires GoodFaultLedger(l, s) && AllApart(l, os) && Loggable(l, os)
    ensures GoodFaultLedger(l, AfterFaultChanges(l.root, s, os, delete))
    ensures AfterFaultChanges(l.root, s, os, delete).shown == s.shown
  {
    if os == [] {
    } else {
      var before, o := os[..|os| - 1], os[|os| - 1];
      assert os == before + [o] && o in os;
      GoodChanges(l, s, before, delete);
      GoodChange(l, AfterFaultChanges(l.root, s, before, delete), o, delete);
    }
  }

  lemma LogsAreFaultOrNot(l: Layout, s: FaultLedger)
    requires GoodFaultLedger(l, s)
    ensures AllFaultOrNot(l, s.base.db, s.base.logs)
  {
    forall e | e in s.base.logs ensures FaultOrNot(l, e.obj, LookUp(s.base.db)) {
      assert Apart(l, e.obj);
    }
  }

  lemma RemadeShows(l: Layout, blocks: Blocks, db: Db, faults: Applied, home: Id -> Id, stats: Stats, w: View)
    requires l.Regular() && NoFaultInDb(l, db) && GoodFaults(l, faults) && StatsTell(faults, home, stats)
    requires OperRemade(l, blocks, db, stats, w)
    ensures FaultsShown(l, w, WantedFaults(blocks, db, faults, home))
  {
    var order, todo :| AllListed(blocks, db, l.root, stats, order, todo) && w == Pushed(l, db, map[], todo);
    RebuildShowsFaults(l, blocks, db, faults, home, stats, order);
  }

  lemma ReplayedShows(l: Layout, blocks: Blocks, s: FaultLedger, v: View, w: View)
    requires l.Regular() && GoodFaultLedger(l, s) && FaultsShown(l, v, s.shown)
    requires OperReplayed(l, blocks, s.base, v, w)
    ensures FaultsShown(l, w, FaultReplay(s.shown, s.base.logs)) && OnlyFaults(FaultReplay(s.shown, s.base.logs))
  {
    var todo :| Processed(blocks, s.base.db, s.base.logs, todo) && w == Pushed(l, s.base.db, v, todo);
    var order :| AnOrder(order, SortedOut(blocks, s.base.db, s.base.logs).queues.Keys) &&
      todo == Emptied(SortedOut(blocks, s.base.db, s.base.logs), order);
    LogsAreFaultOrNot(l, s);
    ReplayShowsFaults(l, blocks, s.base.db, s.base.logs, s.shown, v, order);
  }

  /** A catch-up leaves the operational tree with the faults that the ledger says. */
  lemma CatchUpShows(l: Layout, blocks: Blocks, home: Id -> Id, s: FaultLedger, stats: Stats, v: View, w: View)
    requires l.Regular() && GoodFaultLedger(l, s) && FaultsShown(l, v, s.shown) && StatsTell(s.faults, home, stats)
    requires OperCaughtUp(l, blocks, s.base, stats, v, w)
    ensures FaultsShown(l, w, FaultsCaughtUp(blocks, home, s).shown)
    ensures OnlyFaults(FaultsCaughtUp(blocks, home, s).shown)
  {
    if s.base.logs == [] {
    } else if Rebuilds(s.base) {
      RemadeShows(l, blocks, s.base.db, s.faults, home, stats, w);
    } else {
      ReplayedShows(l, blocks, s, v, w);
    }
  }

  lemma EventShows(l: Layout, blocks: Blocks, home: Id -> Id, s: FaultLedger, e: DbEvent, v: View, w: View)
    requires l.Regular() && GoodFaultLedger(l, s) && FaultsShown(l, v, s.shown) && GoodFaultEvent(l, home, s, e)
    requires LoggableEvent(l, e) && OperAfter(l, blocks, s.base, e, v, w)
    ensures var t := AfterFaultEvent(blocks, home, l.root, s, e); FaultsShown(l, w, t.shown) && GoodFaultLedger(l, t)
  {
    match e {
      case Commit(added, updated, deleted) =>
        GoodChanges(l, s, added + updated, false);
        GoodChanges(l, AfterFaultChanges(l.root, s, added + updated, false), deleted, true);
      case CatchUp(stats) => CatchUpShows(l, blocks, home, s, stats, v, w);
      case RequestReset =>
    }
  }
}
