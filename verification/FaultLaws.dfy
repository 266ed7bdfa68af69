/** What commits, replays and rebuilds do to the faults that the operational tree shows, written out. */
module FaultLaws {
  import opened Keys
  import opened TreeStore
  import opened TreeMaker
  import opened TreeBuilder
  import opened TreeReplay
  import opened ActionLog
  import opened LogRuns
  import opened FaultRuns

  /** The real nodes of an operational tree in order are those that the shown faults convert to. */
  lemma FaultsShownMeans(l: Layout, v: View, f: Applied, k: Key)
    requires FaultsShown(l, v, f)
    ensures k in v && !v[k].dummy <==> l.owner(k) in f && k in l.c.convert(f[l.owner(k)])
    ensures k in v && !v[k].dummy ==> v[k].attrs == l.c.convert(f[l.owner(k)])[k]
  {
    assert At(v, k) == FaultExpect(l, f, k);
  }

  /** Replaying entries one after the other: a fault is shown when it was created and gone when it was not. */
  lemma FaultReplayOne(f: Applied, e: Entry)
    ensures FaultReplay(f, []) == f
    ensures FaultReplay(f, [e]) ==
      if !e.obj.Fault? || e.action == Skip then f
      else if e.action == Create then f[Id(e.obj.res.kind, e.obj.res.ident) := e.obj.res]
      else f - {Id(e.obj.res.kind, e.obj.res.ident)}
  {
    assert [e][..0] == [];
    assert FaultReplay(f, []) == f;
  }

  lemma {:induction false} FaultChangesInTurn(root: string, s: FaultLedger, a: seq<AimObject>, b: seq<AimObject>,
                                              delete: bool)
    ensures AfterFaultChanges(root, s, a + b, delete) ==
            AfterFaultChanges(root, AfterFaultChanges(root, s, a, delete), b, delete)
  {
    if b == [] {
      assert a + b == a;
    } else {
      assert (a + b)[..|a + b| - 1] == a + b[..|b| - 1];
      FaultChangesInTurn(root, s, a, b[..|b| - 1], delete);
    }
  }

  /** One change of the root: the database takes or loses a fault; nothing is shown yet. */
  lemma FaultChangeOne(root: string, s: FaultLedger, o: AimObject, delete: bool)
    ensures AfterFaultChanges(root, s, [], delete) == s
    ensures var t := AfterFaultChanges(root, s, [o], delete);
      && t.base == AfterChanges(root, s.base, [o], delete) && t.shown == s.shown && t.omitted == s.omitted
      && t.faults ==
           if !o.Fault? || o.res.root != root then s.faults
           else if delete then s.faults - {Id(o.res.kind, o.res.ident)}
           else s.faults[Id(o.res.kind, o.res.ident) := o.res]
  {
    assert [o][..0] == [];
    assert AfterFaultChanges(root, s, [], delete) == s && AfterChanges(root, s.base, [], delete) == s.base;
  }

  /**
   A catch-up. Without a log nothing happens; a rebuild shows the faults of the resources that belong in the trees,
   and omits the others; and a replay shows what the log says, which then is omitted no more.
   */
  lemma FaultsCaughtUpMeans(blocks: Blocks, home: Id -> Id, s: FaultLedger, id: Id)
    ensures var t := FaultsCaughtUp(blocks, home, s);
      && t.base == CaughtUp(blocks, s.base) && t.faults == s.faults
      && (s.base.logs == [] ==> t == s)
    ensures s.base.logs != [] && (s.base.needsReset || exists e :: e in s.base.logs && e.action == Reset) ==>
      var t, db := FaultsCaughtUp(blocks, home, s), s.base.db;
      var belongs := home(id) in db && db[home(id)].sync &&
        !(db[home(id)].kind == "SecurityGroupRule" && blocks(db[home(id)]));
      && (id in t.shown <==> id in s.faults && belongs) && (id in t.shown ==> t.shown[id] == s.faults[id])
      && (id in t.omitted <==> id in s.faults && !belongs)
    ensures s.base.logs != [] && !s.base.needsReset && (forall e :: e in s.base.logs ==> e.action != Reset) ==>
      var t := FaultsCaughtUp(blocks, home, s);
      && t.shown == FaultReplay(s.shown, s.base.logs)
      && (id in t.omitted <==>
            && id in s.omitted
            && forall e :: e in s.base.logs && e.obj.Fault? ==> Id(e.obj.res.kind, e.obj.res.ident) != id)
  {
  }

  lemma StatEntriesMean(id: Id, root: string, stat: Stat)
    ensures var es, n := StatEntries(id, root, stat), |stat.faults| + 1;
      && |es| == n && es[0] == Entry(Create, Status(id, root, stat.state))
      && forall i :: 1 <= i < n ==> es[i] == Entry(Create, Fault(stat.faults[i - 1]))
  {}

  /** What a rebuild lists of a resource that belongs in the trees: its status, its faults, and then itself. */
  lemma ListedMeans(blocks: Blocks, db: Db, root: string, stats: Stats, id: Id)
    ensures !(id in db && db[id].sync && !(db[id].kind == "SecurityGroupRule" && blocks(db[id]))) ==>
      ListedOf(blocks, db, root, stats, id) == []
    ensures id in db && db[id].sync && !(db[id].kind == "SecurityGroupRule" && blocks(db[id])) ==>
      var es, n := ListedOf(blocks, db, root, stats, id), if stats(id).Some? then |stats(id).value.faults| + 1 else 0;
      && |es| == n + 1 && es[n] == Entry(Create, Plain(db[id]))
      && (stats(id).Some? ==> es[0] == Entry(Create, Status(id, root, stats(id).value.state)))
      && forall i :: 1 <= i < n ==> es[i] == Entry(Create, Fault(stats(id).value.faults[i - 1]))
  {
    if stats(id).Some? {
      StatEntriesMean(id, root, stats(id).value);
    }
  }
}
