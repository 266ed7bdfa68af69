/**
 The bookkeeping of one root over whole runs of commits, catch-ups and requested resets: what the database
 holds, what is logged, what the trees show, and which resources they show wrongly for good.
 */
module LogRuns {
  import opened Keys
  import opened TreeMaker
  import opened TreeBuilder
  import opened TreeReplay
  import opened ActionLog

  /** What the database holds of the state of a resource. */
  datatype Stat = Stat(state: SyncState, faults: seq<Resource>)

  type Stats = Id -> Option<Stat>

  function FaultEntries(faults: seq<Resource>): (es: seq<Entry>)
    ensures |es| == |faults| && forall i :: 0 <= i < |es| ==> es[i] == Entry(Create, Fault(faults[i]))
  {
    seq(|faults|, i requires 0 <= i < |faults| => Entry(Create, Fault(faults[i])))
  }

  /** The entries for the state of a resource: its status, then its faults. */
  function StatEntries(id: Id, root: string, stat: Stat): seq<Entry> {
    [Entry(Create, Status(id, root, stat.state))] + FaultEntries(stat.faults)
  }

  /** `stats` are the states that the database holds when a catch-up rebuilds the trees. */
  datatype DbEvent =
    | Commit(added: seq<AimObject>, updated: seq<AimObject>, deleted: seq<AimObject>)
    | CatchUp(stats: Stats)
    | RequestReset

  /** `lost` are the resources that the last replay of a log has left other than the database wants them. */
  datatype Ledger = Ledger(db: Db, logs: seq<Entry>, needsReset: bool, applied: Applied, lost: set<Id>)

  /** The resources that are shown and should not be, or should and are not, or are shown as they were. */
  ghost function ShownWrong(blocks: Blocks, db: Db, a: Applied): set<Id> {
    set id | id in a.Keys + Wanted(blocks, db).Keys && !Right(blocks, db, a, id)
  }

  /** The resource that an entry could say something about. */
  function SubjectOf(e: Entry): Id {
    match e.obj
    case Plain(r) => IdOf(r)
    case Status(id, _, _) => id
    case Fault(r) => IdOf(r)
  }

  function Subjects(logs: seq<Entry>): set<Id> {
    set e | e in logs :: SubjectOf(e)
  }

  /** What the trees show after a processed log was replayed. */
  function Replayed(blocks: Blocks, db: Db, logs: seq<Entry>, a: Applied): Applied {
    map id | id in a.Keys + Subjects(logs) && After(a, id, Said(blocks, db, logs, id)).Some? ::
      After(a, id, Said(blocks, db, logs, id)).value
  }

  lemma {:induction false} PlainIsSubject(db: Db, logs: seq<Entry>, id: Id)
    ensures LastPlain(db, logs, id).Some? ==> id in Subjects(logs)
  {
    if logs == [] {
    } else {
      var before, e := logs[..|logs| - 1], logs[|logs| - 1];
      assert logs == before + [e] && e in logs;
      PlainIsSubject(db, before, id);
    }
  }

  lemma SaidIsSubject(blocks: Blocks, db: Db, logs: seq<Entry>, id: Id)
    ensures Said(blocks, db, logs, id).Some? ==> id in Subjects(logs)
  {
    if Waits(db, logs, id) {
      LastCountedIsThere(db, logs, NameOf(id));
      assert SubjectOf(LastCounted(db, logs, NameOf(id)).value) == id;
    } else {
      PlainIsSubject(db, logs, id);
    }
  }

  lemma ReplayedAt(blocks: Blocks, db: Db, logs: seq<Entry>, a: Applied, id: Id)
    ensures ResourceAt(Replayed(blocks, db, logs, a), id) == After(a, id, Said(blocks, db, logs, id))
  {
    SaidIsSubject(blocks, db, logs, id);
  }

  /** Replaying the processed log does this in whatever order its lists are taken. */
  lemma ReplayIsReplayed(blocks: Blocks, db: Db, logs: seq<Entry>, order: seq<string>, a: Applied)
    requires GoodIds(db) && NoSkips(logs) && AnOrder(order, SortedOut(blocks, db, logs).queues.Keys)
    ensures Replay(db, a, Emptied(SortedOut(blocks, db, logs), order)) == Replayed(blocks, db, logs, a)
  {
    var b := Replay(db, a, Emptied(SortedOut(blocks, db, logs), order));
    forall id ensures ResourceAt(b, id) == ResourceAt(Replayed(blocks, db, logs, a), id) {
      ReplayIsLast(db, a, Emptied(SortedOut(blocks, db, logs), order), id);
      ProcessedSays(blocks, db, logs, order, id);
      ReplayedAt(blocks, db, logs, a, id);
    }
    SameEverywhere(b, Replayed(blocks, db, logs, a));
  }

  // ---------------------------------------------------------------- steps

  function AfterChange(root: string, s: Ledger, o: AimObject, delete: bool): Ledger {
    if o.Root() != root then s else s.(db := Changed(s.db, o, delete), logs := Logged(s.logs, o, delete))
  }

  function AfterChanges(root: string, s: Ledger, os: seq<AimObject>, delete: bool): Ledger {
    if os == [] then s else AfterChange(root, AfterChanges(root, s, os[..|os| - 1], delete), os[|os| - 1], delete)
  }

  /** A commit: first what it adds and updates, then what it deletes. */
  function AfterCommit(root: string, s: Ledger, added: seq<AimObject>, updated: seq<AimObject>,
                       deleted: seq<AimObject>): Ledger
  {
    AfterChanges(root, AfterChanges(root, s, added + updated, false), deleted, true)
  }

  /** The trees are made anew from the database. */
  function Rebuilt(blocks: Blocks, s: Ledger): Ledger {
    s.(applied := Wanted(blocks, s.db), lost := {}, needsReset := false)
  }

  /** The log is replayed, or gives way to a rebuild; a rebuild that was asked for leaves the log. */
  ghost function CaughtUp(blocks: Blocks, s: Ledger): Ledger {
    if s.logs == [] then s
    else if HasReset(s.logs) then Rebuilt(blocks, s).(logs := [])
    else if s.needsReset then Rebuilt(blocks, s)
    else
      var a := Replayed(blocks, s.db, s.logs, s.applied);
      Ledger(s.db, [], false, a, ShownWrong(blocks, s.db, a))
  }

  ghost function AfterEvent(blocks: Blocks, root: string, s: Ledger, e: DbEvent): Ledger {
    match e
    case Commit(added, updated, deleted) => AfterCommit(root, s, added, updated, deleted)
    case CatchUp(_) => CaughtUp(blocks, s)
    case RequestReset => s.(needsReset := true)
  }

  ghost function AfterRun(blocks: Blocks, root: string, s: Ledger, events: seq<DbEvent>): Ledger {
    if events == [] then s
      else AfterEvent(blocks, root, AfterRun(blocks, root, s, events[..|events| - 1]), events[|events| - 1])
  }

  // ---------------------------------------------------------------- what every step keeps

  /**
   The log is bounded and in step with the database, and once it is drained the lost resources are
   exactly those that the trees show wrongly.
   */
  ghost predicate InOrder(l: Layout, blocks: Blocks, s: Ledger) {
    && GoodDb(l, s.db) && OfRoot(l, s.logs) && NoSkips(s.logs) && l.Sound(s.applied)
    && InStep(blocks, s.db, s.logs, s.applied, s.lost)
    && |s.logs| <= 10001 && (HasReset(s.logs) <==> |s.logs| == 10001)
    && (s.logs == [] ==> s.lost == ShownWrong(blocks, s.db, s.applied))
  }

  /** The objects of this root in a list are as they should be. */
  ghost predicate Loggable(l: Layout, os: seq<AimObject>) {
    forall o :: o in os && o.Root() == l.root ==> WellKeptObject(l, o)
  }

  ghost predicate LoggableEvent(l: Layout, e: DbEvent) {
    e.Commit? ==> Loggable(l, e.added + e.updated) && Loggable(l, e.deleted)
  }

  ghost predicate LoggableRun(l: Layout, events: seq<DbEvent>) {
    forall e :: e in events ==> LoggableEvent(l, e)
  }

  lemma ChangeKeepsOrder(l: Layout, blocks: Blocks, s: Ledger, o: AimObject, delete: bool)
    requires InOrder(l, blocks, s) && (o.Root() == l.root ==> WellKeptObject(l, o))
    ensures InOrder(l, blocks, AfterChange(l.root, s, o, delete))
  {
    if o.Root() == l.root {
      ChangeKeepsStep(l, blocks, s.db, s.logs, s.applied, s.lost, o, delete);
      if !HasReset(s.logs) {
        ResetMore(s.logs, Logged(s.logs, o, delete)[|s.logs|]);
      }
    }
  }

  lemma {:induction false} ChangesKeepOrder(l: Layout, blocks: Blocks, s: Ledger, os: seq<AimObject>, delete: bool)
    requires InOrder(l, blocks, s) && Loggable(l, os)
    ensures InOrder(l, blocks, AfterChanges(l.root, s, os, delete))
  {
    if os == [] {
    } else {
      ChangesKeepOrder(l, blocks, s, os[..|os| - 1], delete);
      ChangeKeepsOrder(l, blocks, AfterChanges(l.root, s, os[..|os| - 1], delete), os[|os| - 1], delete);
    }
  }

  lemma WantedIsRight(l: Layout, blocks: Blocks, db: Db)
    requires GoodDb(l, db)
    ensures ShownWrong(blocks, db, Wanted(blocks, db)) == {} && l.Sound(Wanted(blocks, db))
  {
  }

  lemma RebuildKeepsOrder(l: Layout, blocks: Blocks, s: Ledger)
    requires InOrder(l, blocks, s)
    ensures InOrder(l, blocks, Rebuilt(blocks, s)) && InOrder(l, blocks, Rebuilt(blocks, s).(logs := []))
  {
    WantedIsRight(l, blocks, s.db);
  }

  lemma WordsAreSound(l: Layout, blocks: Blocks, db: Db, logs: seq<Entry>, id: Id)
    requires GoodDb(l, db) && OfRoot(l, logs) && NoSkips(logs)
    ensures var said := Said(blocks, db, logs, id);
      said.Some? && said.value.res.Some? ==> IdOf(said.value.res.value) == id && l.Kept(said.value.res.value)
  {
    if Waits(db, logs, id) {
      LastCountedIsThere(db, logs, NameOf(id));
      var e := LastCounted(db, logs, NameOf(id)).value;
      assert WellKeptObject(l, e.obj);
    } else {
      PlainIsSound(l, db, logs, id);
    }
  }

  lemma {:induction false} PlainIsSound(l: Layout, db: Db, logs: seq<Entry>, id: Id)
    requires GoodDb(l, db) && OfRoot(l, logs)
    ensures var said := LastPlain(db, logs, id);
      said.Some? && said.value.res.Some? ==> IdOf(said.value.res.value) == id && l.Kept(said.value.res.value)
  {
    if logs == [] {
    } else {
      var before, e := logs[..|logs| - 1], logs[|logs| - 1];
      assert logs == before + [e] && e in logs;
      PlainIsSound(l, db, before, id);
    }
  }

  lemma ReplayedIsSound(l: Layout, blocks: Blocks, db: Db, logs: seq<Entry>, a: Applied)
    requires GoodDb(l, db) && OfRoot(l, logs) && NoSkips(logs) && l.Sound(a)
    ensures l.Sound(Replayed(blocks, db, logs, a))
  {
    var b := Replayed(blocks, db, logs, a);
    forall id | id in b ensures IdOf(b[id]) == id && l.Kept(b[id]) {
      WordsAreSound(l, blocks, db, logs, id);
    }
  }

  lemma WrongIsNotRight(blocks: Blocks, db: Db, a: Applied, id: Id)
    ensures id in ShownWrong(blocks, db, a) <==> !Right(blocks, db, a, id)
  {
  }

  lemma CatchUpKeepsOrder(l: Layout, blocks: Blocks, s: Ledger)
    requires InOrder(l, blocks, s)
    ensures InOrder(l, blocks, CaughtUp(blocks, s))
  {
    if s.logs != [] {
      if HasReset(s.logs) || s.needsReset {
        RebuildKeepsOrder(l, blocks, s);
      } else {
        var t := CaughtUp(blocks, s);
        ReplayedIsSound(l, blocks, s.db, s.logs, s.applied);
        forall id | id !in t.lost ensures Right(blocks, t.db, t.applied, id) {
          WrongIsNotRight(blocks, t.db, t.applied, id);
        }
      }
    }
  }

  lemma EventKeepsOrder(l: Layout, blocks: Blocks, s: Ledger, e: DbEvent)
    requires InOrder(l, blocks, s) && LoggableEvent(l, e)
    ensures InOrder(l, blocks, AfterEvent(blocks, l.root, s, e))
  {
    match e {
      case Commit(added, updated, deleted) =>
        ChangesKeepOrder(l, blocks, s, added + updated, false);
        ChangesKeepOrder(l, blocks, AfterChanges(l.root, s, added + updated, false), deleted, true);
      case CatchUp(_) => CatchUpKeepsOrder(l, blocks, s);
      case RequestReset =>
    }
  }

  lemma {:induction false} RunKeepsOrder(l: Layout, blocks: Blocks, s: Ledger, events: seq<DbEvent>)
    requires InOrder(l, blocks, s) && LoggableRun(l, events)
    ensures InOrder(l, blocks, AfterRun(blocks, l.root, s, events))
  {
    if events == [] {
    } else {
      var before, e := events[..|events| - 1], events[|events| - 1];
      assert e in events && forall x :: x in before ==> x in events;
      RunKeepsOrder(l, blocks, s, before);
      EventKeepsOrder(l, blocks, AfterRun(blocks, l.root, s, before), e);
    }
  }

  // ---------------------------------------------------------------- when the trees show the database

  /** With the log drained, the trees show the database exactly when nothing is lost. */
  lemma DrainedIsWanted(l: Layout, blocks: Blocks, s: Ledger)
    requires InOrder(l, blocks, s) && s.logs == []
    ensures s.applied == Wanted(blocks, s.db) <==> s.lost == {}
  {
    var w := Wanted(blocks, s.db);
    forall id ensures id in s.lost <==> ResourceAt(s.applied, id) != ResourceAt(w, id) {
      WrongIsNotRight(blocks, s.db, s.applied, id);
    }
    SameEverywhere(s.applied, w);
  }

  /** A catch-up that replays the log loses exactly the resources that the log misses. */
  lemma CatchUpLosesExactly(l: Layout, blocks: Blocks, s: Ledger, id: Id)
    requires InOrder(l, blocks, s) && s.logs != [] && !HasReset(s.logs) && !s.needsReset
    ensures id in CaughtUp(blocks, s).lost <==> !NotMissed(blocks, s.db, s.logs, l.root, s.applied, s.lost, id)
  {
    WrongIsNotRight(blocks, s.db, CaughtUp(blocks, s).applied, id);
    ReplayedAt(blocks, s.db, s.logs, s.applied, id);
    OrdinaryLogs(s.logs);
    RightExactly(l, blocks, s.db, s.logs, s.applied, s.lost, id);
  }

  lemma OrdinaryLogs(logs: seq<Entry>)
    requires NoSkips(logs) && !HasReset(logs)
    ensures Ordinary(logs)
  {
  }

  /** After two catch-ups the log is drained: a reset that was asked for leaves it to the next time. */
  lemma TwiceDrains(blocks: Blocks, s: Ledger)
    ensures CaughtUp(blocks, CaughtUp(blocks, s)).logs == []
  {
  }

  /** Two new rules of one name in one commit: the first is in the database and the trees never show it. */
  lemma SharedNameIsLost(l: Layout, blocks: Blocks, s: Ledger, x: Resource, y: Resource)
    requires InOrder(l, blocks, s) && s == Ledger(map[], [], false, map[], {})
    requires x.kind == RULE && y.kind == RULE && IdOf(x) != IdOf(y)
    requires x.ident != [] && y.ident != [] && x.ident[|x.ident| - 1] == y.ident[|y.ident| - 1]
    requires WellKept(l, x) && WellKept(l, y) && !Blocked(blocks, x)
    ensures var t := CaughtUp(blocks, AfterCommit(l.root, s, [Plain(x), Plain(y)], [], []));
      t.logs == [] && IdOf(x) in t.db && t.db[IdOf(x)] == x && IdOf(x) !in t.applied && IdOf(x) in t.lost
  {
    var both := [Plain(x), Plain(y)];
    var t := AfterCommit(l.root, s, both, [], []);
    assert both + [] == both && both[..1] == [Plain(x)] && both[..1][..0] == [];
    assert AfterChanges(l.root, s, both[..1][..0], false) == s;
    assert AfterChanges(l.root, s, both[..1], false) == Ledger(map[IdOf(x) := x], [Entry(Create, Plain(x))], false,
      map[], {});
    var logs := [Entry(Create, Plain(x)), Entry(Create, Plain(y))];
    assert !HasReset([Entry(Create, Plain(x))]);
    assert t == Ledger(map[IdOf(x) := x, IdOf(y) := y], logs, false, map[], {});
    ChangesKeepOrder(l, blocks, s, both, false);
    assert !HasReset(logs);
    SharedNameIsMissed(blocks, l.root, t.db, x, y);
    CatchUpLosesExactly(l, blocks, t, IdOf(x));
    WrongIsNotRight(blocks, t.db, CaughtUp(blocks, t).applied, IdOf(x));
    ReplayedAt(blocks, t.db, logs, map[], IdOf(x));
    SharedNameSaysNothing(blocks, t.db, x, y);
  }

  lemma StatusCommitted(root: string, s: Ledger, o: AimObject)
    requires o.Status? && o.Root() == root && s.logs == []
    ensures AfterCommit(root, s, [o], [], []) == s.(logs := [Entry(Create, o)])
  {
    assert [o] + [] == [o] && [o][..0] == [];
    assert AfterChanges(root, s, [], false) == s;
  }

  lemma StatusAlone(db: Db, e: Entry, id: Id)
    requires !OfRule(e)
    ensures !Waits(db, [e], id) && LastPlain(db, [e], id) == if SaysOf(db, e, id) then Says(db, e) else None
  {
    assert [e][..0] == [];
    assert LastPlain(db, [e][..0], id) == None && LastCounted(db, [e][..0], NameOf(id)) == None;
  }

  /** A blocked rule that the trees rightly lack is shown once its status changes, until they are rebuilt. */
  lemma StatusShowsBlocked(l: Layout, blocks: Blocks, x: Resource, state: SyncState)
    requires WellKept(l, x) && Blocked(blocks, x)
    ensures var s := Ledger(map[IdOf(x) := x], [], false, map[], {});
      var t := CaughtUp(blocks, AfterCommit(l.root, s, [Status(IdOf(x), l.root, state)], [], []));
      && InOrder(l, blocks, s) && IdOf(x) !in Wanted(blocks, t.db)
      && t.applied == map[IdOf(x) := x] && t.lost == {IdOf(x)}
  {
    var s := Ledger(map[IdOf(x) := x], [], false, map[], {});
    var o := Status(IdOf(x), l.root, state);
    assert ShownWrong(blocks, s.db, map[]) == {};
    var e := Entry(Create, o);
    StatusCommitted(l.root, s, o);
    assert !HasReset([e]) && Says(s.db, e) == Some(Word(IdOf(x), Some(x)));
    StatusReplayed(blocks, s.db, e, x);
    assert ShownWrong(blocks, s.db, map[IdOf(x) := x]) == {IdOf(x)};
  }

  lemma StatusReplayed(blocks: Blocks, db: Db, e: Entry, x: Resource)
    requires e.obj.Status? && e.obj.parent == IdOf(x) && Says(db, e) == Some(Word(IdOf(x), Some(x)))
    ensures Replayed(blocks, db, [e], map[]) == map[IdOf(x) := x]
  {
    forall id ensures Said(blocks, db, [e], id) == if id == IdOf(x) then Says(db, e) else None {
      StatusAlone(db, e, id);
    }
    assert Subjects([e]) == {IdOf(x)} by {
      assert e in [e] && SubjectOf(e) == IdOf(x);
    }
  }

  /** Every catch-up of a run finds names of their own in its log. */
  ghost predicate UniqueNamesInRun(blocks: Blocks, root: string, s: Ledger, events: seq<DbEvent>) {
    forall i :: 0 <= i < |events| && events[i].CatchUp? ==>
      var t := AfterRun(blocks, root, s, events[..i]); UniqueNames(blocks, t.db, t.logs, root)
  }

  lemma ChangesKeepLost(root: string, s: Ledger, os: seq<AimObject>, delete: bool)
    ensures AfterChanges(root, s, os, delete).lost == s.lost
  {
  }

  lemma CatchUpLosesNothing(l: Layout, blocks: Blocks, s: Ledger)
    requires InOrder(l, blocks, s) && s.lost == {} && UniqueNames(blocks, s.db, s.logs, l.root)
    ensures CaughtUp(blocks, s).lost == {}
  {
    if s.logs != [] && !HasReset(s.logs) && !s.needsReset {
      UniqueNamesMissNothing(blocks, s.db, s.logs, l.root, s.applied);
      forall id ensures id !in CaughtUp(blocks, s).lost {
        CatchUpLosesExactly(l, blocks, s, id);
        assert NotMissed(blocks, s.db, s.logs, l.root, s.applied, {}, id);
      }
    }
  }

  /** Rules of one name may come one after the other: a run loses nothing when no log names two of them at once. */
  lemma {:induction false} UniqueNamesLoseNothing(l: Layout, blocks: Blocks, s: Ledger, events: seq<DbEvent>)
    requires InOrder(l, blocks, s) && LoggableRun(l, events) && s.lost == {}
    requires UniqueNamesInRun(blocks, l.root, s, events)
    ensures AfterRun(blocks, l.root, s, events).lost == {}
  {
    if events == [] {
    } else {
      var before, e := events[..|events| - 1], events[|events| - 1];
      assert forall x :: x in before ==> x in events;
      forall i | 0 <= i < |before| && before[i].CatchUp?
        ensures var t := AfterRun(blocks, l.root, s, before[..i]); UniqueNames(blocks, t.db, t.logs, l.root)
      {
        assert before[..i] == events[..i] && events[i].CatchUp?;
      }
      UniqueNamesLoseNothing(l, blocks, s, before);
      RunKeepsOrder(l, blocks, s, before);
      var t := AfterRun(blocks, l.root, s, before);
      match e {
        case Commit(added, updated, deleted) =>
          ChangesKeepLost(l.root, t, added + updated, false);
          ChangesKeepLost(l.root, AfterChanges(l.root, t, added + updated, false), deleted, true);
        case CatchUp(_) =>
          assert events[|events| - 1].CatchUp? && before == events[..|events| - 1];
          CatchUpLosesNothing(l, blocks, t);
        case RequestReset =>
      }
    }
  }
}
