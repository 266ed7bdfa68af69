/**
 What commits and catch-ups do to the ledger of a root, field by field: what is logged, what the trees show
 afterwards, and when nothing is lost.
 */
module LedgerLaws {
  import opened Keys
  import opened TreeMaker
  import opened TreeBuilder
  import opened TreeReplay
  import opened ActionLog
  import opened LogRuns
  import opened LogLaws

  /** Changes are taken one after the other. */
  lemma {:induction false} ChangesInTurn(root: string, s: Ledger, a: seq<AimObject>, b: seq<AimObject>, delete: bool)
    ensures AfterChanges(root, s, a + b, delete) == AfterChanges(root, AfterChanges(root, s, a, delete), b, delete)
  {
    if b == [] {
      assert a + b == a;
    } else {
      assert (a + b)[..|a + b| - 1] == a + b[..|b| - 1];
      ChangesInTurn(root, s, a, b[..|b| - 1], delete);
    }
  }

  /**
   One change: an object of another root changes nothing; the database takes or loses a resource, and the log gets
   one entry: a reset once it is full, a deletion for what goes or is not to be synchronised, and else a
   creation. Behind a reset nothing is logged.
   */
  lemma ChangeOne(root: string, s: Ledger, o: AimObject, delete: bool)
    ensures AfterChanges(root, s, [], delete) == s
    ensures (match o case Plain(r) => r.root case Fault(r) => r.root case Status(_, of, _) => of) != root ==>
      AfterChanges(root, s, [o], delete) == s
    ensures (match o case Plain(r) => r.root case Fault(r) => r.root case Status(_, of, _) => of) == root ==>
      var t := AfterChanges(root, s, [o], delete);
      && t.needsReset == s.needsReset && t.applied == s.applied && t.lost == s.lost
      && t.db == (if !o.Plain? then s.db
                  else if delete then s.db - {Id(o.res.kind, o.res.ident)}
                  else s.db[Id(o.res.kind, o.res.ident) := o.res])
      && t.logs ==
           (if exists e :: e in s.logs && e.action == Reset then s.logs
            else
              s.logs + [Entry(if |s.logs| >= 10000 then Reset
                              else if delete || (o.Plain? && !o.res.sync) then Delete else Create, o)])
  {
    assert [o][..0] == [];
    assert AfterChanges(root, s, [], delete) == s;
  }

  /** The log has one entry for each of these objects behind the others. */
  ghost predicate LogsEach(was: seq<Entry>, os: seq<AimObject>, logs: seq<Entry>, delete: bool) {
    && |logs| == |was| + |os| && logs[..|was|] == was
    && forall i :: 0 <= i < |os| ==>
         && logs[|was| + i].obj == os[i]
         && logs[|was| + i].action == if delete || (os[i].Plain? && !os[i].res.sync) then Delete else Create
  }

  lemma LoggedOneMore(was: seq<Entry>, os: seq<AimObject>, logs: seq<Entry>, o: AimObject, delete: bool)
    requires LogsEach(was, os, logs, delete) && forall e :: e in logs ==> e.action != Reset
    ensures var logs' := logs + [Entry(if delete || (o.Plain? && !o.res.sync) then Delete else Create, o)];
      LogsEach(was, os + [o], logs', delete) && forall e :: e in logs' ==> e.action != Reset
  {
    var logs' := logs + [Entry(if delete || (o.Plain? && !o.res.sync) then Delete else Create, o)];
    assert logs'[..|was|] == logs[..|was|];
  }

  /** The log after some changes of the root, as long as it does not fill up: one entry each, in order. */
  lemma {:induction false} ChangesAreLogged(root: string, s: Ledger, os: seq<AimObject>, delete: bool)
    requires (forall e :: e in s.logs ==> e.action != Reset) && |s.logs| + |os| <= 10000
    requires forall o :: o in os ==> o.Root() == root
    ensures var logs := AfterChanges(root, s, os, delete).logs;
      LogsEach(s.logs, os, logs, delete) && forall e :: e in logs ==> e.action != Reset
  {
    if os == [] {
    } else {
      var before, o := os[..|os| - 1], os[|os| - 1];
      assert os == before + [o] && o in os;
      ChangesAreLogged(root, s, before, delete);
      ChangesInTurn(root, s, before, [o], delete);
      ChangeOne(root, AfterChanges(root, s, before, delete), o, delete);
      LoggedOneMore(s.logs, before, AfterChanges(root, s, before, delete).logs, o, delete);
    }
  }

  /**
   A catch-up. It leaves an empty log alone; a log with a reset goes, and what the database wants is shown; a rebuild
   that was asked for shows it too and keeps the log for the next time; and otherwise each resource is
   shown as the log says, or as before if it says nothing.
   */
  lemma CaughtUpMeans(blocks: Blocks, s: Ledger, id: Id)
    ensures s.logs == [] ==> CaughtUp(blocks, s) == s
    ensures s.logs != [] ==>
      var t, reset := CaughtUp(blocks, s), exists e :: e in s.logs && e.action == Reset;
      && t.db == s.db && !t.needsReset && t.logs == (if !reset && s.needsReset then s.logs else [])
      && (reset || s.needsReset ==>
            && t.lost == {}
            && (id in t.applied <==>
                  id in s.db && s.db[id].sync && !(s.db[id].kind == "SecurityGroupRule" && blocks(s.db[id])))
            && (id in t.applied ==> t.applied[id] == s.db[id]))
    ensures s.logs != [] && !s.needsReset && (forall e :: e in s.logs ==> e.action != Reset) ==>
      var t, said := CaughtUp(blocks, s), Said(blocks, s.db, s.logs, id);
      && (id in t.applied <==> if said.Some? then said.value.res.Some? else id in s.applied)
      && (id in t.applied ==>
            t.applied[id] == if said.Some? then said.value.res.value else s.applied[id])
  {
    if s.logs != [] && !s.needsReset && !HasReset(s.logs) {
      ReplayedAt(blocks, s.db, s.logs, s.applied, id);
    }
  }

  /** With the log drained, the lost resources are those that are not shown as the database wants them. */
  lemma LostMeans(l: Layout, blocks: Blocks, s: Ledger, id: Id)
    requires InOrder(l, blocks, s) && s.logs == []
    ensures id in s.lost <==>
      !((id in s.applied <==>
           id in s.db && s.db[id].sync && !(s.db[id].kind == "SecurityGroupRule" && blocks(s.db[id]))) &&
        (id in s.applied && id in s.db ==> s.applied[id] == s.db[id]))
  {
    WrongIsNotRight(blocks, s.db, s.applied, id);
  }

  lemma NamesAreUnique(blocks: Blocks, db: Db, logs: seq<Entry>, root: string)
    requires NamesDiffer(blocks, db, logs)
    ensures UniqueNames(blocks, db, logs, root)
  {
    forall e, f | e in logs && f in logs && SameName(e, f) ensures IdOf(e.obj.res) == IdOf(f.obj.res) {
    }
  }

  /**
   Rules whose last identity attributes differ are not lost: caught up with, such a log leaves the trees showing
   exactly what the database wants, each resource as it is.
   */
  lemma DifferentNamesAreShown(l: Layout, blocks: Blocks, s: Ledger)
    requires InOrder(l, blocks, s) && s.lost == {} && NamesDiffer(blocks, s.db, s.logs)
    ensures CaughtUp(blocks, s).lost == {}
    ensures !s.needsReset || s.logs == [] ==>
      var t := CaughtUp(blocks, s);
      && t.logs == []
      && forall id ::
           && (id in t.applied <==>
                 id in s.db && s.db[id].sync && !(s.db[id].kind == "SecurityGroupRule" && blocks(s.db[id])))
           && (id in t.applied ==> t.applied[id] == s.db[id])
  {
    NamesAreUnique(blocks, s.db, s.logs, l.root);
    CatchUpLosesNothing(l, blocks, s);
    CatchUpKeepsOrder(l, blocks, s);
    var t := CaughtUp(blocks, s);
    if t.logs == [] {
      forall id
        ensures id in t.applied <==>
          id in t.db && t.db[id].sync && !(t.db[id].kind == "SecurityGroupRule" && blocks(t.db[id]))
        ensures id in t.applied ==> t.applied[id] == t.db[id]
      {
        LostMeans(l, blocks, t, id);
      }
    }
  }

  lemma TwoCommitted(root: string, s: Ledger, x: Resource, y: Resource)
    requires s == Ledger(map[], [], false, map[], {}) && x.root == root && y.root == root && x.sync && y.sync
    ensures AfterCommit(root, s, [Plain(x), Plain(y)], [], []) ==
      Ledger(map[IdOf(x) := x, IdOf(y) := y], [Entry(Create, Plain(x)), Entry(Create, Plain(y))], false, map[], {})
  {
    var one := AfterChanges(root, s, [Plain(x)], false);
    assert [Plain(x), Plain(y)] + [] == [Plain(x)] + [Plain(y)];
    ChangesInTurn(root, s, [Plain(x)], [Plain(y)], false);
    ChangeOne(root, s, Plain(x), false);
    assert one.logs == [Entry(Create, Plain(x))];
    ChangeOne(root, one, Plain(y), false);
  }

  lemma TwoDiffer(blocks: Blocks, db: Db, x: Resource, y: Resource)
    requires x.ident != [] && y.ident != [] && x.ident[|x.ident| - 1] != y.ident[|y.ident| - 1]
    ensures NamesDiffer(blocks, db, [Entry(Create, Plain(x)), Entry(Create, Plain(y))])
  {}

  lemma SameResources(a: Applied, x: Resource, y: Resource)
    requires IdOf(x) != IdOf(y)
    requires forall id ::
      && (id in a <==> id == IdOf(x) || id == IdOf(y))
      && (id in a ==> a[id] == if id == IdOf(x) then x else y)
    ensures a == map[IdOf(x) := x, IdOf(y) := y]
  {}

  /** Two new rules of one tenant with different last identity attributes: both are heard of and shown. */
  lemma TwoNamesAreShown(l: Layout, blocks: Blocks, s: Ledger, x: Resource, y: Resource)
    requires InOrder(l, blocks, s) && s == Ledger(map[], [], false, map[], {})
    requires x.kind == "SecurityGroupRule" && y.kind == "SecurityGroupRule" && x.ident != [] && y.ident != []
    requires x.ident[|x.ident| - 1] != y.ident[|y.ident| - 1]
    requires WellKept(l, x) && WellKept(l, y) && !blocks(x) && !blocks(y)
    ensures var t := CaughtUp(blocks, AfterCommit(l.root, s, [Plain(x), Plain(y)], [], []));
      && t.logs == [] && t.lost == {}
      && t.applied == map[Id(x.kind, x.ident) := x, Id(y.kind, y.ident) := y]
  {
    var both := [Plain(x), Plain(y)];
    TwoCommitted(l.root, s, x, y);
    var t := AfterCommit(l.root, s, both, [], []);
    ChangesKeepOrder(l, blocks, s, both, false);
    assert both + [] == both;
    assert InOrder(l, blocks, t);
    TwoDiffer(blocks, t.db, x, y);
    DifferentNamesAreShown(l, blocks, t);
    assert IdOf(x) != IdOf(y);
    SameResources(CaughtUp(blocks, t).applied, x, y);
  }
}
