/**
 A layout that is as regular as the replay of the log takes it to be: each resource has a main node and a
 related one below it. A monitored resource leaves the related node to the configuration tree, where it is
 converted as one that was there before. Two rules of one name are carried through it.
 */
module SampleLayout {
  import opened Keys
  import opened TreeStore
  import opened TreeMaker
  import opened TreeBuilder
  import opened TreeReplay
  import opened ActionLog
  import opened LogRuns
  import opened LedgerLaws
  import opened DbListener
  import opened FaultRuns

  function MainKey(part: string, id: Id): Key {
    [part, id.kind] + id.ident + ["main"]
  }

  /** Whose node this is: the kind and the names lie between the part of the root and the last parts. */
  function Owner(k: Key): Id {
    var n := |k| - if k != [] && k[|k| - 1] == "related" then 2 else 1;
    if n < 2 then Id("", []) else Id(k[1], k[2..n])
  }

  function Convert(part: string, r: Resource): map<Key, Attrs> {
    var m, data := MainKey(part, IdOf(r)), map["data" := r.data];
    (if r.mode != PreExisting then map[m := data] else map[]) +
    (if r.mode != Monitored then map[m + ["related"] := data] else map[])
  }

  function SampleConverter(part: string): Converter {
    Converter(r => true, r => Some(MainKey(part, IdOf(r))), r => Convert(part, r))
  }

  function Sample(root: string, part: string, modeOf: Id -> Mode): Layout {
    Layout(SampleConverter(part), root, part, k => Owner(k), id => MainKey(part, id),
           (id, mode) => mode != PreExisting, modeOf)
  }

  lemma OwnerOfMain(part: string, id: Id)
    ensures Owner(MainKey(part, id)) == id && Owner(MainKey(part, id) + ["related"]) == id
  {
    var m := MainKey(part, id);
    assert m[|m| - 1] == "main" && m[2..|m| - 1] == id.ident;
    var k := m + ["related"];
    assert k[|k| - 1] == "related" && k[2..|k| - 2] == id.ident;
  }

  lemma ConvertIsRegular(l: Layout, r: Resource)
    requires l == Sample(l.root, l.part, l.modeOf)
    ensures l.RegularFor(r)
  {
    var m := MainKey(l.part, IdOf(r));
    OwnerOfMain(l.part, IdOf(r));
    forall k, n {:trigger k[..n]} | k in l.c.convert(r) && k != m && |m| < n <= |k| ensures k[..n] in l.c.convert(r) {
      assert k[..n] == k;
    }
  }

  lemma SampleIsRegular(root: string, part: string, modeOf: Id -> Mode)
    ensures Sample(root, part, modeOf).Regular()
  {
    var l := Sample(root, part, modeOf);
    forall id: Id {:trigger l.main(id)} ensures l.main(id) != [] && l.main(id)[0] == part && l.owner(l.main(id)) == id {
      OwnerOfMain(part, id);
    }
    forall r: Resource {:trigger l.RegularFor(r)} ensures l.RegularFor(r) {
      ConvertIsRegular(l, r);
    }
    forall r: Resource, state {:trigger Marked(r, state)} ensures l.c.convert(Marked(r, state)) == l.c.convert(r) {
      assert IdOf(Marked(r, state)) == IdOf(r);
    }
  }

  function RuleIn(group: string, name: string, root: string): Resource {
    Resource("SecurityGroupRule", [root, group, name], root, Owned, true, false, None, Obj(map[]))
  }

  /** Two groups get a rule of one name each; once both are caught up with, the tree is not that of a rebuild. */
  method TwoRulesOfOneName(root: string, stats: Stats) returns (listener: HashTreeDbListener, same: bool)
    requires root != ""
    ensures listener.Valid() && listener.layout.Regular() && listener.logs == []
    ensures Id("SecurityGroupRule", [root, "web", "http"]) in listener.db && !same
  {
    var l := Sample(root, root, id => Owned);
    SampleIsRegular(root, root, l.modeOf);
    listener := new HashTreeDbListener(l.c, root, root, r => false, l);
    var x, y := RuleIn("web", "http", root), RuleIn("mail", "http", root);
    assert x.ident[1] == "web" && y.ident[1] == "mail";
    assert MainKey(root, IdOf(x)) in l.ConfPart(x);
    same := SharedNameLosesRule(listener, x, y, stats);
  }

  /** A group gets two rules of different names; once both are caught up with, the trees are those of a rebuild. */
  method TwoRulesOfTwoNames(root: string, stats: Stats)
    returns (listener: HashTreeDbListener, same: bool, monSame: bool)
    requires root != ""
    ensures listener.Valid() && listener.layout.Regular() && listener.logs == [] && same && monSame
    ensures listener.applied.Keys ==
      {Id("SecurityGroupRule", [root, "web", "http"]), Id("SecurityGroupRule", [root, "web", "ssh"])}
  {
    var l := Sample(root, root, id => Owned);
    SampleIsRegular(root, root, l.modeOf);
    listener := new HashTreeDbListener(l.c, root, root, r => false, l);
    var x, y := RuleIn("web", "http", root), RuleIn("web", "ssh", root);
    same, monSame := ShowTwoRules(listener, x, y, stats);
  }

  method ShowTwoRules(listener: HashTreeDbListener, x: Resource, y: Resource, stats: Stats)
    returns (same: bool, monSame: bool)
    requires listener.Valid() && listener.State() == Ledger(map[], [], false, map[], {})
    requires x.kind == "SecurityGroupRule" && y.kind == "SecurityGroupRule" && x.ident != [] && y.ident != []
    requires x.ident[|x.ident| - 1] != y.ident[|y.ident| - 1]
    requires WellKept(listener.layout, x) && WellKept(listener.layout, y) && !listener.blocks(x) && !listener.blocks(y)
    modifies listener, listener.conf, listener.oper, listener.mon
    ensures listener.Valid() && listener.logs == [] && same && monSame
    ensures listener.applied == map[Id(x.kind, x.ident) := x, Id(y.kind, y.ident) := y]
  {
    TwoNamesAreShown(listener.layout, listener.blocks, listener.State(), x, y);
    listener.OnCommit([Plain(x), Plain(y)], [], []);
    listener.CatchUpWithActionLog(stats);
    DrainedIsWanted(listener.layout, listener.blocks, listener.State());
    same, monSame := listener.CompareWithRebuilt(stats);
  }

  /** A tenant that is not to be synchronised, and its fault. */
  function Unsynced(root: string): Resource {
    Resource("Tenant", [root], root, Owned, false, false, None, Obj(map[]))
  }

  function FaultIn(root: string): Resource {
    Resource(FAULT, ["F0132", root], root, Owned, true, false, None, Obj(map[]))
  }

  function StatsIn(root: string): Stats {
    id => if id == IdOf(Unsynced(root)) then Some(Stat(Unknown, [FaultIn(root)])) else None
  }

  lemma GoodCommit(l: Layout, home: Id -> Id, root: string)
    requires l.root == root && l.Kept(Unsynced(root)) && l.Kept(FaultIn(root))
    ensures var e := Commit([Plain(Unsynced(root)), Fault(FaultIn(root))], [], []);
      LoggableEvent(l, e) && GoodFaultEvent(l, home, NO_FAULTS, e)
  {
    var both := [Plain(Unsynced(root)), Fault(FaultIn(root))];
    assert both + [] == both;
  }

  /** When the commit is caught up with, the states are those of the database. */
  lemma GoodWithFault(l: Layout, blocks: Blocks, home: Id -> Id, root: string)
    requires l.root == root && l.Kept(Unsynced(root)) && l.Kept(FaultIn(root))
    requires home(IdOf(FaultIn(root))) == IdOf(Unsynced(root))
    ensures var events := WithFault(Unsynced(root), FaultIn(root), StatsIn(root));
      LoggableRun(l, events) && GoodFaultRun(l, blocks, home, NO_FAULTS, events)
  {
    var x, f := Unsynced(root), FaultIn(root);
    var events, both := WithFault(x, f, StatsIn(root)), [Plain(x), Fault(f)];
    GoodCommit(l, home, root);
    assert both + [] == both && events[..1] == [Commit(both, [], [])] && events[..1][..0] == [];
    assert AfterFaultRun(blocks, home, root, NO_FAULTS, events[..1][..0]) == NO_FAULTS;
    assert GoodFaultRun(l, blocks, home, NO_FAULTS, events[..1]);
    CommitBoth(root, x, f);
    var s := AfterFaultRun(blocks, home, root, NO_FAULTS, events[..1]);
    assert s == AfterFaultChanges(root, NO_FAULTS, both, false);
    assert s.faults == map[IdOf(f) := f] && StatsTell(s.faults, home, StatsIn(root));
  }

  /** A tenant that is not to be synchronised comes with a fault, and both are caught up with. */
  method ShowFault(root: string, ghost home: Id -> Id) returns (listener: HashTreeDbListener, ghost t: FaultLedger)
    requires root != "" && home(IdOf(FaultIn(root))) == IdOf(Unsynced(root))
    ensures listener.Valid() && listener.FaultsFollowed(t) && fresh(listener) && fresh(listener.conf)
    ensures fresh(listener.oper) && fresh(listener.mon)
    ensures listener.layout == Sample(root, root, listener.layout.modeOf)
    ensures t == AfterFaultRun(listener.blocks, home, root, NO_FAULTS,
                               WithFault(Unsynced(root), FaultIn(root), StatsIn(root)))
  {
    var l := Sample(root, root, id => Owned);
    SampleIsRegular(root, root, l.modeOf);
    listener := new HashTreeDbListener(l.c, root, root, r => false, l);
    GoodWithFault(l, listener.blocks, home, root);
    NothingFollowed(listener);
    var events := WithFault(Unsynced(root), FaultIn(root), StatsIn(root));
    listener.RunWithFaults(events, NO_FAULTS, home);
    t := AfterFaultRun(listener.blocks, home, root, NO_FAULTS, events);
  }

  /** The fault of a resource that is not to be synchronised is shown until the trees are rebuilt. */
  method FaultOfUnsynced(root: string) returns (listener: HashTreeDbListener, same: bool)
    requires root != ""
    ensures listener.Valid() && !same
  {
    var x, f := Unsynced(root), FaultIn(root);
    ghost var home: Id -> Id := _ => IdOf(x);
    ghost var t;
    listener, t := ShowFault(root, home);
    FaultOfUnwanted(listener.blocks, home, root, x, f, StatsIn(root));
    StatsInTell(root, home);
    same := listener.CompareFaultsWithRebuilt(StatsIn(root), t, home);
    FaultGivesNode(listener.layout, f);
  }

  lemma StatsInTell(root: string, home: Id -> Id)
    requires home(IdOf(FaultIn(root))) == IdOf(Unsynced(root))
    ensures StatsTell(map[IdOf(FaultIn(root)) := FaultIn(root)], home, StatsIn(root))
  {}

  lemma NothingFollowed(listener: HashTreeDbListener)
    requires listener.State() == NO_FAULTS.base && ViewOf(listener.oper.store) == map[] && listener.layout.Regular()
    requires listener.Valid()
    ensures listener.FaultsFollowed(NO_FAULTS)
  {
    listener.layout.NothingShowsNothing();
    forall id ensures FaultTold(NO_FAULTS, id) {
    }
    assert GoodFaultLedger(listener.layout, NO_FAULTS);
    assert FaultsShown(listener.layout, map[], map[]);
  }

  lemma FaultGivesNode(l: Layout, f: Resource)
    requires l == Sample(l.root, l.part, l.modeOf) && f.mode == Owned
    ensures !SameFaults(l, map[IdOf(f) := f], map[])
  {
    var m := MainKey(l.part, IdOf(f));
    OwnerOfMain(l.part, IdOf(f));
    assert FaultExpect(l, map[IdOf(f) := f], m) != FaultExpect(l, map[], m);
  }
}
