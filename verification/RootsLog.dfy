/**
 One catch-up over the logs of several roots. Its entries are dealt out to lists, one for each root; but
 the rules of all roots share the lists of their names, and such a list goes to the root of its last entry.
 */
module RootsLog {
  import opened Keys
  import opened TreeMaker
  import opened TreeBuilder
  import opened TreeReplay
  import opened ActionLog
  import opened LogRuns
  import opened LogLaws

  /** The entries of one root. */
  function LogOf(logs: seq<Entry>, root: string): seq<Entry> {
    if logs == [] then [] else
      var before, e := LogOf(logs[..|logs| - 1], root), logs[|logs| - 1];
      if e.obj.Root() == root then before + [e] else before
  }

  type Lists = map<string, seq<Entry>>

  function ListOf(m: Lists, root: string): seq<Entry> {
    if root in m then m[root] else []
  }

  /** More entries for a root; its list is made if there is none. */
  function Listed(m: Lists, root: string, es: seq<Entry>): Lists {
    m[root := ListOf(m, root) + es]
  }

  function PlainLists(plain: seq<Entry>): Lists {
    if plain == [] then map[] else
      var e := plain[|plain| - 1];
      Listed(PlainLists(plain[..|plain| - 1]), e.obj.Root(), [e])
  }

  function LastRoot(list: seq<Entry>): string {
    if list == [] then "" else list[|list| - 1].obj.Root()
  }

  /** What each root has to replay. */
  function ByRoot(s: Sorting, order: seq<string>): Lists
    requires forall n :: n in order ==> n in s.queues
  {
    if order == [] then PlainLists(s.plain) else
      var q := s.queues[order[|order| - 1]];
      Listed(ByRoot(s, order[..|order| - 1]), LastRoot(q), q)
  }

  function Resetting(logs: seq<Entry>): set<string> {
    set e | e in logs && e.action == Reset :: e.obj.Root()
  }

  // ---------------------------------------------------------------- processing the log

  /** One entry of the log, as for a single root, but for the root that it is listed under. */
  method PreprocessLog(blocks: Blocks, db: Db, e: Entry, byRoot: Lists, queues: Queues, ghost plain: seq<Entry>)
    returns (byRoot': Lists, queues': Queues, ghost plain': seq<Entry>)
    requires byRoot == PlainLists(plain)
    ensures byRoot' == PlainLists(plain') && Sorting(plain', queues') == SortOne(blocks, db, Sorting(plain, queues), e)
  {
    var action, obj := e.action, e.obj;
    byRoot', queues', plain' := byRoot, queues, plain;
    if OfRule(e) {
      var id := IdOf(obj.res);
      if id in db {
        if action == Delete {
          action := Skip;
        } else {
          obj := Plain(db[id]);
          if Blocked(blocks, obj.res) {
            action := Delete;
          }
        }
      } else if action != Delete {
        action := Skip;
      }
      if action != Skip {
        queues' := Enqueue(queues, Entry(action, obj));
        return;
      }
    }
    plain' := plain + [Entry(action, obj)];
    assert plain'[..|plain|] == plain;
    byRoot' := Listed(byRoot, obj.Root(), [Entry(action, obj)]);
  }

  /** The whole log, entry by entry. */
  method SortLogs(blocks: Blocks, db: Db, logs: seq<Entry>)
    returns (byRoot: Lists, queues: Queues, resetting: set<string>, ghost plain: seq<Entry>)
    ensures resetting == Resetting(logs) && byRoot == PlainLists(plain)
    ensures Sorting(plain, queues) == SortedOut(blocks, db, logs)
  {
    byRoot, queues, resetting, plain := map[], map[], {}, [];
    for i := 0 to |logs|
      invariant resetting == Resetting(logs[..i]) && byRoot == PlainLists(plain)
      invariant Sorting(plain, queues) == SortedOut(blocks, db, logs[..i])
    {
      SortedMore(blocks, db, logs, i);
      if logs[i].action == Reset {
        resetting := resetting + {logs[i].obj.Root()};
      }
      byRoot, queues, plain := PreprocessLog(blocks, db, logs[i], byRoot, queues, plain);
    }
    assert logs[..|logs|] == logs;
  }

  lemma SortedMore(blocks: Blocks, db: Db, logs: seq<Entry>, i: nat)
    requires i < |logs|
    ensures SortedOut(blocks, db, logs[..i + 1]) == SortOne(blocks, db, SortedOut(blocks, db, logs[..i]), logs[i])
    ensures Resetting(logs[..i + 1]) ==
      Resetting(logs[..i]) + if logs[i].action == Reset then {logs[i].obj.Root()} else {}
  {
    assert logs[..i + 1] == logs[..i] + [logs[i]] && logs[..i + 1][..i] == logs[..i];
  }

  /** The lists are handed out one after the other. */
  method EmptyQueues(byRoot: Lists, queues: Queues, ghost plain: seq<Entry>)
    returns (byRoot': Lists, ghost order: seq<string>)
    requires byRoot == PlainLists(plain) && Filled(queues)
    ensures AnOrder(order, queues.Keys) && byRoot' == ByRoot(Sorting(plain, queues), order)
  {
    byRoot', order := byRoot, [];
    var left := queues.Keys;
    while left != {}
      invariant left <= queues.Keys && AnOrder(order, queues.Keys - left)
      invariant byRoot' == ByRoot(Sorting(plain, queues), order)
    {
      var n :| n in left;
      assert (order + [n])[..|order|] == order && queues.Keys - (left - {n}) == queues.Keys - left + {n};
      OrderOneMore(order, queues.Keys - left, n);
      byRoot', order := Listed(byRoot', queues[n][|queues[n]| - 1].obj.Root(), queues[n]), order + [n];
      left := left - {n};
    }
  }

  ghost predicate Filled(q: Queues) {
    forall n :: n in q ==> q[n] != []
  }

  lemma {:induction false} QueuesAreFilled(blocks: Blocks, db: Db, logs: seq<Entry>)
    ensures Filled(SortedOut(blocks, db, logs).queues)
  {
    if logs == [] {
    } else {
      var s, e := SortedOut(blocks, db, logs[..|logs| - 1]), logs[|logs| - 1];
      QueuesAreFilled(blocks, db, logs[..|logs| - 1]);
      assert SortedOut(blocks, db, logs) == SortOne(blocks, db, s, e);
      var x := Resolved(blocks, db, e);
      if OfRule(e) && x.action != Skip {
        assert Enqueue(s.queues, x)[NameOf(IdOf(x.obj.res))] != [];
      }
    }
  }

  /** What each root has to replay, and the roots with a reset on their way. */
  method PreprocessLogs(blocks: Blocks, db: Db, logs: seq<Entry>)
    returns (byRoot: Lists, resetting: set<string>, ghost order: seq<string>)
    ensures resetting == Resetting(logs) && AnOrder(order, SortedOut(blocks, db, logs).queues.Keys)
    ensures byRoot == ByRoot(SortedOut(blocks, db, logs), order)
    ensures forall r :: r in resetting <==> exists e :: e in logs && e.action == Reset && e.obj.Root() == r
  {
    var queues;
    ghost var plain;
    byRoot, queues, resetting, plain := SortLogs(blocks, db, logs);
    QueuesAreFilled(blocks, db, logs);
    byRoot, order := EmptyQueues(byRoot, queues, plain);
  }

  // ---------------------------------------------------------------- what a root has to replay

  /** The names whose lists go to this root. */
  function NamesOf(q: Queues, order: seq<string>, root: string): seq<string>
    requires forall n :: n in order ==> n in q
  {
    if order == [] then [] else
      var before, n := NamesOf(q, order[..|order| - 1], root), order[|order| - 1];
      if LastRoot(q[n]) == root then before + [n] else before
  }

  lemma {:induction false} NamesOfAre(q: Queues, order: seq<string>, root: string)
    requires forall n :: n in order ==> n in q
    ensures forall n :: n in NamesOf(q, order, root) <==> n in order && LastRoot(q[n]) == root
  {
    if order == [] {
    } else {
      NamesOfAre(q, order[..|order| - 1], root);
      assert order == order[..|order| - 1] + [order[|order| - 1]];
    }
  }

  lemma {:induction false} PlainListsAt(plain: seq<Entry>, root: string)
    ensures ListOf(PlainLists(plain), root) == LogOf(plain, root)
    ensures root in PlainLists(plain) <==> LogOf(plain, root) != []
  {
    if plain == [] {
    } else {
      PlainListsAt(plain[..|plain| - 1], root);
    }
  }

  lemma EmptiedMore(s: Sorting, names: seq<string>, n: string)
    requires (forall m :: m in names ==> m in s.queues) && n in s.queues
    ensures Emptied(s, names + [n]) == Emptied(s, names) + s.queues[n]
  {
    assert (names + [n])[..|names|] == names;
  }

  /** A root replays its plain entries, and then the lists that go to it. */
  lemma {:induction false} ByRootAt(s: Sorting, order: seq<string>, root: string)
    requires forall n :: n in order ==> n in s.queues
    ensures forall n :: n in NamesOf(s.queues, order, root) ==> n in s.queues
    ensures ListOf(ByRoot(s, order), root) ==
      Emptied(Sorting(LogOf(s.plain, root), s.queues), NamesOf(s.queues, order, root))
  {
    NamesOfAre(s.queues, order, root);
    if order == [] {
      PlainListsAt(s.plain, root);
    } else {
      var before, n := order[..|order| - 1], order[|order| - 1];
      assert order == before + [n];
      ByRootAt(s, before, root);
      var names := NamesOf(s.queues, before, root);
      if LastRoot(s.queues[n]) == root {
        EmptiedMore(Sorting(LogOf(s.plain, root), s.queues), names, n);
      } else {
        assert NamesOf(s.queues, order, root) == names;
      }
    }
  }

  /** The roots that get a list at all. */
  lemma {:induction false} HasList(s: Sorting, order: seq<string>, root: string)
    requires forall n :: n in order ==> n in s.queues
    ensures root in ByRoot(s, order) <==>
      LogOf(s.plain, root) != [] || exists n :: n in order && LastRoot(s.queues[n]) == root
  {
    if order == [] {
      PlainListsAt(s.plain, root);
    } else {
      var before, n := order[..|order| - 1], order[|order| - 1];
      assert order == before + [n];
      HasList(s, before, root);
    }
  }

  // ---------------------------------------------------------------- what is said to a root

  /** An object belongs to the root of the resource it is about. */
  ghost predicate Homed(rootOf: Id -> string, o: AimObject) {
    match o
    case Plain(r) => r.root == rootOf(IdOf(r))
    case Status(id, root, _) => root == rootOf(id)
    case Fault(_) => true
  }

  ghost predicate EntriesHomed(rootOf: Id -> string, es: seq<Entry>) {
    forall e :: e in es ==> Homed(rootOf, e.obj)
  }

  ghost predicate DbHomed(rootOf: Id -> string, db: Db) {
    forall id :: id in db ==> IdOf(db[id]) == id && db[id].root == rootOf(id)
  }

  lemma ResolvedIsHomed(rootOf: Id -> string, blocks: Blocks, db: Db, e: Entry)
    requires DbHomed(rootOf, db) && Homed(rootOf, e.obj)
    ensures Homed(rootOf, Resolved(blocks, db, e).obj) && Resolved(blocks, db, e).obj.Root() == e.obj.Root()
  {}

  lemma {:induction false} PlainIsHomed(rootOf: Id -> string, blocks: Blocks, db: Db, logs: seq<Entry>)
    requires DbHomed(rootOf, db) && EntriesHomed(rootOf, logs)
    ensures EntriesHomed(rootOf, SortedOut(blocks, db, logs).plain)
  {
    if logs == [] {
    } else {
      var before, e := logs[..|logs| - 1], logs[|logs| - 1];
      assert logs == before + [e] && e in logs;
      PlainIsHomed(rootOf, blocks, db, before);
      ResolvedIsHomed(rootOf, blocks, db, e);
    }
  }

  /** A root hears its own words only, and all of them. */
  lemma {:induction false} OwnWords(rootOf: Id -> string, db: Db, es: seq<Entry>, root: string, id: Id)
    requires EntriesHomed(rootOf, es)
    ensures LastWord(db, LogOf(es, root), id) == if root == rootOf(id) then LastWord(db, es, id) else None
  {
    if es == [] {
    } else {
      var before, e := es[..|es| - 1], es[|es| - 1];
      assert es == before + [e] && e in es;
      OwnWords(rootOf, db, before, root, id);
      if e.obj.Root() == root {
        LastWordOneMore(db, LogOf(before, root), e, id);
      }
    }
  }

  /** The list of a rule that waits goes to the root of that rule. */
  lemma WaitingListRoot(rootOf: Id -> string, blocks: Blocks, db: Db, logs: seq<Entry>, id: Id)
    requires DbHomed(rootOf, db) && EntriesHomed(rootOf, logs) && NoSkips(logs) && Waits(db, logs, id)
    ensures var q := SortedOut(blocks, db, logs).queues; NameOf(id) in q && LastRoot(q[NameOf(id)]) == rootOf(id)
  {
    QueuesAre(blocks, db, logs, NameOf(id));
    LastCountedIsThere(db, logs, NameOf(id));
    ResolvedIsHomed(rootOf, blocks, db, LastCounted(db, logs, NameOf(id)).value);
  }

  /**
   Whatever the order of the lists, the last word about a resource that its root has to replay is the
   last word of the whole log about it; and nothing is said of it to another root.
   */
  lemma TogetherSays(rootOf: Id -> string, blocks: Blocks, db: Db, logs: seq<Entry>, order: seq<string>, root: string,
                     id: Id)
    requires DbHomed(rootOf, db) && EntriesHomed(rootOf, logs) && NoSkips(logs)
    requires AnOrder(order, SortedOut(blocks, db, logs).queues.Keys)
    ensures LastWord(db, ListOf(ByRoot(SortedOut(blocks, db, logs), order), root), id) ==
      if root == rootOf(id) then Said(blocks, db, logs, id) else None
  {
    var s := SortedOut(blocks, db, logs);
    ByRootAt(s, order, root);
    NamesOfAre(s.queues, order, root);
    EmptiedWords(blocks, db, logs, LogOf(s.plain, root), NamesOf(s.queues, order, root), id);
    PlainIsHomed(rootOf, blocks, db, logs);
    OwnWords(rootOf, db, s.plain, root, id);
    PlainIs(blocks, db, logs, id);
    if Waits(db, logs, id) {
      WaitingListRoot(rootOf, blocks, db, logs, id);
    }
  }

  /**
   Rules whose last identity attributes differ do not keep one another from being replayed, in whichever roots they
   are: each root has to replay of its own rules what the database holds, unless they are blocked.
   */
  lemma TogetherHears(rootOf: Id -> string, blocks: Blocks, db: Db, logs: seq<Entry>, order: seq<string>, e: Entry)
    requires DbHomed(rootOf, db) && EntriesHomed(rootOf, logs) && NoSkips(logs) && !HasReset(logs)
    requires AnOrder(order, SortedOut(blocks, db, logs).queues.Keys)
    requires NamesDiffer(blocks, db, logs) && HeededRule(db, logs, e)
    ensures var id, byRoot := Id(e.obj.res.kind, e.obj.res.ident), ByRoot(SortedOut(blocks, db, logs), order);
      LastWord(db, if e.obj.res.root in byRoot then byRoot[e.obj.res.root] else [], id) ==
        Some(Word(id, if id in db && !blocks(db[id]) then Some(db[id]) else None))
  {
    var id := Id(e.obj.res.kind, e.obj.res.ident);
    TogetherSays(rootOf, blocks, db, logs, order, e.obj.res.root, id);
    DifferentNamesAreHeard(blocks, db, logs, id, e);
  }

  // ---------------------------------------------------------------- together and alone

  /** The log that the root would have caught up with alone. */
  function OwnLog(rootOf: Id -> string, logs: seq<Entry>, id: Id): seq<Entry> {
    LogOf(logs, rootOf(id))
  }

  /** A rule that would be replayed if its root caught up alone, but a rule of another root has its name. */
  ghost predicate Overtaken(rootOf: Id -> string, db: Db, logs: seq<Entry>, id: Id) {
    && Waits(db, OwnLog(rootOf, logs, id), id)
    && LastCounted(db, logs, NameOf(id)).Some? && LastCounted(db, logs, NameOf(id)).value.obj.Root() != rootOf(id)
  }

  lemma {:induction false} LastPlainAlone(rootOf: Id -> string, db: Db, logs: seq<Entry>, id: Id)
    requires EntriesHomed(rootOf, logs)
    ensures LastPlain(db, OwnLog(rootOf, logs, id), id) == LastPlain(db, logs, id)
  {
    if logs == [] {
    } else {
      var before, e := logs[..|logs| - 1], logs[|logs| - 1];
      assert logs == before + [e] && e in logs;
      LastPlainAlone(rootOf, db, before, id);
      if e.obj.Root() == rootOf(id) {
        assert OwnLog(rootOf, logs, id)[..|OwnLog(rootOf, before, id)|] == OwnLog(rootOf, before, id);
      }
    }
  }

  /** The entry that counts last in a root's own log is that of the whole log, if the latter is of this root. */
  lemma {:induction false} LastCountedAlone(db: Db, logs: seq<Entry>, root: string, n: string)
    ensures var all, own := LastCounted(db, logs, n), LastCounted(db, LogOf(logs, root), n);
      (all.Some? && all.value.obj.Root() == root ==> own == all) && (own.Some? ==> all.Some?)
  {
    if logs == [] {
    } else {
      var before, e := logs[..|logs| - 1], logs[|logs| - 1];
      LastCountedAlone(db, before, root, n);
      if e.obj.Root() == root {
        assert LogOf(logs, root)[..|LogOf(before, root)|] == LogOf(before, root);
      }
    }
  }

  /**
   Catching up with several roots at once says of a resource what catching up with its root alone says,
   except that the entry of an overtaken rule is void: only its status can still speak for it.
   */
  lemma SaidTogether(rootOf: Id -> string, blocks: Blocks, db: Db, logs: seq<Entry>, id: Id)
    requires EntriesHomed(rootOf, logs)
    ensures Said(blocks, db, logs, id) ==
      if Overtaken(rootOf, db, logs, id) then LastPlain(db, logs, id)
      else Said(blocks, db, OwnLog(rootOf, logs, id), id)
  {
    LastPlainAlone(rootOf, db, logs, id);
    LastCountedAlone(db, logs, rootOf(id), NameOf(id));
    if Waits(db, logs, id) {
      LastCountedIsThere(db, logs, NameOf(id));
    }
  }

  // ---------------------------------------------------------------- the ledger of one of the roots

  /** What the database holds of one root. */
  function DbOf(db: Db, root: string): Db {
    map id | id in db && db[id].root == root :: db[id]
  }

  lemma DbOfMeans(db: Db, root: string, id: Id)
    ensures id in DbOf(db, root) <==> id in db && db[id].root == root
    ensures id in DbOf(db, root) ==> DbOf(db, root)[id] == db[id]
  {}

  ghost predicate AllOf(rootOf: Id -> string, es: seq<Entry>, root: string) {
    EntriesHomed(rootOf, es) && forall e :: e in es ==> e.obj.Root() == root
  }

  lemma {:induction false} OwnAreOf(rootOf: Id -> string, logs: seq<Entry>, root: string)
    requires EntriesHomed(rootOf, logs)
    ensures AllOf(rootOf, LogOf(logs, root), root)
  {
    if logs == [] {
    } else {
      assert logs == logs[..|logs| - 1] + [logs[|logs| - 1]];
      OwnAreOf(rootOf, logs[..|logs| - 1], root);
    }
  }

  lemma OwnDbEntry(rootOf: Id -> string, db: Db, e: Entry, root: string)
    requires DbHomed(rootOf, db) && Homed(rootOf, e.obj) && e.obj.Root() == root
    ensures PlainSays(DbOf(db, root), e) == PlainSays(db, e)
    ensures Counts(DbOf(db, root), e) <==> Counts(db, e)
  {}

  lemma {:induction false} OwnDbPlain(rootOf: Id -> string, db: Db, es: seq<Entry>, root: string, id: Id)
    requires DbHomed(rootOf, db) && AllOf(rootOf, es, root)
    ensures LastPlain(DbOf(db, root), es, id) == LastPlain(db, es, id)
    ensures LastCounted(DbOf(db, root), es, NameOf(id)) == LastCounted(db, es, NameOf(id))
  {
    if es == [] {
    } else {
      var before, e := es[..|es| - 1], es[|es| - 1];
      assert es == before + [e] && e in es;
      OwnDbPlain(rootOf, db, before, root, id);
      OwnDbEntry(rootOf, db, e, root);
    }
  }

  /** Of its own resources a root needs to know no more than its part of the database. */
  lemma OwnDbSaid(rootOf: Id -> string, blocks: Blocks, db: Db, es: seq<Entry>, root: string, id: Id)
    requires DbHomed(rootOf, db) && AllOf(rootOf, es, root)
    ensures Said(blocks, DbOf(db, root), es, id) == Said(blocks, db, es, id)
    ensures Waits(DbOf(db, root), es, id) <==> Waits(db, es, id)
  {
    OwnDbPlain(rootOf, db, es, root, id);
    if Waits(db, es, id) {
      LastCountedIsThere(db, es, NameOf(id));
    }
  }

  /** The ledger of one root before the catch-up; no reset was asked for. */
  ghost predicate LedgerOf(l: Layout, blocks: Blocks, rootOf: Id -> string, db: Db, logs: seq<Entry>, s: Ledger) {
    && DbHomed(rootOf, db) && EntriesHomed(rootOf, logs) && NoSkips(logs)
    && s.db == DbOf(db, l.root) && s.logs == LogOf(logs, l.root) && !s.needsReset && InOrder(l, blocks, s)
  }

  /** An overtaken rule stays as it was, unless its status speaks for it. */
  lemma OvertakenSays(l: Layout, blocks: Blocks, rootOf: Id -> string, db: Db, logs: seq<Entry>, s: Ledger, id: Id)
    requires LedgerOf(l, blocks, rootOf, db, logs, s) && l.root == rootOf(id) && !HasReset(s.logs)
    requires Overtaken(rootOf, db, logs, id)
    ensures Said(blocks, db, logs, id) ==
      if HasStatus(s.logs, l.root, id) && id in s.db then Some(Word(id, Some(s.db[id]))) else None
  {
    SaidTogether(rootOf, blocks, db, logs, id);
    LastPlainAlone(rootOf, db, logs, id);
    OwnAreOf(rootOf, logs, l.root);
    OwnDbPlain(rootOf, db, s.logs, l.root, id);
    PlainOfRule(l, s.db, s.logs, id);
  }

  /**
   Exactly when the catch-up gets a resource right. One that is not overtaken is as well off as if its
   root had caught up alone; a rule that is must be shown rightly already, or be shown for its status
   and not be blocked.
   */
  lemma TogetherExactly(l: Layout, blocks: Blocks, rootOf: Id -> string, db: Db, logs: seq<Entry>, s: Ledger, id: Id)
    requires LedgerOf(l, blocks, rootOf, db, logs, s) && l.root == rootOf(id) && !HasReset(s.logs)
    ensures After(s.applied, id, Said(blocks, db, logs, id)) == ResourceAt(Wanted(blocks, s.db), id) <==>
      if !Overtaken(rootOf, db, logs, id) then NotMissed(blocks, s.db, s.logs, l.root, s.applied, s.lost, id)
      else if HasStatus(s.logs, l.root, id) && id in s.db then !Blocked(blocks, s.db[id])
      else Right(blocks, s.db, s.applied, id)
  {
    if Overtaken(rootOf, db, logs, id) {
      OvertakenSays(l, blocks, rootOf, db, logs, s, id);
    } else {
      SaidTogether(rootOf, blocks, db, logs, id);
      OwnAreOf(rootOf, logs, l.root);
      OwnDbSaid(rootOf, blocks, db, s.logs, l.root, id);
      OrdinaryLogs(s.logs);
      RightExactly(l, blocks, s.db, s.logs, s.applied, s.lost, id);
    }
  }

  /** One root after a catch-up over several, in which it had this to replay. */
  ghost function CaughtUpAmong(blocks: Blocks, db: Db, s: Ledger, list: seq<Entry>): Ledger {
    if HasReset(s.logs) then Rebuilt(blocks, s).(logs := [])
    else var a := Replay(db, s.applied, list); Ledger(s.db, [], false, a, ShownWrong(blocks, s.db, a))
  }

  lemma WordsTogetherAreSound(l: Layout, blocks: Blocks, rootOf: Id -> string, db: Db, logs: seq<Entry>, s: Ledger,
                              id: Id)
    requires LedgerOf(l, blocks, rootOf, db, logs, s) && l.root == rootOf(id) && !HasReset(s.logs)
    ensures var said := Said(blocks, db, logs, id);
      said.Some? && said.value.res.Some? ==> IdOf(said.value.res.value) == id && l.Kept(said.value.res.value)
  {
    if Overtaken(rootOf, db, logs, id) {
      OvertakenSays(l, blocks, rootOf, db, logs, s, id);
    } else {
      SaidTogether(rootOf, blocks, db, logs, id);
      OwnAreOf(rootOf, logs, l.root);
      OwnDbSaid(rootOf, blocks, db, s.logs, l.root, id);
      WordsAreSound(l, blocks, s.db, s.logs, id);
    }
  }

  /** A catch-up over several roots keeps every one of them in order, with its log drained. */
  lemma CatchUpAmongKeepsOrder(l: Layout, blocks: Blocks, rootOf: Id -> string, db: Db, logs: seq<Entry>,
                               order: seq<string>, s: Ledger)
    requires LedgerOf(l, blocks, rootOf, db, logs, s)
    requires AnOrder(order, SortedOut(blocks, db, logs).queues.Keys)
    ensures var t := CaughtUpAmong(blocks, db, s, ListOf(ByRoot(SortedOut(blocks, db, logs), order), l.root));
      InOrder(l, blocks, t) && t.logs == []
  {
    var list := ListOf(ByRoot(SortedOut(blocks, db, logs), order), l.root);
    if HasReset(s.logs) {
      RebuildKeepsOrder(l, blocks, s);
    } else {
      var a := Replay(db, s.applied, list);
      forall id | id in a ensures IdOf(a[id]) == id && l.Kept(a[id]) {
        ReplayIsLast(db, s.applied, list, id);
        TogetherSays(rootOf, blocks, db, logs, order, l.root, id);
        if l.root == rootOf(id) {
          WordsTogetherAreSound(l, blocks, rootOf, db, logs, s, id);
        }
      }
      DrainedIsInOrder(l, blocks, s.db, a);
    }
  }

  lemma DrainedIsInOrder(l: Layout, blocks: Blocks, db: Db, a: Applied)
    requires GoodDb(l, db) && l.Sound(a)
    ensures InOrder(l, blocks, Ledger(db, [], false, a, ShownWrong(blocks, db, a)))
  {
    forall id | id !in ShownWrong(blocks, db, a) ensures Right(blocks, db, a, id) {
      WrongIsNotRight(blocks, db, a, id);
    }
  }

  /** Nothing is said of the resources of other roots by a log of this root's own. */
  lemma ForeignIsUnsaid(rootOf: Id -> string, blocks: Blocks, db: Db, es: seq<Entry>, root: string, id: Id)
    requires AllOf(rootOf, es, root) && root != rootOf(id)
    ensures Said(blocks, db, es, id) == None
  {
    if Waits(db, es, id) {
      LastCountedIsThere(db, es, NameOf(id));
      assert false;
    } else {
      ForeignIsUnspoken(rootOf, db, es, root, id);
    }
  }

  lemma {:induction false} ForeignIsUnspoken(rootOf: Id -> string, db: Db, es: seq<Entry>, root: string, id: Id)
    requires AllOf(rootOf, es, root) && root != rootOf(id)
    ensures LastPlain(db, es, id) == None
  {
    if es == [] {
    } else {
      assert es == es[..|es| - 1] + [es[|es| - 1]];
      ForeignIsUnspoken(rootOf, db, es[..|es| - 1], root, id);
    }
  }

  /** Where no rule is overtaken, every root ends up as if it had caught up alone. */
  lemma TogetherIsAlone(l: Layout, blocks: Blocks, rootOf: Id -> string, db: Db, logs: seq<Entry>,
                        order: seq<string>, s: Ledger)
    requires LedgerOf(l, blocks, rootOf, db, logs, s) && s.logs != []
    requires AnOrder(order, SortedOut(blocks, db, logs).queues.Keys)
    requires forall id :: l.root == rootOf(id) ==> !Overtaken(rootOf, db, logs, id)
    ensures CaughtUpAmong(blocks, db, s, ListOf(ByRoot(SortedOut(blocks, db, logs), order), l.root)) ==
            CaughtUp(blocks, s)
  {
    var list := ListOf(ByRoot(SortedOut(blocks, db, logs), order), l.root);
    var a, b := Replay(db, s.applied, list), Replayed(blocks, s.db, s.logs, s.applied);
    OwnAreOf(rootOf, logs, l.root);
    forall id ensures ResourceAt(a, id) == ResourceAt(b, id) {
      ReplayIsLast(db, s.applied, list, id);
      TogetherSays(rootOf, blocks, db, logs, order, l.root, id);
      ReplayedAt(blocks, s.db, s.logs, s.applied, id);
      OwnDbSaid(rootOf, blocks, db, s.logs, l.root, id);
      if l.root == rootOf(id) {
        SaidTogether(rootOf, blocks, db, logs, id);
      } else {
        ForeignIsUnsaid(rootOf, blocks, db, s.logs, l.root, id);
      }
    }
    SameEverywhere(a, b);
  }

  // ---------------------------------------------------------------- roots that reset

  /** The root whose list an entry joins. */
  function ListRoot(db: Db, logs: seq<Entry>, e: Entry): string {
    if !Counts(db, e) then e.obj.Root() else
      var last := LastCounted(db, logs, NameOf(IdOf(e.obj.res)));
      if last.Some? then last.value.obj.Root() else e.obj.Root()
  }

  ghost predicate PlainOfRoot(db: Db, logs: seq<Entry>, root: string) {
    exists e :: e in logs && !Counts(db, e) && e.obj.Root() == root
  }

  lemma PlainOfRootMore(db: Db, logs: seq<Entry>, e: Entry, root: string)
    ensures PlainOfRoot(db, logs + [e], root) <==>
      PlainOfRoot(db, logs, root) || (!Counts(db, e) && e.obj.Root() == root)
  {
    if PlainOfRoot(db, logs, root) {
      var x :| x in logs && !Counts(db, x) && x.obj.Root() == root;
      assert x in logs + [e];
    }
    assert e in logs + [e];
  }

  lemma {:induction false} PlainListExactly(rootOf: Id -> string, blocks: Blocks, db: Db, logs: seq<Entry>,
                                            root: string)
    requires DbHomed(rootOf, db) && EntriesHomed(rootOf, logs) && NoSkips(logs)
    ensures LogOf(SortedOut(blocks, db, logs).plain, root) != [] <==> PlainOfRoot(db, logs, root)
  {
    if logs == [] {
    } else {
      var before, e := logs[..|logs| - 1], logs[|logs| - 1];
      assert logs == before + [e] && e in logs;
      NoSkipsBefore(logs);
      PlainListExactly(rootOf, blocks, db, before, root);
      PlainOfRootMore(db, before, e, root);
      CountsIsResolved(blocks, db, e);
      ResolvedIsHomed(rootOf, blocks, db, e);
      var plain := SortedOut(blocks, db, before).plain;
      assert (plain + [Resolved(blocks, db, e)])[..|plain|] == plain;
    }
  }

  lemma QueueRoot(rootOf: Id -> string, blocks: Blocks, db: Db, logs: seq<Entry>, n: string)
    requires DbHomed(rootOf, db) && EntriesHomed(rootOf, logs) && NoSkips(logs)
    ensures var q, last := SortedOut(blocks, db, logs).queues, LastCounted(db, logs, n);
      (n in q <==> last.Some?) && (n in q ==> LastRoot(q[n]) == last.value.obj.Root())
  {
    QueuesAre(blocks, db, logs, n);
    if LastCounted(db, logs, n).Some? {
      LastCountedIsThere(db, logs, n);
      ResolvedIsHomed(rootOf, blocks, db, LastCounted(db, logs, n).value);
    }
  }

  /** A root gets a list exactly when some entry joins it. */
  lemma ListedExactly(rootOf: Id -> string, blocks: Blocks, db: Db, logs: seq<Entry>, order: seq<string>, root: string)
    requires DbHomed(rootOf, db) && EntriesHomed(rootOf, logs) && NoSkips(logs)
    requires AnOrder(order, SortedOut(blocks, db, logs).queues.Keys)
    ensures root in ByRoot(SortedOut(blocks, db, logs), order) <==>
      exists e :: e in logs && ListRoot(db, logs, e) == root
  {
    var s := SortedOut(blocks, db, logs);
    HasList(s, order, root);
    PlainListExactly(rootOf, blocks, db, logs, root);
    if n :| n in order && LastRoot(s.queues[n]) == root {
      QueueRoot(rootOf, blocks, db, logs, n);
      LastCountedIsThere(db, logs, n);
      assert ListRoot(db, logs, LastCounted(db, logs, n).value) == root;
    }
    if e :| e in logs && ListRoot(db, logs, e) == root && Counts(db, e) {
      var n := NameOf(IdOf(e.obj.res));
      CountedHasLast(db, logs, e);
      QueueRoot(rootOf, blocks, db, logs, n);
      assert n in order;
    }
  }

  datatype Error = KeyError

  /** The lists of resetting roots are emptied; it is an error when there is none. */
  method CleanupResettingRoots(byRoot: Lists, resetting: set<string>) returns (byRoot': Lists, err: Option<Error>)
    ensures err == if resetting <= byRoot.Keys then None else Some(KeyError)
    ensures err.None? ==> byRoot' == map r | r in byRoot :: if r in resetting then [] else byRoot[r]
  {
    byRoot', err := byRoot, None;
    var left := resetting;
    while left != {}
      invariant left <= resetting && resetting - left <= byRoot.Keys
      invariant byRoot' == map r | r in byRoot :: if r in resetting - left then [] else byRoot[r]
    {
      var r :| r in left;
      if r !in byRoot' {
        return byRoot', Some(KeyError);
      }
      byRoot' := byRoot'[r := []];
      left := left - {r};
    }
  }

  /** A root resets, but no entry has joined a list of it. */
  ghost predicate Unlisted(db: Db, logs: seq<Entry>, root: string) {
    root in Resetting(logs) && forall e :: e in logs ==> ListRoot(db, logs, e) != root
  }

  /**
   The lists of one catch-up over several roots. It fails exactly when a resetting root has no list;
   otherwise each root hears the last word of the whole log about its own resources, and no other.
   */
  method ListsToPush(ghost rootOf: Id -> string, blocks: Blocks, db: Db, logs: seq<Entry>)
    returns (byRoot: Lists, err: Option<Error>)
    requires DbHomed(rootOf, db) && EntriesHomed(rootOf, logs) && NoSkips(logs)
    ensures err.Some? <==> exists root :: Unlisted(db, logs, root)
    ensures err.None? ==> forall root, id {:trigger LastWord(db, ListOf(byRoot, root), id)} ::
      LastWord(db, ListOf(byRoot, root), id) ==
        if root == rootOf(id) && root !in Resetting(logs) then Said(blocks, db, logs, id) else None
  {
    var resetting, sorted;
    ghost var order;
    sorted, resetting, order := PreprocessLogs(blocks, db, logs);
    byRoot, err := CleanupResettingRoots(sorted, resetting);
    forall root ensures root in Resetting(logs) && root !in sorted <==> Unlisted(db, logs, root) {
      ListedExactly(rootOf, blocks, db, logs, order, root);
    }
    forall root, id {:trigger LastWord(db, ListOf(sorted, root), id)}
      ensures LastWord(db, ListOf(sorted, root), id) ==
        if root == rootOf(id) then Said(blocks, db, logs, id) else None
    {
      TogetherSays(rootOf, blocks, db, logs, order, root, id);
    }
    if err.None? {
      forall root, id {:trigger LastWord(db, ListOf(byRoot, root), id)}
        ensures LastWord(db, ListOf(byRoot, root), id) ==
          if root == rootOf(id) && root !in Resetting(logs) then Said(blocks, db, logs, id) else None
      {
        assert ListOf(byRoot, root) == if root in resetting then [] else ListOf(sorted, root);
      }
    }
  }

  // ---------------------------------------------------------------- the log of one root

  lemma {:induction false} AllOfOne(es: seq<Entry>, root: string)
    requires forall e :: e in es ==> e.obj.Root() == root
    ensures LogOf(es, root) == es
  {
    if es == [] {
    } else {
      assert es == es[..|es| - 1] + [es[|es| - 1]];
      AllOfOne(es[..|es| - 1], root);
    }
  }

  lemma {:induction false} PlainOfOne(blocks: Blocks, db: Db, logs: seq<Entry>, root: string)
    requires DbHomed(_ => root, db) && forall e :: e in logs ==> e.obj.Root() == root
    ensures forall e :: e in SortedOut(blocks, db, logs).plain ==> e.obj.Root() == root
  {
    if logs == [] {
    } else {
      var before, e := logs[..|logs| - 1], logs[|logs| - 1];
      assert logs == before + [e] && e in logs;
      PlainOfOne(blocks, db, before, root);
      ResolvedIsHomed(_ => root, blocks, db, e);
    }
  }

  lemma {:induction false} NamesOfOne(q: Queues, order: seq<string>, root: string)
    requires forall n :: n in order ==> n in q && LastRoot(q[n]) == root
    ensures NamesOf(q, order, root) == order
  {
    if order == [] {
    } else {
      assert order == order[..|order| - 1] + [order[|order| - 1]];
      NamesOfOne(q, order[..|order| - 1], root);
    }
  }

  /** A catch-up over the log of a single root deals everything out to this root. */
  lemma OneRootLists(blocks: Blocks, db: Db, logs: seq<Entry>, order: seq<string>, root: string)
    requires DbHomed(_ => root, db) && NoSkips(logs) && forall e :: e in logs ==> e.obj.Root() == root
    requires AnOrder(order, SortedOut(blocks, db, logs).queues.Keys)
    ensures ListOf(ByRoot(SortedOut(blocks, db, logs), order), root) == Emptied(SortedOut(blocks, db, logs), order)
    ensures root in Resetting(logs) <==> HasReset(logs)
  {
    var s := SortedOut(blocks, db, logs);
    ByRootAt(s, order, root);
    PlainOfOne(blocks, db, logs, root);
    AllOfOne(s.plain, root);
    forall n | n in order ensures LastRoot(s.queues[n]) == root {
      QueueRoot(_ => root, blocks, db, logs, n);
      LastCountedIsThere(db, logs, n);
    }
    NamesOfOne(s.queues, order, root);
  }

  // ---------------------------------------------------------------- who overtakes whom

  /** The log comes root by root. */
  ghost predicate Grouped(logs: seq<Entry>) {
    forall i, j, k :: 0 <= i < j < k < |logs| && logs[i].obj.Root() == logs[k].obj.Root() ==>
      logs[j].obj.Root() == logs[i].obj.Root()
  }

  ghost predicate CountsFor(db: Db, e: Entry, n: string) {
    Counts(db, e) && NameOf(IdOf(e.obj.res)) == n
  }

  lemma {:induction false} LastCountedIndex(db: Db, logs: seq<Entry>, n: string) returns (j: nat)
    requires LastCounted(db, logs, n).Some?
    ensures j < |logs| && logs[j] == LastCounted(db, logs, n).value && CountsFor(db, logs[j], n)
    ensures forall i :: j < i < |logs| ==> !CountsFor(db, logs[i], n)
  {
    if CountsFor(db, logs[|logs| - 1], n) {
      j := |logs| - 1;
    } else {
      j := LastCountedIndex(db, logs[..|logs| - 1], n);
    }
  }

  /** Behind all entries of this root there is one that counts under this name. */
  ghost predicate LaterCounts(db: Db, logs: seq<Entry>, root: string, n: string) {
    exists j :: 0 <= j < |logs| && CountsFor(db, logs[j], n) && IsBehind(logs, root, j)
  }

  ghost predicate IsBehind(logs: seq<Entry>, root: string, j: nat) {
    forall i :: 0 <= i < |logs| && logs[i].obj.Root() == root ==> i < j
  }

  lemma {:induction false} InOwn(logs: seq<Entry>, root: string, e: Entry)
    requires e in LogOf(logs, root)
    ensures exists i :: 0 <= i < |logs| && logs[i] == e && e.obj.Root() == root
  {
    var before := logs[..|logs| - 1];
    if e in LogOf(before, root) {
      InOwn(before, root, e);
      var i :| 0 <= i < |before| && before[i] == e && e.obj.Root() == root;
      assert logs[i] == e;
    } else {
      assert logs[|logs| - 1] == e;
    }
  }

  /** As the log comes root by root, a rule is overtaken exactly by one of its name in a later root. */
  lemma OvertakenByLaterRoot(rootOf: Id -> string, db: Db, logs: seq<Entry>, id: Id)
    requires Grouped(logs)
    ensures Overtaken(rootOf, db, logs, id) <==>
      Waits(db, OwnLog(rootOf, logs, id), id) && LaterCounts(db, logs, rootOf(id), NameOf(id))
  {
    var root, n := rootOf(id), NameOf(id);
    if Waits(db, OwnLog(rootOf, logs, id), id) {
      LastCountedAlone(db, logs, root, n);
      var j := LastCountedIndex(db, logs, n);
      LastCountedIsThere(db, OwnLog(rootOf, logs, id), n);
      var e := LastCounted(db, OwnLog(rootOf, logs, id), n).value;
      InOwn(logs, root, e);
      var i0 :| 0 <= i0 < |logs| && logs[i0] == e && e.obj.Root() == root;
      assert CountsFor(db, logs[i0], n);
      if logs[j].obj.Root() != root {
        assert IsBehind(logs, root, j);
      }
    }
  }

  lemma OwnOfTwo(e: Entry, f: Entry)
    requires e.obj.Root() != f.obj.Root()
    ensures LogOf([e, f], e.obj.Root()) == [e]
  {
    assert [e, f][..1] == [e] && [e][..0] == [];
    assert LogOf([e], e.obj.Root()) == [e];
  }

  lemma OneRuleSays(blocks: Blocks, db: Db, x: Resource)
    requires x.kind == RULE && IdOf(x) in db && db[IdOf(x)] == x && !Blocked(blocks, x)
    ensures var logs := [Entry(Create, Plain(x))];
      Waits(db, logs, IdOf(x)) && Said(blocks, db, logs, IdOf(x)) == Some(Word(IdOf(x), Some(x)))
  {
    var e := Entry(Create, Plain(x));
    assert LastCounted(db, [e], NameOf(IdOf(x))) == Some(e);
  }

  /** Two rules of one name in two roots: caught up with together, nothing is heard of the first. */
  lemma SharedNameAcrossRoots(rootOf: Id -> string, blocks: Blocks, db: Db, x: Resource, y: Resource)
    requires x.kind == RULE && y.kind == RULE && x.root != y.root
    requires x.ident != [] && y.ident != [] && x.ident[|x.ident| - 1] == y.ident[|y.ident| - 1]
    requires DbHomed(rootOf, db) && IdOf(x) in db && IdOf(y) in db && db[IdOf(x)] == x && db[IdOf(y)] == y
    requires !Blocked(blocks, x)
    ensures var logs := [Entry(Create, Plain(x)), Entry(Create, Plain(y))];
      && Said(blocks, db, LogOf(logs, x.root), IdOf(x)) == Some(Word(IdOf(x), Some(x)))
      && Said(blocks, db, logs, IdOf(x)) == None && Overtaken(rootOf, db, logs, IdOf(x))
  {
    var e, f := Entry(Create, Plain(x)), Entry(Create, Plain(y));
    OwnOfTwo(e, f);
    OneRuleSays(blocks, db, x);
    SharedNameSaysNothing(blocks, db, x, y);
    assert LastCounted(db, [e, f], NameOf(IdOf(x))) == Some(f);
  }

  /** A reset that came with a rule, and a rule of its name in another root: the resetting root has no list. */
  lemma ResetWithoutList(db: Db, x: Resource, y: Resource)
    requires x.kind == RULE && y.kind == RULE && x.root != y.root
    requires x.ident != [] && y.ident != [] && x.ident[|x.ident| - 1] == y.ident[|y.ident| - 1]
    requires IdOf(x) in db && IdOf(y) in db
    ensures Unlisted(db, [Entry(Reset, Plain(x)), Entry(Create, Plain(y))], x.root)
  {
    var e, f := Entry(Reset, Plain(x)), Entry(Create, Plain(y));
    var logs := [e, f];
    assert LastCounted(db, logs, NameOf(IdOf(x))) == Some(f);
    assert e in logs && e.action == Reset;
  }
}
