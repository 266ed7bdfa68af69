/**
 The log of committed changes that still have to reach the trees of a root, and what replaying it makes
 of the resources that the trees show.
 */
module ActionLog {
  import opened Keys
  import opened TreeMaker
  import opened TreeBuilder
  import opened TreeReplay

  datatype Action = Create | Delete | Reset | Skip

  datatype Entry = Entry(action: Action, obj: AimObject)

  type Db = map<Id, Resource>

  /** The one kind of resource that is looked up in the database again when its log is processed. */
  const RULE := "SecurityGroupRule"

  predicate IsRule(id: Id) {
    id.kind == RULE
  }

  function NameOf(id: Id): string {
    if id.ident == [] then "" else id.ident[|id.ident| - 1]
  }

  /** `blocks` tells the security group rules that are kept out of the trees. */
  type Blocks = Resource -> bool

  predicate Blocked(blocks: Blocks, r: Resource) {
    r.kind == RULE && blocks(r)
  }

  /** The resources that belong in the trees. */
  function Wanted(blocks: Blocks, db: Db): Applied {
    map id | id in db && db[id].sync && !Blocked(blocks, db[id]) :: db[id]
  }

  /** Rules have no attribute that excludes them from synchronisation. */
  ghost predicate WellKept(l: Layout, r: Resource) {
    l.Kept(r) && (r.kind == RULE ==> r.sync)
  }

  ghost predicate GoodDb(l: Layout, db: Db) {
    forall id :: id in db ==> IdOf(db[id]) == id && WellKept(l, db[id])
  }

  /** An object of this root; a fault is no resource to be synchronised. */
  ghost predicate WellKeptObject(l: Layout, o: AimObject) {
    o.Root() == l.root && (o.Plain? ==> WellKept(l, o.res))
  }

  function LookUp(db: Db): Parents {
    id => ResourceAt(db, id)
  }

  // ---------------------------------------------------------------- replaying

  /** What an entry says when the trees are built while the database holds this. */
  function Says(db: Db, e: Entry): Option<Word> {
    if e.action == Skip then None else WordOf(e.obj, e.action != Create, LookUp(db))
  }

  function Apply(db: Db, a: Applied, e: Entry): Applied {
    Heard(a, Says(db, e))
  }

  function Replay(db: Db, a: Applied, es: seq<Entry>): Applied {
    if es == [] then a else Apply(db, Replay(db, a, es[..|es| - 1]), es[|es| - 1])
  }

  predicate SaysOf(db: Db, e: Entry, id: Id) {
    Says(db, e).Some? && Says(db, e).value.id == id
  }

  /** The last word about a resource. */
  function LastWord(db: Db, es: seq<Entry>, id: Id): Option<Word> {
    if es == [] then None
    else if SaysOf(db, es[|es| - 1], id) then Says(db, es[|es| - 1])
    else LastWord(db, es[..|es| - 1], id)
  }

  function After(a: Applied, id: Id, word: Option<Word>): Option<Resource> {
    if word.None? then ResourceAt(a, id) else word.value.res
  }

  /** What becomes of a resource is what the last word about it says. */
  lemma {:induction false} ReplayIsLast(db: Db, a: Applied, es: seq<Entry>, id: Id)
    ensures ResourceAt(Replay(db, a, es), id) == After(a, id, LastWord(db, es, id))
  {
    if es == [] {
    } else {
      ReplayIsLast(db, a, es[..|es| - 1], id);
    }
  }

  lemma LastWordOneMore(db: Db, es: seq<Entry>, e: Entry, id: Id)
    ensures LastWord(db, es + [e], id) == if SaysOf(db, e, id) then Says(db, e) else LastWord(db, es, id)
  {
    assert (es + [e])[..|es|] == es;
  }

  lemma {:induction false} LastWordAppended(db: Db, es: seq<Entry>, more: seq<Entry>, id: Id)
    ensures LastWord(db, es + more, id) ==
      if LastWord(db, more, id).Some? then LastWord(db, more, id) else LastWord(db, es, id)
  {
    if more == [] {
      assert es + more == es;
    } else {
      LastWordAppended(db, es, more[..|more| - 1], id);
      assert (es + more)[..|es + more| - 1] == es + more[..|more| - 1];
    }
  }

  lemma {:induction false} NoWords(db: Db, es: seq<Entry>, id: Id)
    requires forall e :: e in es ==> e.action == Skip
    ensures LastWord(db, es, id) == None
  {
    if es == [] {
    } else {
      NoWords(db, es[..|es| - 1], id);
    }
  }

  // ---------------------------------------------------------------- what is logged

  predicate HasReset(logs: seq<Entry>) {
    exists e :: e in logs && e.action == Reset
  }

  predicate About(e: Entry, id: Id) {
    e.obj.Plain? && IdOf(e.obj.res) == id
  }

  /** The last entry of a resource itself. */
  function LastEntry(logs: seq<Entry>, id: Id): Option<Entry> {
    if logs == [] then None
    else if About(logs[|logs| - 1], id) then Some(logs[|logs| - 1])
    else LastEntry(logs[..|logs| - 1], id)
  }

  lemma LastEntryOneMore(logs: seq<Entry>, e: Entry, id: Id)
    ensures LastEntry(logs + [e], id) == if About(e, id) then Some(e) else LastEntry(logs, id)
  {
    assert (logs + [e])[..|logs|] == logs;
  }

  lemma {:induction false} LastEntryIsThere(logs: seq<Entry>, id: Id)
    requires LastEntry(logs, id).Some?
    ensures LastEntry(logs, id).value in logs && About(LastEntry(logs, id).value, id)
  {
    if About(logs[|logs| - 1], id) {
    } else {
      LastEntryIsThere(logs[..|logs| - 1], id);
    }
  }

  /** What the last entry of a resource says of the database. */
  predicate Tells(db: Db, e: Entry)
    requires e.obj.Plain?
  {
    var id := IdOf(e.obj.res);
    if IsRule(id) then (e.action == Create <==> id in db) && (e.action == Delete <==> id !in db)
    else
      && (e.action == Create <==> id in db && db[id].sync)
      && (e.action == Delete <==> !(id in db && db[id].sync))
      && (e.action == Create ==> db[id] == e.obj.res)
  }

  ghost predicate FaithfulAt(db: Db, last: Option<Entry>) {
    last.Some? ==> last.value.obj.Plain? && Tells(db, last.value)
  }

  /** Without a reset on its way, the last entry of every resource tells what the database holds. */
  ghost predicate Faithful(db: Db, logs: seq<Entry>) {
    forall id {:trigger LastEntry(logs, id)} :: FaithfulAt(db, LastEntry(logs, id))
  }

  /** What no entry is about is in the trees as it is in the database, unless it was lost before. */
  ghost predicate UpToDate(blocks: Blocks, db: Db, logs: seq<Entry>, a: Applied, lost: set<Id>) {
    forall id {:trigger LastEntry(logs, id)} :: LastEntry(logs, id).None? && id !in lost ==> Right(blocks, db, a, id)
  }

  predicate Right(blocks: Blocks, db: Db, a: Applied, id: Id) {
    ResourceAt(a, id) == ResourceAt(Wanted(blocks, db), id)
  }

  /** Either a reset is on its way, or the log tells what the trees lack. */
  ghost predicate InStep(blocks: Blocks, db: Db, logs: seq<Entry>, a: Applied, lost: set<Id>) {
    HasReset(logs) || (Faithful(db, logs) && UpToDate(blocks, db, logs, a, lost))
  }

  /** The change of one object in the database; statuses and faults have tables of their own. */
  function Changed(db: Db, o: AimObject, delete: bool): Db {
    if !o.Plain? then db else if delete then db - {IdOf(o.res)} else db[IdOf(o.res) := o.res]
  }

  function ActionFor(o: AimObject, delete: bool): Action {
    if !delete && (o.Plain? ==> o.res.sync) then Create else Delete
  }

  /** A log may hold this many entries of a root before it is replaced by a reset. */
  const MAX_EVENTS_PER_ROOT: nat := 10000

  /** The log with one more change: nothing is added behind a reset, and a full log ends with one. */
  function Logged(logs: seq<Entry>, o: AimObject, delete: bool): seq<Entry> {
    if HasReset(logs) then logs
    else logs + [Entry(if |logs| >= MAX_EVENTS_PER_ROOT then Reset else ActionFor(o, delete), o)]
  }

  lemma ResetMore(es: seq<Entry>, e: Entry)
    ensures HasReset(es + [e]) <==> HasReset(es) || e.action == Reset
  {
    if HasReset(es) {
      var x :| x in es && x.action == Reset;
      assert x in es + [e];
    }
    assert e in es + [e];
  }

  lemma ChangeKeepsStep(l: Layout, blocks: Blocks, db: Db, logs: seq<Entry>, a: Applied, lost: set<Id>, o: AimObject,
                        delete: bool)
    requires GoodDb(l, db) && WellKeptObject(l, o) && InStep(blocks, db, logs, a, lost)
    ensures GoodDb(l, Changed(db, o, delete))
    ensures InStep(blocks, Changed(db, o, delete), Logged(logs, o, delete), a, lost)
  {
    var db', logs' := Changed(db, o, delete), Logged(logs, o, delete);
    if !HasReset(logs) {
      ResetMore(logs, logs'[|logs|]);
      if !HasReset(logs') {
        forall id ensures FaithfulAt(db', LastEntry(logs', id)) {
          FaithfulMore(db, logs, o, delete, id);
        }
        forall id | LastEntry(logs', id).None? && id !in lost ensures Right(blocks, db', a, id) {
          LastEntryOneMore(logs, logs'[|logs|], id);
        }
      }
    }
  }

  lemma FaithfulMore(db: Db, logs: seq<Entry>, o: AimObject, delete: bool, id: Id)
    requires Faithful(db, logs) && (o.Plain? && o.res.kind == RULE ==> o.res.sync)
    ensures FaithfulAt(Changed(db, o, delete), LastEntry(logs + [Entry(ActionFor(o, delete), o)], id))
  {
    var e := Entry(ActionFor(o, delete), o);
    LastEntryOneMore(logs, e, id);
    if !About(e, id) {
      assert FaithfulAt(db, LastEntry(logs, id));
      if LastEntry(logs, id).Some? {
        LastEntryIsThere(logs, id);
      }
    }
  }

  // ---------------------------------------------------------------- processing the log

  predicate OfRule(e: Entry) {
    e.obj.Plain? && IsRule(IdOf(e.obj.res))
  }

  /** What is made of one entry: rules are taken from the database, and their entries may be void. */
  function Resolved(blocks: Blocks, db: Db, e: Entry): (x: Entry)
    ensures OfRule(e) && (forall id :: id in db ==> IdOf(db[id]) == id) ==>
      OfRule(x) && IdOf(x.obj.res) == IdOf(e.obj.res)
  {
    if !OfRule(e) then e else
    var id := IdOf(e.obj.res);
    if id in db then
      if e.action == Delete then e.(action := Skip)
      else if Blocked(blocks, db[id]) then Entry(Delete, Plain(db[id])) else Entry(e.action, Plain(db[id]))
    else if e.action != Delete then e.(action := Skip) else e
  }

  /** The entry of a rule counts when the database agrees with it. */
  predicate Counts(db: Db, e: Entry) {
    OfRule(e) && (IdOf(e.obj.res) in db <==> e.action != Delete)
  }

  /** Rules wait in one list per name, and only the last one of a list is to be replayed. */
  type Queues = map<string, seq<Entry>>

  datatype Sorting = Sorting(plain: seq<Entry>, queues: Queues)

  function Enqueue(q: Queues, e: Entry): Queues
    requires e.obj.Plain?
  {
    var n := NameOf(IdOf(e.obj.res));
    var list := if n in q then q[n] else [];
    var voided := if list == [] then [] else list[|list| - 1 := list[|list| - 1].(action := Skip)];
    q[n := voided + [e]]
  }

  /** One more entry: a rule that counts joins the list of its name, anything else the plain list. */
  function SortOne(blocks: Blocks, db: Db, s: Sorting, e: Entry): Sorting {
    var x := Resolved(blocks, db, e);
    if OfRule(e) && x.action != Skip then s.(queues := Enqueue(s.queues, x)) else s.(plain := s.plain + [x])
  }

  /** What is made of a whole log. */
  function SortedOut(blocks: Blocks, db: Db, logs: seq<Entry>): Sorting {
    if logs == [] then Sorting([], map[])
    else SortOne(blocks, db, SortedOut(blocks, db, logs[..|logs| - 1]), logs[|logs| - 1])
  }

  /** The entries to replay: first the plain ones, then the lists, in some order of the names. */
  function Emptied(s: Sorting, order: seq<string>): seq<Entry>
    requires forall n :: n in order ==> n in s.queues
  {
    if order == [] then s.plain else Emptied(s, order[..|order| - 1]) + s.queues[order[|order| - 1]]
  }

  /** Every name once. */
  ghost predicate AnOrder(order: seq<string>, names: set<string>) {
    (forall i, j :: 0 <= i < j < |order| ==> order[i] != order[j]) && forall n :: n in order <==> n in names
  }

  lemma OrderOneMore(order: seq<string>, names: set<string>, n: string)
    requires AnOrder(order, names) && n !in names
    ensures AnOrder(order + [n], names + {n})
  {
    forall i | 0 <= i < |order| ensures order[i] != n {
      assert order[i] in order;
    }
  }

  /** The last entry that counts of any rule with this name. */
  function LastCounted(db: Db, logs: seq<Entry>, n: string): Option<Entry> {
    if logs == [] then None
    else if Counts(db, logs[|logs| - 1]) && NameOf(IdOf(logs[|logs| - 1].obj.res)) == n then Some(logs[|logs| - 1])
    else LastCounted(db, logs[..|logs| - 1], n)
  }

  lemma {:induction false} LastCountedIsThere(db: Db, logs: seq<Entry>, n: string)
    requires LastCounted(db, logs, n).Some?
    ensures var e := LastCounted(db, logs, n).value; e in logs && Counts(db, e) && NameOf(IdOf(e.obj.res)) == n
  {
    var e := logs[|logs| - 1];
    if Counts(db, e) && NameOf(IdOf(e.obj.res)) == n {
    } else {
      LastCountedIsThere(db, logs[..|logs| - 1], n);
    }
  }

  lemma {:induction false} CountedHasLast(db: Db, logs: seq<Entry>, e: Entry)
    requires e in logs && Counts(db, e)
    ensures LastCounted(db, logs, NameOf(IdOf(e.obj.res))).Some?
  {
    if logs[|logs| - 1] == e {
    } else {
      assert logs == logs[..|logs| - 1] + [logs[|logs| - 1]];
      CountedHasLast(db, logs[..|logs| - 1], e);
    }
  }

  /** Whether the last entry that counts under the name of this rule is about the rule itself. */
  predicate Waits(db: Db, logs: seq<Entry>, id: Id) {
    IsRule(id) && LastCounted(db, logs, NameOf(id)).Some? && About(LastCounted(db, logs, NameOf(id)).value, id)
  }

  /** Some entry about the rule counts. */
  ghost predicate Counted(db: Db, logs: seq<Entry>, id: Id) {
    exists e :: e in logs && About(e, id) && Counts(db, e)
  }

  /** The entry of the rule that counts is void, because a later one of its name is for another rule. */
  ghost predicate Voided(db: Db, logs: seq<Entry>, id: Id) {
    IsRule(id) && Counted(db, logs, id) && !Waits(db, logs, id)
  }

  ghost predicate QueueIs(blocks: Blocks, db: Db, q: Queues, last: Option<Entry>, n: string) {
    if n !in q then last.None?
    else last.Some? && q[n] != [] && q[n][|q[n]| - 1] == Resolved(blocks, db, last.value) &&
         forall e :: e in q[n][..|q[n]| - 1] ==> e.action == Skip
  }

  /** Only processing makes entries void. */
  ghost predicate NoSkips(logs: seq<Entry>) {
    forall e :: e in logs ==> e.action != Skip
  }

  lemma NoSkipsBefore(logs: seq<Entry>)
    requires NoSkips(logs) && logs != []
    ensures NoSkips(logs[..|logs| - 1]) && logs[|logs| - 1].action != Skip
  {
    assert logs == logs[..|logs| - 1] + [logs[|logs| - 1]];
  }

  ghost predicate GoodIds(db: Db) {
    forall id :: id in db ==> IdOf(db[id]) == id
  }

  lemma VoidedAll(list: seq<Entry>)
    requires list != [] && forall e :: e in list[..|list| - 1] ==> e.action == Skip
    ensures forall e :: e in list[|list| - 1 := list[|list| - 1].(action := Skip)] ==> e.action == Skip
  {
    var more := list[|list| - 1 := list[|list| - 1].(action := Skip)];
    forall e | e in more ensures e.action == Skip {
      var i :| 0 <= i < |more| && more[i] == e;
      if i < |list| - 1 {
        assert list[..|list| - 1][i] == e;
      }
    }
  }

  lemma EnqueuedIs(blocks: Blocks, db: Db, q: Queues, e: Entry, last: Option<Entry>, n: string)
    requires GoodIds(db) && OfRule(e) && QueueIs(blocks, db, q, last, n)
    ensures var last' := if NameOf(IdOf(e.obj.res)) == n then Some(e) else last;
      QueueIs(blocks, db, Enqueue(q, Resolved(blocks, db, e)), last', n)
  {
    var x := Resolved(blocks, db, e);
    if NameOf(IdOf(e.obj.res)) == n {
      var list := Enqueue(q, x)[n];
      if n in q {
        VoidedAll(q[n]);
        assert list[..|list| - 1] == q[n][|q[n]| - 1 := q[n][|q[n]| - 1].(action := Skip)];
      }
    }
  }

  /** In the end a list holds its last entry that counts, and void ones before. */
  lemma {:induction false} QueuesAre(blocks: Blocks, db: Db, logs: seq<Entry>, n: string)
    requires GoodIds(db) && NoSkips(logs)
    ensures QueueIs(blocks, db, SortedOut(blocks, db, logs).queues, LastCounted(db, logs, n), n)
  {
    if logs == [] {
    } else {
      var before, e := logs[..|logs| - 1], logs[|logs| - 1];
      NoSkipsBefore(logs);
      QueuesAre(blocks, db, before, n);
      CountsIsResolved(blocks, db, e);
      if Counts(db, e) {
        EnqueuedIs(blocks, db, SortedOut(blocks, db, before).queues, e, LastCounted(db, before, n), n);
      }
    }
  }

  lemma CountsIsResolved(blocks: Blocks, db: Db, e: Entry)
    requires e.action != Skip
    ensures Counts(db, e) <==> OfRule(e) && Resolved(blocks, db, e).action != Skip
  {
  }

  /** What an entry says that does not wait in a list. */
  function PlainSays(db: Db, e: Entry): Option<Word> {
    if OfRule(e) then None else Says(db, e)
  }

  function LastPlain(db: Db, logs: seq<Entry>, id: Id): Option<Word> {
    if logs == [] then None
    else
      var said := PlainSays(db, logs[|logs| - 1]);
      if said.Some? && said.value.id == id then said else LastPlain(db, logs[..|logs| - 1], id)
  }

  lemma {:induction false} PlainIs(blocks: Blocks, db: Db, logs: seq<Entry>, id: Id)
    requires NoSkips(logs)
    ensures LastWord(db, SortedOut(blocks, db, logs).plain, id) == LastPlain(db, logs, id)
  {
    if logs == [] {
    } else {
      var before, e := logs[..|logs| - 1], logs[|logs| - 1];
      NoSkipsBefore(logs);
      PlainIs(blocks, db, before, id);
      CountsIsResolved(blocks, db, e);
      if !Counts(db, e) {
        LastWordOneMore(db, SortedOut(blocks, db, before).plain, Resolved(blocks, db, e), id);
      }
    }
  }

  /** The last word about a resource when the whole log is replayed. */
  function Said(blocks: Blocks, db: Db, logs: seq<Entry>, id: Id): Option<Word> {
    if Waits(db, logs, id) then Says(db, Resolved(blocks, db, LastCounted(db, logs, NameOf(id)).value))
    else LastPlain(db, logs, id)
  }

  lemma QueueSays(blocks: Blocks, db: Db, logs: seq<Entry>, n: string, id: Id)
    requires GoodIds(db) && NoSkips(logs) && n in SortedOut(blocks, db, logs).queues
    ensures LastWord(db, SortedOut(blocks, db, logs).queues[n], id) ==
      if NameOf(id) == n && Waits(db, logs, id) then Said(blocks, db, logs, id) else None
  {
    QueuesAre(blocks, db, logs, n);
    LastCountedIsThere(db, logs, n);
    var list := SortedOut(blocks, db, logs).queues[n];
    NoWords(db, list[..|list| - 1], id);
    CountsIsResolved(blocks, db, LastCounted(db, logs, n).value);
  }

  /** The lists emptied so far have said what they have to say, after what was said before. */
  lemma {:induction false} EmptiedWords(blocks: Blocks, db: Db, logs: seq<Entry>, plain: seq<Entry>, order: seq<string>,
                                        id: Id)
    requires GoodIds(db) && NoSkips(logs) && (forall n :: n in order ==> n in SortedOut(blocks, db, logs).queues.Keys)
    ensures LastWord(db, Emptied(Sorting(plain, SortedOut(blocks, db, logs).queues), order), id) ==
      if NameOf(id) in order && Waits(db, logs, id) then Said(blocks, db, logs, id) else LastWord(db, plain, id)
  {
    var s := Sorting(plain, SortedOut(blocks, db, logs).queues);
    if order == [] {
    } else {
      var before, n := order[..|order| - 1], order[|order| - 1];
      assert order == before + [n];
      EmptiedWords(blocks, db, logs, plain, before, id);
      QueueSays(blocks, db, logs, n, id);
      LastWordAppended(db, Emptied(s, before), s.queues[n], id);
      if Waits(db, logs, id) {
        WaitsSays(blocks, db, logs, id);
      }
    }
  }

  lemma EmptiedSays(blocks: Blocks, db: Db, logs: seq<Entry>, order: seq<string>, id: Id)
    requires GoodIds(db) && NoSkips(logs) && (forall n :: n in order ==> n in SortedOut(blocks, db, logs).queues.Keys)
    ensures LastWord(db, Emptied(SortedOut(blocks, db, logs), order), id) ==
      if NameOf(id) in order && Waits(db, logs, id) then Said(blocks, db, logs, id) else LastPlain(db, logs, id)
  {
    PlainIs(blocks, db, logs, id);
    EmptiedWords(blocks, db, logs, SortedOut(blocks, db, logs).plain, order, id);
  }

  /** What a waiting rule says is what belongs in the trees. */
  lemma WaitsSays(blocks: Blocks, db: Db, logs: seq<Entry>, id: Id)
    requires GoodIds(db) && NoSkips(logs) && Waits(db, logs, id)
    ensures Said(blocks, db, logs, id).Some? && Said(blocks, db, logs, id).value.id == id
  {
    LastCountedIsThere(db, logs, NameOf(id));
    CountsIsResolved(blocks, db, LastCounted(db, logs, NameOf(id)).value);
  }

  /** Whatever the order in which the lists are emptied, the last words are the same. */
  lemma ProcessedSays(blocks: Blocks, db: Db, logs: seq<Entry>, order: seq<string>, id: Id)
    requires GoodIds(db) && NoSkips(logs) && AnOrder(order, SortedOut(blocks, db, logs).queues.Keys)
    ensures LastWord(db, Emptied(SortedOut(blocks, db, logs), order), id) == Said(blocks, db, logs, id)
  {
    EmptiedSays(blocks, db, logs, order, id);
    if Waits(db, logs, id) {
      QueuesAre(blocks, db, logs, NameOf(id));
    }
  }

  // ---------------------------------------------------------------- when replaying the log is right

  /** Some status of this resource was created or updated. */
  ghost predicate HasStatus(logs: seq<Entry>, root: string, id: Id) {
    exists e :: e in logs && e.action == Create && e.obj.Status? && e.obj.parent == id && e.obj.resourceRoot == root
  }

  /** The root that all objects of the log are of. */
  ghost predicate OfRoot(l: Layout, logs: seq<Entry>) {
    forall e :: e in logs ==> WellKeptObject(l, e.obj)
  }

  ghost predicate Ordinary(logs: seq<Entry>) {
    forall e :: e in logs ==> e.action == Create || e.action == Delete
  }

  lemma StatusSays(l: Layout, db: Db, e: Entry)
    requires GoodDb(l, db) && e.obj.Status? && e.obj.resourceRoot == l.root && e.action != Skip
    ensures Says(db, e) ==
      var id := e.obj.parent;
      if e.action == Create && id in db && db[id].sync then Some(Word(id, Some(db[id]))) else None
  {
  }

  /** The plain entries say of a rule what its statuses say, and of anything else what its last entry says. */
  lemma {:induction false} PlainSaysRight(l: Layout, db: Db, logs: seq<Entry>, id: Id)
    requires GoodDb(l, db) && OfRoot(l, logs) && Ordinary(logs) && FaithfulAt(db, LastEntry(logs, id))
    ensures var shown := if id in db && db[id].sync then Some(db[id]) else None;
      if IsRule(id) then
        LastPlain(db, logs, id) == if HasStatus(logs, l.root, id) && shown.Some? then Some(Word(id, shown)) else None
      else if LastEntry(logs, id).Some? || (HasStatus(logs, l.root, id) && shown.Some?) then
        LastPlain(db, logs, id) == Some(Word(id, shown))
      else LastPlain(db, logs, id) == None
  {
    if logs == [] {
    } else {
      var before, e := logs[..|logs| - 1], logs[|logs| - 1];
      assert logs == before + [e] && e in logs;
      StatusMore(before, e, l.root, id);
      if e.obj.Status? {
        StatusSays(l, db, e);
      }
      if !(About(e, id) && !IsRule(id)) {
        if About(e, id) {
          PlainOfRule(l, db, before, id);
        } else {
          PlainSaysRight(l, db, before, id);
        }
      }
    }
  }

  lemma StatusMore(logs: seq<Entry>, e: Entry, root: string, id: Id)
    ensures HasStatus(logs + [e], root, id) <==>
      HasStatus(logs, root, id) ||
        (e.action == Create && e.obj.Status? && e.obj.parent == id && e.obj.resourceRoot == root)
  {
    if HasStatus(logs, root, id) {
      var x :| x in logs && x.action == Create && x.obj.Status? && x.obj.parent == id && x.obj.resourceRoot == root;
      assert x in logs + [e];
    }
    assert e in logs + [e];
  }

  lemma {:induction false} PlainOfRule(l: Layout, db: Db, logs: seq<Entry>, id: Id)
    requires GoodDb(l, db) && OfRoot(l, logs) && Ordinary(logs) && IsRule(id)
    ensures LastPlain(db, logs, id) ==
      if HasStatus(logs, l.root, id) && id in db && db[id].sync then Some(Word(id, Some(db[id]))) else None
  {
    if logs == [] {
    } else {
      var before, e := logs[..|logs| - 1], logs[|logs| - 1];
      assert logs == before + [e] && e in logs;
      StatusMore(before, e, l.root, id);
      if e.obj.Status? {
        StatusSays(l, db, e);
      }
      PlainOfRule(l, db, before, id);
    }
  }

  /** Nothing is heard of a rule whose entry is void, or that an earlier log has lost. */
  ghost predicate Unheard(db: Db, logs: seq<Entry>, root: string, lost: set<Id>, id: Id) {
    && (Voided(db, logs, id) || (id in lost && LastEntry(logs, id).None?))
    && !(HasStatus(logs, root, id) && id in db && db[id].sync)
  }

  /** A blocked rule is shown on account of its status, as no entry of its own comes after. */
  ghost predicate Exposed(blocks: Blocks, db: Db, logs: seq<Entry>, root: string, id: Id) {
    id in db && Blocked(blocks, db[id]) && !Waits(db, logs, id) && HasStatus(logs, root, id)
  }

  /**
   What replaying a processed log makes of one resource is what belongs in the trees, except that an
   unheard one stays as it was and an exposed one is shown.
   */
  lemma RightExactly(l: Layout, blocks: Blocks, db: Db, logs: seq<Entry>, a: Applied, lost: set<Id>, id: Id)
    requires GoodDb(l, db) && OfRoot(l, logs) && Ordinary(logs) && Faithful(db, logs)
    requires UpToDate(blocks, db, logs, a, lost)
    ensures After(a, id, Said(blocks, db, logs, id)) == ResourceAt(Wanted(blocks, db), id) <==>
      NotMissed(blocks, db, logs, l.root, a, lost, id)
  {
    assert FaithfulAt(db, LastEntry(logs, id));
    PlainSaysRight(l, db, logs, id);
    if Waits(db, logs, id) {
      WaitingIsRight(l, blocks, db, logs, id);
    } else if LastEntry(logs, id).Some? {
      LastEntryIsThere(logs, id);
    } else if Voided(db, logs, id) {
      CountedIsEntered(db, logs, id);
    }
  }

  lemma WaitingIsRight(l: Layout, blocks: Blocks, db: Db, logs: seq<Entry>, id: Id)
    requires GoodDb(l, db) && Ordinary(logs) && Waits(db, logs, id)
    ensures Said(blocks, db, logs, id) == Some(Word(id, ResourceAt(Wanted(blocks, db), id)))
    ensures LastEntry(logs, id).Some?
  {
    LastCountedIsThere(db, logs, NameOf(id));
    var e := LastCounted(db, logs, NameOf(id)).value;
    assert Counted(db, logs, id);
    CountedIsEntered(db, logs, id);
  }

  lemma CountedIsEntered(db: Db, logs: seq<Entry>, id: Id)
    requires Counted(db, logs, id)
    ensures LastEntry(logs, id).Some?
  {
    var e :| e in logs && About(e, id) && Counts(db, e);
    EnteredHasLast(logs, e, id);
  }

  lemma {:induction false} EnteredHasLast(logs: seq<Entry>, e: Entry, id: Id)
    requires e in logs && About(e, id)
    ensures LastEntry(logs, id).Some?
  {
    if logs[|logs| - 1] == e {
    } else {
      assert logs == logs[..|logs| - 1] + [logs[|logs| - 1]];
      EnteredHasLast(logs[..|logs| - 1], e, id);
    }
  }

  lemma SameEverywhere(a: Applied, b: Applied)
    ensures a == b <==> forall id :: ResourceAt(a, id) == ResourceAt(b, id)
  {
    if forall id :: ResourceAt(a, id) == ResourceAt(b, id) {
      forall id ensures id in a <==> id in b {
        assert ResourceAt(a, id) == ResourceAt(b, id);
      }
      forall id | id in a ensures a[id] == b[id] {
        assert ResourceAt(a, id) == ResourceAt(b, id);
      }
    }
  }

  /** No rule is lost to another one of its name that the trees lack, and no blocked one is shown for its status. */
  ghost predicate NothingMissed(blocks: Blocks, db: Db, logs: seq<Entry>, root: string, a: Applied, lost: set<Id>) {
    forall id :: NotMissed(blocks, db, logs, root, a, lost, id)
  }

  ghost predicate NotMissed(blocks: Blocks, db: Db, logs: seq<Entry>, root: string, a: Applied, lost: set<Id>, id: Id) {
    !Exposed(blocks, db, logs, root, id) && (Unheard(db, logs, root, lost, id) ==> Right(blocks, db, a, id))
  }

  /**
   Exactly when replaying a log without reset is right, whatever the order of its lists: every rule
   whose entry is void on account of another rule of its name is already shown as the database wants
   it, or shown again for its status; and no blocked rule is shown for its status.
   */
  lemma ReplayIsWantedExactly(l: Layout, blocks: Blocks, db: Db, logs: seq<Entry>, order: seq<string>, a: Applied,
                              lost: set<Id>)
    requires GoodDb(l, db) && OfRoot(l, logs) && Ordinary(logs) && Faithful(db, logs)
    requires UpToDate(blocks, db, logs, a, lost)
    requires AnOrder(order, SortedOut(blocks, db, logs).queues.Keys)
    ensures Replay(db, a, Emptied(SortedOut(blocks, db, logs), order)) == Wanted(blocks, db) <==>
      NothingMissed(blocks, db, logs, l.root, a, lost)
  {
    var b, w := Replay(db, a, Emptied(SortedOut(blocks, db, logs), order)), Wanted(blocks, db);
    forall id ensures ResourceAt(b, id) == ResourceAt(w, id) <==> NotMissed(blocks, db, logs, l.root, a, lost, id) {
      ReplayIsLast(db, a, Emptied(SortedOut(blocks, db, logs), order), id);
      ProcessedSays(blocks, db, logs, order, id);
      RightExactly(l, blocks, db, logs, a, lost, id);
    }
    SameEverywhere(b, w);
  }

  /** Entries of rules with the same last identity attribute. */
  predicate SameName(e: Entry, f: Entry) {
    && e.obj.Plain? && e.obj.res.kind == "SecurityGroupRule" && f.obj.Plain? && f.obj.res.kind == "SecurityGroupRule"
    && var x, y := e.obj.res.ident, f.obj.res.ident;
       (if x == [] then "" else x[|x| - 1]) == if y == [] then "" else y[|y| - 1]
  }

  /** Rules that the log names have names of their own, and no status is of a blocked rule. */
  ghost predicate UniqueNames(blocks: Blocks, db: Db, logs: seq<Entry>, root: string) {
    && (forall e, f :: e in logs && f in logs && SameName(e, f) ==> IdOf(e.obj.res) == IdOf(f.obj.res))
    && forall id :: id in db && Blocked(blocks, db[id]) ==> !HasStatus(logs, root, id)
  }

  /** With names of their own, no rule is lost. */
  lemma UniqueNamesMissNothing(blocks: Blocks, db: Db, logs: seq<Entry>, root: string, a: Applied)
    requires UniqueNames(blocks, db, logs, root)
    ensures NothingMissed(blocks, db, logs, root, a, {})
  {
    forall id ensures NotMissed(blocks, db, logs, root, a, {}, id) {
      if Voided(db, logs, id) {
        VoidedSharesName(db, logs, id);
      }
    }
  }

  lemma VoidedSharesName(db: Db, logs: seq<Entry>, id: Id)
    requires Voided(db, logs, id)
    ensures exists e, f ::
      e in logs && f in logs && SameName(e, f) && IdOf(e.obj.res) == id && IdOf(f.obj.res) != id
  {
    var e :| e in logs && About(e, id) && Counts(db, e);
    CountedHasLast(db, logs, e);
    LastCountedIsThere(db, logs, NameOf(id));
    var f := LastCounted(db, logs, NameOf(id)).value;
    assert f in logs && SameName(e, f) && !About(f, id);
  }

  /** Two new rules of one name: the entry of the first is void and nothing is heard of it. */
  lemma SharedNameIsMissed(blocks: Blocks, root: string, db: Db, x: Resource, y: Resource)
    requires x.kind == RULE && y.kind == RULE && IdOf(x) != IdOf(y)
    requires x.ident != [] && y.ident != [] && x.ident[|x.ident| - 1] == y.ident[|y.ident| - 1]
    requires IdOf(x) in db && IdOf(y) in db && db[IdOf(x)] == x && x.sync && !Blocked(blocks, x)
    ensures !NotMissed(blocks, db, [Entry(Create, Plain(x)), Entry(Create, Plain(y))], root, map[], {}, IdOf(x))
  {
    var logs := [Entry(Create, Plain(x)), Entry(Create, Plain(y))];
    assert logs[0] in logs && About(logs[0], IdOf(x)) && Counts(db, logs[0]);
    assert LastCounted(db, logs, NameOf(IdOf(x))) == Some(logs[1]);
    assert Voided(db, logs, IdOf(x)) && !HasStatus(logs, root, IdOf(x));
    assert !Right(blocks, db, map[], IdOf(x));
  }

  lemma SharedNameSaysNothing(blocks: Blocks, db: Db, x: Resource, y: Resource)
    requires x.kind == RULE && y.kind == RULE && IdOf(x) != IdOf(y)
    requires x.ident != [] && y.ident != [] && x.ident[|x.ident| - 1] == y.ident[|y.ident| - 1]
    requires IdOf(y) in db
    ensures Said(blocks, db, [Entry(Create, Plain(x)), Entry(Create, Plain(y))], IdOf(x)) == None
  {
    var logs := [Entry(Create, Plain(x)), Entry(Create, Plain(y))];
    assert LastCounted(db, logs, NameOf(IdOf(x))) == Some(logs[1]);
    assert logs[..1] == [Entry(Create, Plain(x))] && logs[..1][..0] == [];
    assert LastPlain(db, logs[..1], IdOf(x)) == None;
  }

  // ---------------------------------------------------------------- what the processed log is made of

  ghost predicate AllBuildable(l: Layout, es: seq<Entry>) {
    forall e :: e in es ==> l.Buildable(e.obj)
  }

  ghost predicate SortingBuildable(l: Layout, s: Sorting) {
    AllBuildable(l, s.plain) && forall n :: n in s.queues ==> AllBuildable(l, s.queues[n])
  }

  lemma SortOneBuildable(l: Layout, blocks: Blocks, db: Db, s: Sorting, e: Entry)
    requires GoodDb(l, db) && WellKeptObject(l, e.obj) && SortingBuildable(l, s)
    ensures SortingBuildable(l, SortOne(blocks, db, s, e))
  {
    var x := Resolved(blocks, db, e);
    assert l.Buildable(x.obj);
    if OfRule(e) && x.action != Skip {
      EnqueueBuildable(l, s.queues, x);
    }
  }

  lemma EnqueueBuildable(l: Layout, q: Queues, e: Entry)
    requires e.obj.Plain? && l.Buildable(e.obj) && forall n :: n in q ==> AllBuildable(l, q[n])
    ensures forall n :: n in Enqueue(q, e) ==> AllBuildable(l, Enqueue(q, e)[n])
  {
    var n := NameOf(IdOf(e.obj.res));
    var list := Enqueue(q, e)[n];
    forall x | x in list ensures l.Buildable(x.obj) {
      var i :| 0 <= i < |list| && list[i] == x;
      if i < |list| - 1 {
        assert q[n][i] in q[n] && x.obj == q[n][i].obj;
      }
    }
  }

  lemma {:induction false} SortedOutBuildable(l: Layout, blocks: Blocks, db: Db, logs: seq<Entry>)
    requires GoodDb(l, db) && OfRoot(l, logs)
    ensures SortingBuildable(l, SortedOut(blocks, db, logs))
  {
    if logs == [] {
    } else {
      var before, e := logs[..|logs| - 1], logs[|logs| - 1];
      assert logs == before + [e] && e in logs;
      SortedOutBuildable(l, blocks, db, before);
      SortOneBuildable(l, blocks, db, SortedOut(blocks, db, before), e);
    }
  }

  lemma {:induction false} EmptiedBuildable(l: Layout, s: Sorting, order: seq<string>)
    requires SortingBuildable(l, s) && forall n :: n in order ==> n in s.queues
    ensures AllBuildable(l, Emptied(s, order))
  {
    if order == [] {
    } else {
      EmptiedBuildable(l, s, order[..|order| - 1]);
      assert order[|order| - 1] in order;
    }
  }

  lemma {:induction false} ReplayAppended(db: Db, a: Applied, es: seq<Entry>, more: seq<Entry>)
    ensures Replay(db, a, es + more) == Replay(db, Replay(db, a, es), more)
  {
    if more == [] {
      assert es + more == es;
    } else {
      assert (es + more)[..|es + more| - 1] == es + more[..|more| - 1];
      ReplayAppended(db, a, es, more[..|more| - 1]);
    }
  }
}
