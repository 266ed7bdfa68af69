/**
 What processing a log makes of one resource, in terms of the entries and of the identity attributes of the
 resources: which rule is heard under a shared name, and what the last word about any resource is.
 */
module LogLaws {
  import opened Keys
  import opened TreeMaker
  import opened TreeBuilder
  import opened TreeReplay
  import opened ActionLog

  /** The entry is about a rule, and the database has the rule exactly when the entry does not delete it. */
  ghost predicate IsHeeded(db: Db, e: Entry) {
    && e.obj.Plain? && e.obj.res.kind == "SecurityGroupRule"
    && (Id(e.obj.res.kind, e.obj.res.ident) in db <==> e.action != Delete)
  }

  /** The entry is heeded and its rule is called so: by its last identity attribute. */
  ghost predicate IsHeededAs(db: Db, e: Entry, name: string) {
    IsHeeded(db, e) && e.obj.res.ident != [] && e.obj.res.ident[|e.obj.res.ident| - 1] == name
  }

  /** Rules have identity attributes. */
  ghost predicate RulesAreNamed(logs: seq<Entry>) {
    forall e :: e in logs && e.obj.Plain? && e.obj.res.kind == "SecurityGroupRule" ==> e.obj.res.ident != []
  }

  lemma NamedBefore(logs: seq<Entry>)
    requires RulesAreNamed(logs) && logs != []
    ensures RulesAreNamed(logs[..|logs| - 1]) && RulesAreNamed([logs[|logs| - 1]])
  {
    assert logs == logs[..|logs| - 1] + [logs[|logs| - 1]];
  }

  lemma CountsIsHeeded(db: Db, e: Entry, name: string)
    requires RulesAreNamed([e])
    ensures Counts(db, e) <==> IsHeeded(db, e)
    ensures Counts(db, e) && NameOf(IdOf(e.obj.res)) == name <==> IsHeededAs(db, e, name)
  {
    assert e in [e];
  }

  /** No entry behind this one is heeded under the name. */
  ghost predicate LastAs(db: Db, logs: seq<Entry>, j: nat, name: string)
    requires j < |logs|
  {
    IsHeededAs(db, logs[j], name) && forall i :: j < i < |logs| ==> !IsHeededAs(db, logs[i], name)
  }

  lemma {:induction false} LastCountedIsLast(db: Db, logs: seq<Entry>, name: string, j: nat)
    requires RulesAreNamed(logs) && j < |logs| && LastAs(db, logs, j, name)
    ensures LastCounted(db, logs, name) == Some(logs[j])
    decreases |logs|
  {
    NamedBefore(logs);
    var before, e := logs[..|logs| - 1], logs[|logs| - 1];
    CountsIsHeeded(db, e, name);
    if j < |logs| - 1 {
      assert forall i :: j < i < |before| ==> before[i] == logs[i];
      LastCountedIsLast(db, before, name, j);
    }
  }

  lemma {:induction false} LastCountedAt(db: Db, logs: seq<Entry>, name: string) returns (j: nat)
    requires RulesAreNamed(logs) && LastCounted(db, logs, name).Some?
    ensures j < |logs| && LastAs(db, logs, j, name) && LastCounted(db, logs, name) == Some(logs[j])
  {
    NamedBefore(logs);
    var before, e := logs[..|logs| - 1], logs[|logs| - 1];
    CountsIsHeeded(db, e, name);
    if IsHeededAs(db, e, name) {
      j := |logs| - 1;
    } else {
      j := LastCountedAt(db, before, name);
      assert forall i :: j < i < |before| ==> before[i] == logs[i];
    }
  }

  /**
   Which rules wait to be replayed: those with an entry behind which no rule with the same last identity attribute
   is heeded. The other rules of the name are void.
   */
  lemma WaitsExactly(db: Db, logs: seq<Entry>, id: Id)
    requires RulesAreNamed(logs) && id.ident != []
    ensures Waits(db, logs, id) <==>
      && id.kind == "SecurityGroupRule"
      && exists j ::
           && 0 <= j < |logs| && LastAs(db, logs, j, id.ident[|id.ident| - 1])
           && logs[j].obj.res.ident == id.ident
  {
    var name := id.ident[|id.ident| - 1];
    if j :| 0 <= j < |logs| && LastAs(db, logs, j, name) && logs[j].obj.res.ident == id.ident {
      LastCountedIsLast(db, logs, name, j);
    }
    if Waits(db, logs, id) {
      var j := LastCountedAt(db, logs, name);
    }
  }

  /**
   Rules with different last identity attributes do not void one another: in a log in which no two rules share
   that attribute, each rule with a heeded entry is heard, and what is said of it is what the database holds, unless it
   is blocked.
   */
  lemma DifferentNamesAreHeard(blocks: Blocks, db: Db, logs: seq<Entry>, id: Id, e: Entry)
    requires forall i :: i in db ==> db[i].kind == i.kind && db[i].ident == i.ident
    requires forall x :: x in logs ==> x.action == Create || x.action == Delete
    requires forall x :: x in logs && x.obj.Plain? && x.obj.res.kind == "SecurityGroupRule" ==> x.obj.res.ident != []
    requires forall x, y ::
      && x in logs && x.obj.Plain? && x.obj.res.kind == "SecurityGroupRule"
      && y in logs && y.obj.Plain? && y.obj.res.kind == "SecurityGroupRule"
      && x.obj.res.ident[|x.obj.res.ident| - 1] == y.obj.res.ident[|y.obj.res.ident| - 1]
      ==> x.obj.res.ident == y.obj.res.ident
    requires id.kind == "SecurityGroupRule" && e in logs && e.obj.Plain?
    requires e.obj.res.kind == id.kind && e.obj.res.ident == id.ident && (id in db <==> e.action == Create)
    ensures Waits(db, logs, id)
    ensures Said(blocks, db, logs, id) ==
      Some(Word(id, if id in db && !blocks(db[id]) then Some(db[id]) else None))
  {
    assert RulesAreNamed(logs);
    var name := id.ident[|id.ident| - 1];
    assert IsHeededAs(db, e, name) && Id(e.obj.res.kind, e.obj.res.ident) == id;
    CountedHasLast(db, logs, e);
    var j := LastCountedAt(db, logs, name);
    var f := logs[j];
    assert f in logs && f.obj.res.ident == id.ident;
    WaitsExactly(db, logs, id);
    HeardIs(blocks, db, logs, id);
  }

  /** What is said of a rule that waits. */
  lemma HeardIs(blocks: Blocks, db: Db, logs: seq<Entry>, id: Id)
    requires forall i :: i in db ==> db[i].kind == i.kind && db[i].ident == i.ident
    requires forall x :: x in logs ==> x.action == Create || x.action == Delete
    requires Waits(db, logs, id)
    ensures Said(blocks, db, logs, id) ==
      Some(Word(id, if id in db && !blocks(db[id]) then Some(db[id]) else None))
  {
    LastCountedIsThere(db, logs, NameOf(id));
  }

  /** A resource of another kind is never void, and the last entry about it decides, or a status that still finds it. */
  lemma OthersAreHeard(blocks: Blocks, db: Db, logs: seq<Entry>, e: Entry, id: Id)
    requires id.kind != "SecurityGroupRule" && e.action != Skip
    ensures !Voided(db, logs, id) && !Waits(db, logs, id) && Said(blocks, db, [], id) == None
    ensures Said(blocks, db, logs + [e], id) ==
      if e.obj.Plain? && e.obj.res.kind == id.kind && e.obj.res.ident == id.ident then
        Some(Word(id, if e.action == Create then Some(e.obj.res) else None))
      else if e.obj.Status? && e.obj.parent == id && e.action == Create && id in db &&
              db[id].root == e.obj.resourceRoot && db[id].sync then Some(Word(id, Some(db[id])))
      else Said(blocks, db, logs, id)
  {
    assert (logs + [e])[..|logs|] == logs;
  }

  /** A rule is not heard of by entries of its own that are void: only by a status that still finds it. */
  lemma VoidRuleHears(blocks: Blocks, db: Db, logs: seq<Entry>, e: Entry, id: Id)
    requires id.kind == "SecurityGroupRule" && e.action != Skip && !Waits(db, logs + [e], id)
    ensures Said(blocks, db, logs + [e], id) ==
      if e.obj.Status? && e.obj.parent == id && e.action == Create && id in db &&
         db[id].root == e.obj.resourceRoot && db[id].sync then Some(Word(id, Some(db[id])))
      else LastPlain(db, logs, id)
  {
    assert (logs + [e])[..|logs|] == logs;
  }

  /** No two rules of the log share their last identity attribute, and no status in it is of a blocked rule. */
  ghost predicate NamesDiffer(blocks: Blocks, db: Db, logs: seq<Entry>) {
    && (forall x, y ::
          && x in logs && x.obj.Plain? && x.obj.res.kind == "SecurityGroupRule"
          && y in logs && y.obj.Plain? && y.obj.res.kind == "SecurityGroupRule"
          ==>
            && x.obj.res.ident != [] && y.obj.res.ident != []
            && (x.obj.res.ident[|x.obj.res.ident| - 1] == y.obj.res.ident[|y.obj.res.ident| - 1] ==>
                  x.obj.res.ident == y.obj.res.ident))
    && forall e :: e in logs && e.obj.Status? && e.obj.parent in db ==>
         !(db[e.obj.parent].kind == "SecurityGroupRule" && blocks(db[e.obj.parent]))
  }

  /** The entry of a rule that is in the database exactly when the entry creates it. */
  ghost predicate HeededRule(db: Db, logs: seq<Entry>, e: Entry) {
    && e in logs && e.obj.Plain? && e.obj.res.kind == "SecurityGroupRule"
    && (Id(e.obj.res.kind, e.obj.res.ident) in db <==> e.action == Create)
  }

  /** In such a log without resets, what is to be replayed says of a rule what the database holds, unless blocked. */
  lemma ProcessedHears(blocks: Blocks, db: Db, logs: seq<Entry>, order: seq<string>, e: Entry)
    requires GoodIds(db) && NoSkips(logs) && !HasReset(logs) && NamesDiffer(blocks, db, logs)
    requires AnOrder(order, SortedOut(blocks, db, logs).queues.Keys)
    requires HeededRule(db, logs, e)
    ensures var id := Id(e.obj.res.kind, e.obj.res.ident);
      LastWord(db, Emptied(SortedOut(blocks, db, logs), order), id) ==
        Some(Word(id, if id in db && !blocks(db[id]) then Some(db[id]) else None))
  {
    var id := Id(e.obj.res.kind, e.obj.res.ident);
    ProcessedSays(blocks, db, logs, order, id);
    DifferentNamesAreHeard(blocks, db, logs, id, e);
  }
}
