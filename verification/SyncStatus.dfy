/**
 Synchronisation status of resources. A status change spreads to the parent and to the subtree of a
 resource, by methods that call each other while the table they read is being updated.
 */
module SyncStatus {
  import opened Keys

  datatype Sync = NotAvailable | Pending | Synced | Failed

  /** A message is kept as what it is about. */
  datatype Message = NoMessage | Reported(text: string) | ParentInError(parent: Res)

  datatype Row = Row(sync: Sync, message: Message)

  type Statuses = map<Res, Row>

  const FRESH := Row(NotAvailable, NoMessage)
  const RETRY := Row(Pending, NoMessage)

  /** A resource is named by its class and its identity attributes. */
  datatype Res = Res(kind: string, ident: seq<string>)

  /**
   The resource classes. `parent` is the class tree, `arity` counts the identity attributes and
   `tracked` names the classes that can have a status.
   */
  datatype Schema = Schema(classes: seq<string>, parent: map<string, Option<string>>, arity: map<string, nat>,
                           depth: map<string, nat>, tracked: set<string>, root: Res -> string)
  {
    predicate ParentAt(c: string)
      requires c in parent
    {
      && c in arity && c in depth && c in classes
      && (parent[c].Some? ==>
        var p := parent[c].value;
        p in parent && p in arity && p in depth && arity[p] <= arity[c] && depth[p] + 1 == depth[c])
    }

    /** The class tree is a forest, and a class has the identity attributes of its parent class first. */
    ghost predicate Valid() {
      && (forall c {:trigger ParentAt(c)} :: c in parent ==> ParentAt(c))
      && tracked <= parent.Keys
      && forall r {:trigger ParentOf(r)} :: WellFormed(r) && ParentOf(r).Some? ==> root(ParentOf(r).value) == root(r)
    }

    predicate WellFormed(r: Res) {
      r.kind in parent && r.kind in arity && |r.ident| == arity[r.kind]
    }

    function ParentOf(r: Res): Option<Res> {
      if r.kind !in parent || parent[r.kind].None? then None else
      var p := parent[r.kind].value;
      if p in arity && arity[p] <= |r.ident| then Some(Res(p, r.ident[..arity[p]])) else None
    }

    function Depth(r: Res): nat {
      if r.kind in depth then depth[r.kind] else 0
    }

    lemma ParentIsAbove(r: Res)
      requires Valid() && WellFormed(r)
      ensures ParentOf(r).Some? <==> parent[r.kind].Some?
      ensures ParentOf(r).Some? ==>
        WellFormed(ParentOf(r).value) && Depth(ParentOf(r).value) + 1 == Depth(r) && root(ParentOf(r).value) == root(r)
      ensures ParentOf(r).Some? ==> parent[r.kind] == Some(ParentOf(r).value.kind) && ParentOf(r).value.ident <= r.ident
    {
      assert ParentAt(r.kind);
    }

    /** `top` is a proper ancestor of `r`. */
    ghost predicate Under(top: Res, r: Res)
      requires Valid() && WellFormed(r)
      decreases Depth(r)
    {
      ParentIsAbove(r);
      match ParentOf(r)
      case None => false
      case Some(p) => p == top || Under(top, p)
    }

    /** Class `d` is a proper descendant of class `c`. */
    ghost predicate Descends(c: string, d: string)
      requires Valid() && d in parent
      decreases if d in depth then depth[d] else 0
    {
      assert ParentAt(d);
      parent[d].Some? && (parent[d].value == c || Descends(c, parent[d].value))
    }

    lemma {:induction false} DescendantHasMoreAttributes(c: string, d: string)
      requires Valid() && d in parent && c in parent && Descends(c, d)
      ensures ParentAt(c) && ParentAt(d) && arity[c] <= arity[d] && depth[c] < depth[d]
      decreases if d in depth then depth[d] else 0
    {
      assert ParentAt(d) && ParentAt(c);
      if parent[d].value == c {
      } else {
        DescendantHasMoreAttributes(c, parent[d].value);
      }
    }

    /** Looking for descendant classes with the same leading attributes finds the descendants. */
    lemma {:induction false} SearchFindsDescendants(top: Res, r: Res)
      requires Valid() && WellFormed(r) && WellFormed(top)
      ensures Under(top, r) <==> Descends(top.kind, r.kind) && top.ident <= r.ident
      decreases Depth(r)
    {
      ParentIsAbove(r);
      if ParentOf(r).None? {
      } else {
        var p := ParentOf(r).value;
        SearchFindsDescendants(top, p);
        if p.kind == top.kind {
          if Descends(top.kind, p.kind) {
            DescendantHasMoreAttributes(top.kind, p.kind);
          }
          assert top.ident <= r.ident <==> p == top;
        } else if Descends(top.kind, p.kind) {
          DescendantHasMoreAttributes(top.kind, p.kind);
          assert ParentAt(r.kind);
          assert top.ident <= r.ident <==> top.ident <= p.ident;
        }
      }
    }

    /** An ancestor is the parent, whose names are the first of those of the resource, or an ancestor of the parent. */
    lemma UnderIsByParent(top: Res, r: Res)
      requires Valid() && WellFormed(r)
      ensures parent[r.kind].None? ==> !Under(top, r)
      ensures parent[r.kind].Some? ==> parent[r.kind].value in arity && arity[parent[r.kind].value] <= |r.ident|
      ensures parent[r.kind].Some? ==>
        var p := Res(parent[r.kind].value, r.ident[..arity[parent[r.kind].value]]);
        WellFormed(p) && (Under(top, r) <==> p == top || Under(top, p))
    {
      assert ParentAt(r.kind);
    }

    lemma {:induction false} UnderIsDeeper(top: Res, r: Res)
      requires Valid() && WellFormed(r) && Under(top, r)
      ensures WellFormed(top) && Depth(top) < Depth(r) && root(top) == root(r)
      decreases Depth(r)
    {
      ParentIsAbove(r);
      if ParentOf(r).value == top {
      } else {
        UnderIsDeeper(top, ParentOf(r).value);
      }
    }

    lemma {:induction false} UnderIsTransitive(a: Res, b: Res, c: Res)
      requires Valid() && WellFormed(b) && WellFormed(c) && Under(a, b) && Under(b, c)
      ensures Under(a, c)
      decreases Depth(c)
    {
      ParentIsAbove(c);
      if ParentOf(c).value == b {
      } else {
        UnderIsTransitive(a, b, ParentOf(c).value);
      }
    }

    /** The classes below class `c`. */
    ghost function Below(c: string): set<string>
      requires Valid()
    {
      set d | d in parent && Descends(c, d)
    }

    lemma {:induction false} DescendsFromChild(c: string, e: string, d: string)
      requires Valid() && e in parent && parent[e] == Some(c) && d in parent && Descends(e, d)
      ensures Descends(c, d)
      decreases if d in depth then depth[d] else 0
    {
      assert ParentAt(d);
      if parent[d].value == e {
      } else {
        DescendsFromChild(c, e, parent[d].value);
      }
    }

    lemma {:induction false} DescendsThroughChild(c: string, d: string) returns (e: string)
      requires Valid() && d in parent && Descends(c, d)
      ensures e in parent && parent[e] == Some(c) && (e == d || Descends(e, d))
      decreases if d in depth then depth[d] else 0
    {
      assert ParentAt(d);
      if parent[d].value == c {
        e := d;
      } else {
        e := DescendsThroughChild(c, parent[d].value);
      }
    }

    lemma ChildHasLessBelow(c: string, e: string)
      requires Valid() && e in parent && parent[e] == Some(c)
      ensures Below(e) < Below(c)
    {
      assert e in Below(c);
      if e in Below(e) {
        DescendantHasMoreAttributes(e, e);
      }
      forall d | d in Below(e) ensures d in Below(c) {
        DescendsFromChild(c, e, d);
      }
    }
  }

  /** The resources in the database, and what a call does to a status table over them. */
  datatype World = World(schema: Schema, resources: set<Res>) {

    ghost predicate Valid() {
      schema.Valid() && forall r :: r in resources && r.kind in schema.parent ==> schema.WellFormed(r)
    }

    /** Resources that can have a status row. */
    predicate Tracked(r: Res) {
      r in resources && r.kind in schema.tracked
    }

    ghost predicate Table(st: Statuses) {
      forall r :: r in st ==> Tracked(r)
    }

    lemma TrackedIsWellFormed(r: Res)
      requires Valid() && Tracked(r)
      ensures schema.WellFormed(r)
    {}

    ghost predicate Inside(top: Res, r: Res)
      requires Valid() && Tracked(r)
    {
      r == top || schema.Under(top, r)
    }

    predicate Failing(st: Statuses, r: Res) {
      r in st && st[r].sync == Failed
    }

    /** Resources whose status is not pending. */
    ghost function Unsettled(st: Statuses): set<Res> {
      set r | r in resources && Tracked(r) && !(r in st && st[r].sync == Pending)
    }

    /** Asking for the status of a resource creates the row. */
    function Touch(st: Statuses, r: Res): Statuses {
      if Tracked(r) && r !in st then st[r := FRESH] else st
    }

    function TouchParent(st: Statuses, r: Res): Statuses {
      match schema.ParentOf(r)
      case None => st
      case Some(p) => Touch(st, p)
    }

    /** The last of the unbroken chain of failed ancestors. */
    ghost function TopOfChain(st: Statuses, r: Res): (t: Res)
      requires Valid() && schema.WellFormed(r)
      decreases schema.Depth(r)
    {
      schema.ParentIsAbove(r);
      match schema.ParentOf(r)
      case Some(p) => if Failing(st, p) then TopOfChain(st, p) else r
      case None => r
    }

    /** Every failed resource of a subtree is pending again. */
    ghost function Sweep(st: Statuses, top: Res): Statuses
      requires Valid() && Table(st)
    {
      map r | r in resources && Tracked(r) && (r in st || Inside(top, r)) ::
        if r !in st then FRESH else if Failing(st, r) && Inside(top, r) then RETRY else st[r]
    }

    predicate Flips(st: Statuses, r: Res, top: bool)
      requires r in st
    {
      if top then st[r].sync != Pending else st[r].sync == Failed
    }

    /** What `set_resource_sync_pending` does. */
    ghost function PendingEffect(st: Statuses, r: Res, top: bool, cascade: bool): Statuses
      requires Valid() && Table(st)
    {
      if !Tracked(r) then st else
      var st0 := Touch(st, r);
      if !Flips(st0, r, top) then st0 else
      var st1 := st0[r := RETRY];
      var t := TopOfChain(st1, r);
      var st2 := TouchParent(st1, t);
      if cascade || t != r then Sweep(st2, t) else st2
    }

    /** What `set_resource_sync_error` does. */
    ghost function ErrorEffect(st: Statuses, r: Res, message: Message, top: bool): Statuses
      requires Valid() && Table(st)
    {
      if !Tracked(r) || Failing(st, r) then st else
      var st1 := st[r := Row(Failed, message)];
      if !top then st1 else
      map q | q in resources && Tracked(q) && (q in st1 || Inside(r, q)) ::
        if Inside(r, q) && !Failing(st1, q) then Row(Failed, ParentInError(r)) else st1[q]
    }

    /** The visited resources have been put in error because of `r`. */
    ghost predicate ErrorsAt(st: Statuses, st': Statuses, r: Res, visited: seq<Res>) {
      && (forall q :: q in st' <==> q in st || (Tracked(q) && q in visited))
      && forall q :: q in st' ==>
           st'[q] == if q in visited && !Failing(st, q) then Row(Failed, ParentInError(r)) else st[q]
    }

    lemma OneMoreError(st: Statuses, cur: Statuses, r: Res, visited: seq<Res>, child: Res)
      requires Valid() && Table(st) && Table(cur) && ErrorsAt(st, cur, r, visited)
      ensures ErrorsAt(st, ErrorEffect(cur, child, ParentInError(r), false), r, visited + [child])
    {
      assert forall q :: q in visited + [child] <==> q in visited || q == child;
    }

    lemma SubtreeInError(st: Statuses, st': Statuses, r: Res, message: Message, children: seq<Res>)
      requires Valid() && Table(st) && Table(st') && Tracked(r) && !Failing(st, r)
      requires ErrorsAt(st[r := Row(Failed, message)], st', r, children)
      requires forall q :: q in children <==> q in resources && schema.WellFormed(q) && schema.Under(r, q)
      ensures st' == ErrorEffect(st, r, message, true)
    {
      forall q | Tracked(q) && q != r ensures q in children <==> Inside(r, q) {
        TrackedIsWellFormed(q);
      }
      SameErrors(st, st', r, message, children);
    }

    lemma SameErrors(st: Statuses, st': Statuses, r: Res, message: Message, children: seq<Res>)
      requires Valid() && Table(st) && Table(st') && Tracked(r) && !Failing(st, r)
      requires ErrorsAt(st[r := Row(Failed, message)], st', r, children)
      requires forall q :: Tracked(q) && q != r ==> (q in children <==> Inside(r, q))
      ensures st' == ErrorEffect(st, r, message, true)
    {
      var effect := ErrorEffect(st, r, message, true);
      assert st'.Keys == effect.Keys;
      forall q | q in effect ensures effect[q] == st'[q] {
      }
    }

    /** What `set_resource_sync_synced` does. */
    ghost function SyncedEffect(st: Statuses, r: Res): Statuses {
      if Tracked(r) then st[r := Row(Synced, NoMessage)] else st
    }

    /** What `recover_root_errors` does. */
    ghost function RecoverEffect(st: Statuses, root: string): Statuses {
      map r | r in st :: if st[r].sync == Failed && schema.root(r) == root then RETRY else st[r]
    }

    lemma {:induction false} TopIsInside(st: Statuses, r: Res)
      requires Valid() && Table(st) && Tracked(r)
      ensures Tracked(TopOfChain(st, r)) && Inside(TopOfChain(st, r), r)
      ensures var t := TopOfChain(st, r);
        && (t == r || (schema.Under(t, r) && t in st && st[t].sync == Failed))
        && (schema.ParentOf(t).Some? ==>
              var p := schema.ParentOf(t).value; !(p in st && st[p].sync == Failed))
        && forall q :: Tracked(q) && Inside(t, q) && schema.Under(q, r) ==> q in st && st[q].sync == Failed
      decreases schema.Depth(r)
    {
      schema.ParentIsAbove(r);
      var t := TopOfChain(st, r);
      if schema.ParentOf(r).Some? && Failing(st, schema.ParentOf(r).value) {
        var p := schema.ParentOf(r).value;
        TopIsInside(st, p);
        if t != p {
          schema.UnderIsDeeper(t, p);
        }
      } else {
        forall q | Tracked(q) && Inside(r, q) ensures !schema.Under(q, r) {
          NotBothUnder(q, r);
        }
      }
    }

    lemma NotBothUnder(q: Res, r: Res)
      requires Valid() && Tracked(q) && Tracked(r) && Inside(r, q)
      ensures !schema.Under(q, r)
    {
      if schema.Under(q, r) {
        schema.UnderIsDeeper(q, r);
        if q != r {
          schema.UnderIsDeeper(r, q);
        }
      }
    }

    /** The chain above a resource does not depend on the status of what is not above it. */
    lemma {:induction false} TopLooksUp(st: Statuses, st': Statuses, r: Res)
      requires Valid() && schema.WellFormed(r)
      requires forall q :: schema.Depth(q) < schema.Depth(r) ==> (Failing(st, q) <==> Failing(st', q))
      ensures TopOfChain(st, r) == TopOfChain(st', r)
      decreases schema.Depth(r)
    {
      schema.ParentIsAbove(r);
      if schema.ParentOf(r).Some? && Failing(st, schema.ParentOf(r).value) {
        TopLooksUp(st, st', schema.ParentOf(r).value);
      }
    }

    /** Between two tables below `top`, rows were created and failed rows became pending; nothing else happened. */
    ghost predicate Advance(top: Res, st: Statuses, st': Statuses)
      requires Valid() && Table(st) && Table(st')
    {
      && st.Keys <= st'.Keys
      && forall r {:trigger st'[r]} :: r in st' ==>
        (if r !in st then Inside(top, r) && st'[r] == FRESH
         else st'[r] == st[r] || (Inside(top, r) && Failing(st, r) && st'[r] == RETRY))
    }

    lemma AdvanceIsTransitive(top: Res, a: Statuses, b: Statuses, c: Statuses)
      requires Valid() && Table(a) && Table(b) && Table(c)
      requires Advance(top, a, b) && Advance(top, b, c)
      ensures Advance(top, a, c)
    {
      forall r | r in c
        ensures if r !in a then Inside(top, r) && c[r] == FRESH
                else c[r] == a[r] || (Inside(top, r) && Failing(a, r) && c[r] == RETRY)
      {
        if r in b {
          assert b[r] == b[r];
        }
      }
    }

    lemma SweepAdvances(top: Res, t: Res, st: Statuses)
      requires Valid() && Table(st) && Tracked(t) && Tracked(top) && Inside(top, t)
      ensures Table(Sweep(st, t)) && Advance(top, st, Sweep(st, t))
    {
      forall r | Tracked(r) && Inside(t, r) ensures Inside(top, r) {
        if t != top && r != t {
          schema.UnderIsTransitive(top, t, r);
        }
      }
    }

    lemma TouchIsTable(st: Statuses, r: Res)
      requires Valid() && Table(st)
      ensures Table(Touch(st, r)) && Table(TouchParent(st, r))
    {}

    lemma EffectIsTable(st: Statuses, r: Res, top: bool, cascade: bool)
      requires Valid() && Table(st)
      ensures Table(PendingEffect(st, r, top, cascade))
    {}

    /** No call makes a pending resource anything else. */
    lemma EffectKeepsPending(st: Statuses, r: Res, top: bool, cascade: bool)
      requires Valid() && Table(st)
      ensures Unsettled(PendingEffect(st, r, top, cascade)) <= Unsettled(st)
    {
      var after := PendingEffect(st, r, top, cascade);
      forall q | q in st && st[q].sync == Pending ensures q in after && after[q].sync == Pending {
      }
    }

    /** Marking a failed resource and asking for the parent of the top of its chain only advances. */
    lemma RetryAdvances(top: Res, st: Statuses, c: Res, t: Res)
      requires Valid() && Table(st) && Tracked(top) && Tracked(c) && Tracked(t)
      requires Inside(top, c) && Inside(top, t) && Failing(st, c)
      requires schema.ParentOf(t).Some? ==> var p := schema.ParentOf(t).value; p in st || !Tracked(p) || Inside(top, p)
      ensures var st2 := TouchParent(st[c := RETRY], t);
        Table(st2) && Advance(top, st, st2) && c in st2 && !Failing(st2, c)
    {
    }

    /** Visiting one resource below `top` advances towards the sweep of `top` and settles it. */
    lemma ChildStep(top: Res, st: Statuses, c: Res)
      requires Valid() && Table(st) && Tracked(top) && Tracked(c)
      requires top in st && !Failing(st, top) && schema.Under(top, c)
      ensures var after := PendingEffect(st, c, false, false);
        Table(after) && Advance(top, st, after) && c in after && !Failing(after, c)
    {
      var st0 := Touch(st, c);
      if Failing(st0, c) {
        var st1 := st0[c := RETRY];
        var t := TopOfChain(st1, c);
        TopIsInside(st1, c);
        ChainStaysUnder(top, st1, c);
        var st2 := TouchParent(st1, t);
        schema.ParentIsAbove(t);
        RetryAdvances(top, st, c, t);
        SweepAdvances(top, t, st2);
        AdvanceIsTransitive(top, st, st2, Sweep(st2, t));
      }
    }

    /** A chain of failed ancestors that starts below a resource that has not failed ends below it. */
    lemma {:induction false} ChainStaysUnder(top: Res, st: Statuses, r: Res)
      requires Valid() && Table(st) && Tracked(top) && Tracked(r) && !Failing(st, top) && schema.Under(top, r)
      ensures Tracked(TopOfChain(st, r)) && schema.Under(top, TopOfChain(st, r))
      ensures schema.ParentOf(TopOfChain(st, r)).Some?
      ensures var p := schema.ParentOf(TopOfChain(st, r)).value; p == top || (Tracked(p) ==> schema.Under(top, p))
      decreases schema.Depth(r)
    {
      schema.ParentIsAbove(r);
      var p := schema.ParentOf(r).value;
      if Failing(st, p) {
        ChainStaysUnder(top, st, p);
      }
    }

    /** A table that advanced until nothing below `top` is failed or missing is the sweep. */
    lemma SettledIsSweep(top: Res, st: Statuses, st': Statuses)
      requires Valid() && Table(st) && Table(st') && Tracked(top)
      requires Advance(top, st, st') && top in st && !Failing(st, top)
      requires forall r :: Tracked(r) && schema.Under(top, r) ==> r in st' && !Failing(st', r)
      ensures st' == Sweep(st, top)
    {
      var swept := Sweep(st, top);
      forall r ensures r in st' <==> r in swept {
        if r in st' {
          assert st'[r] == st'[r];
        }
      }
      forall r | r in st' ensures st'[r] == swept[r] {
      }
    }

    /** After the parent has been visited, sweeping below the resource completes the effect. */
    lemma ParentStep(st: Statuses, r: Res, p: Res)
      requires Valid() && Table(st) && Tracked(r) && r in st && !Failing(st, r)
      requires schema.ParentOf(r) == Some(p)
      ensures var base := PendingEffect(st, p, false, true);
        var t := TopOfChain(st, r);
        && Table(base) && r in base && base[r] == st[r]
        && (t == r ==> base == TouchParent(st, t))
        && (t != r ==> base == Sweep(TouchParent(st, t), t) && Sweep(base, r) == base)
    {
      schema.ParentIsAbove(r);
      EffectIsTable(st, p, false, true);
      if Failing(st, p) {
        var st1 := st[p := RETRY];
        var t := TopOfChain(st, r);
        TopLooksUp(st, st1, p);
        TopIsInside(st, p);
        assert t == TopOfChain(st1, p);
        if t != p {
          schema.UnderIsDeeper(t, p);
        }
        assert schema.Under(t, r);
        TopSwept(st, t, p);
        SweptBelow(TouchParent(st, t), t, r);
      }
    }

    /** It makes no difference whether one of the failed resources is already pending when the sweep starts. */
    lemma TopSwept(st: Statuses, t: Res, p: Res)
      requires Valid() && Table(st) && Tracked(t) && Tracked(p) && Failing(st, p) && Inside(t, p)
      ensures Sweep(TouchParent(st[p := RETRY], t), t) == Sweep(TouchParent(st, t), t)
    {
      var a, b := TouchParent(st[p := RETRY], t), TouchParent(st, t);
      assert a == b[p := RETRY];
      assert Sweep(a, t).Keys == Sweep(b, t).Keys;
    }

    lemma SweptBelow(st: Statuses, t: Res, r: Res)
      requires Valid() && Table(st) && Tracked(t) && Tracked(r) && schema.Under(t, r)
      ensures Sweep(Sweep(st, t), r) == Sweep(st, t)
    {
      var swept := Sweep(st, t);
      forall q | Tracked(q) && Inside(r, q) ensures q in swept && !Failing(swept, q) {
        if q != r {
          schema.UnderIsTransitive(t, r, q);
        }
      }
      assert Sweep(swept, r).Keys == swept.Keys;
    }
  }

  class AimManager {
    const schema: Schema
    var resources: set<Res>
    var statuses: Statuses
    /** The child classes of each class; classes without a parent are under `None`. */
    var modelTree: map<Option<string>, seq<string>>

    ghost function Database(): World
      reads this`resources
    {
      World(schema, resources)
    }

    ghost predicate TreeAt(c: string)
      reads this`modelTree
    {
      c in schema.parent ==> schema.parent[c] in modelTree && c in modelTree[schema.parent[c]]
    }

    ghost predicate Valid()
      reads this
    {
      && Database().Valid() && Database().Table(statuses)
      && (forall c {:trigger TreeAt(c)} :: TreeAt(c))
      && (forall p, c :: p in modelTree && c in modelTree[p] ==> c in schema.parent && schema.parent[c] == p)
    }

    constructor (schema: Schema)
      requires schema.Valid()
      ensures Valid() && this.schema == schema && resources == {} && statuses == map[]
    {
      this.schema := schema;
      resources, statuses, modelTree := {}, map[], map[];
      new;
      for i := 0 to |schema.classes|
        invariant forall c :: c in schema.parent && c in schema.classes[..i] ==>
          schema.parent[c] in modelTree && c in modelTree[schema.parent[c]]
        invariant forall p, c :: p in modelTree && c in modelTree[p] ==> c in schema.parent && schema.parent[c] == p
        invariant resources == {} && statuses == map[]
      {
        var c := schema.classes[i];
        if c in schema.parent {
          var p := schema.parent[c];
          var siblings := if p in modelTree then modelTree[p] else [];
          modelTree := modelTree[p := siblings + [c]];
        }
        assert schema.classes[..i + 1] == schema.classes[..i] + [c];
      }
      assert schema.classes[..|schema.classes|] == schema.classes;
      forall c ensures TreeAt(c) {
        if c in schema.parent {
          assert schema.ParentAt(c);
        }
      }
    }

    /** The rows of a class with the given leading identity attributes, in no particular order. */
    method FindByIdentity(kind: string, ident: seq<string>) returns (found: seq<Res>)
      ensures forall r :: r in found <==> r in resources && r.kind == kind && ident <= r.ident
    {
      found := [];
      var left := resources;
      while left != {}
        invariant left <= resources
        invariant forall r :: r in found <==> r in resources - left && r.kind == kind && ident <= r.ident
      {
        var r :| r in left;
        if r.kind == kind && ident <= r.ident {
          found := found + [r];
        }
        left := left - {r};
      }
    }

    /** The resource is of one of these classes or below one, and has these identity attributes first. */
    ghost predicate FoundFor(kinds: seq<string>, ident: seq<string>, r: Res)
      requires schema.Valid()
      reads this`resources
    {
      && r in resources && r.kind in schema.parent && ident <= r.ident
      && exists e :: e in kinds && (r.kind == e || schema.Descends(e, r.kind))
    }

    lemma FoundForMore(kinds: seq<string>, kind: string, ident: seq<string>, r: Res)
      requires schema.Valid()
      ensures FoundFor(kinds + [kind], ident, r) <==>
        FoundFor(kinds, ident, r) ||
        (r in resources && r.kind in schema.parent && ident <= r.ident &&
          (r.kind == kind || schema.Descends(kind, r.kind)))
    {
      var more := kinds + [kind];
      if FoundFor(more, ident, r) {
        var e :| e in more && (r.kind == e || schema.Descends(e, r.kind));
        assert e in kinds || e == kind;
      }
      if FoundFor(kinds, ident, r) {
        var e :| e in kinds && (r.kind == e || schema.Descends(e, r.kind));
        assert e in more;
      }
      assert kind in more;
    }

    method GetSubtreeClasses(kind: string, ident: seq<string>) returns (found: seq<Res>)
      requires Valid()
      ensures forall r :: r in found <==>
        r in resources && r.kind in schema.parent && schema.Descends(kind, r.kind) && ident <= r.ident
      decreases schema.Below(kind)
    {
      found := [];
      if Some(kind) in modelTree {
        var children := modelTree[Some(kind)];
        for i := 0 to |children|
          invariant forall r :: r in found <==> FoundFor(children[..i], ident, r)
        {
          var child := children[i];
          schema.ChildHasLessBelow(kind, child);
          var own := FindByIdentity(child, ident);
          var below := GetSubtreeClasses(child, ident);
          found := found + own + below;
          assert children[..i + 1] == children[..i] + [child];
          forall r
            ensures FoundFor(children[..i + 1], ident, r) <==>
              FoundFor(children[..i], ident, r) || r in own || r in below
          {
            FoundForMore(children[..i], child, ident, r);
          }
        }
        assert children[..|children|] == children;
      }
      forall r ensures (r in found <==>
        r in resources && r.kind in schema.parent && schema.Descends(kind, r.kind) && ident <= r.ident)
      {
        if r in resources && r.kind in schema.parent && schema.Descends(kind, r.kind) && ident <= r.ident {
          var e := schema.DescendsThroughChild(kind, r.kind);
          assert TreeAt(e);
        }
        if r in found {
          var e :| e in modelTree[Some(kind)] && (r.kind == e || schema.Descends(e, r.kind));
          if r.kind != e {
            schema.DescendsFromChild(kind, e, r.kind);
          }
        }
      }
    }

    /** Every descendant of a resource. */
    method GetSubtree(top: Res) returns (found: seq<Res>)
      requires Valid() && schema.WellFormed(top)
      ensures forall r :: r in found <==> r in resources && schema.WellFormed(r) && schema.Under(top, r)
    {
      found := GetSubtreeClasses(top.kind, top.ident);
      forall r ensures (r in found <==> r in resources && schema.WellFormed(r) && schema.Under(top, r)) {
        if r in resources && r.kind in schema.parent {
          assert schema.WellFormed(r);
          schema.SearchFindsDescendants(top, r);
        }
      }
    }

    /** A resource is stored; one that does not have the identity attributes of its class cannot be. */
    method Create(r: Res)
      requires Valid()
      modifies this`resources
      ensures Valid()
      ensures resources ==
        if r.kind in schema.parent && !schema.WellFormed(r) then old(resources) else old(resources) + {r}
    {
      if r.kind !in schema.parent || schema.WellFormed(r) {
        resources := resources + {r};
      }
    }

    /** A resource goes, and its status with it. */
    method Delete(r: Res)
      requires Valid()
      modifies this`resources, this`statuses
      ensures Valid() && resources == old(resources) - {r} && statuses == old(statuses) - {r}
    {
      resources := resources - {r};
      statuses := statuses - {r};
    }

    /** The status of a resource, created when it is missing. */
    method GetStatus(r: Res) returns (status: Option<Row>)
      requires Valid()
      modifies this`statuses
      ensures Valid() && statuses == Database().Touch(old(statuses), r)
      ensures status.Some? <==> r in resources && r.kind in schema.tracked
      ensures status.Some? ==>
        statuses == old(statuses)[r := status.value] &&
        status.value == if r in old(statuses) then old(statuses)[r] else Row(NotAvailable, NoMessage)
      ensures status.None? ==> statuses == old(statuses)
    {
      Database().TouchIsTable(statuses, r);
      if r !in resources || r.kind !in schema.tracked {
        return None;
      }
      if r !in statuses {
        statuses := statuses[r := FRESH];
      }
      return Some(statuses[r]);
    }

    method SetResourceSync(r: Res, sync: Sync, message: Message, exclude: set<Sync>) returns (changed: bool)
      requires Valid()
      modifies this`statuses
      ensures Valid()
      ensures var was := if r in old(statuses) then old(statuses)[r] else Row(NotAvailable, NoMessage);
        && changed == (r in resources && r.kind in schema.tracked && was.sync !in exclude)
        && statuses ==
             if changed then old(statuses)[r := Row(sync, message)]
             else if r in resources && r.kind in schema.tracked then old(statuses)[r := was] else old(statuses)
    {
      var status := GetStatus(r);
      if status.Some? && status.value.sync !in exclude {
        statuses := statuses[r := Row(sync, message)];
        return true;
      }
      return false;
    }

    method SetResourceSyncSynced(r: Res)
      requires Valid()
      modifies this`statuses
      ensures Valid() && statuses == Database().SyncedEffect(old(statuses), r)
      ensures statuses ==
        if r in resources && r.kind in schema.tracked then old(statuses)[r := Row(Synced, NoMessage)]
        else old(statuses)
    {
      var _ := SetResourceSync(r, Synced, NoMessage, {});
    }

    method RecoverRootErrors(root: string)
      requires Valid()
      modifies this`statuses
      ensures Valid() && statuses == Database().RecoverEffect(old(statuses), root)
      ensures statuses.Keys == old(statuses).Keys
      ensures forall r :: r in statuses ==>
        (var failed := old(statuses)[r].sync == Failed && schema.root(r) == root;
          statuses[r] == if failed then Row(Pending, NoMessage) else old(statuses)[r])
    {
      statuses := map r | r in statuses ::
        if statuses[r].sync == Failed && schema.root(r) == root then RETRY else statuses[r];
    }

    /**
     When a resource goes to pending, so do its failed ancestors and everything failed below them.
     The number of resources whose status is not pending bounds the recursion.
     */
    method SetResourceSyncPending(r: Res, top: bool := true, cascade: bool := true)
      requires Valid()
      modifies this`statuses
      ensures Valid() && statuses == Database().PendingEffect(old(statuses), r, top, cascade)
      decreases Database().Unsettled(statuses)
    {
      ghost var db, before := Database(), statuses;
      var exclude := if !top then {Synced, Pending, NotAvailable} else {Pending};
      var changed := SetResourceSync(r, Pending, NoMessage, exclude);
      if !changed {
        return;
      }
      ghost var st1 := statuses;
      assert st1 == db.Touch(before, r)[r := RETRY];
      assert db.Unsettled(st1) < db.Unsettled(before) by {
        assert r in db.Unsettled(before);
      }
      var parent := schema.ParentOf(r);
      if parent.Some? {
        SetResourceSyncPending(parent.value, false, true);
        db.ParentStep(st1, r, parent.value);
        db.EffectKeepsPending(st1, parent.value, false, true);
      }
      if cascade {
        SweepSubtree(r, db.Unsettled(before));
      }
    }

    /** The visit of the whole subtree of a resource that is not failed. */
    method SweepSubtree(top: Res, ghost bound: set<Res>)
      requires Valid() && Database().Tracked(top) && top in statuses && !Database().Failing(statuses, top)
      requires Database().Unsettled(statuses) < bound
      modifies this`statuses
      ensures Valid() && statuses == Database().Sweep(old(statuses), top)
      decreases bound, 1
    {
      ghost var db, before := Database(), statuses;
      var children := GetSubtree(top);
      for i := 0 to |children|
        invariant Valid() && db == Database()
        invariant db.Advance(top, before, statuses) && db.Unsettled(statuses) < bound
        invariant forall c :: c in children[..i] && db.Tracked(c) ==> c in statuses && !db.Failing(statuses, c)
      {
        VisitChild(top, children[..i], children[i], before, bound);
        assert children[..i + 1] == children[..i] + [children[i]];
      }
      assert children[..|children|] == children;
      db.SettledIsSweep(top, before, statuses);
    }

    method VisitChild(top: Res, ghost visited: seq<Res>, child: Res, ghost before: Statuses, ghost bound: set<Res>)
      requires Valid() && Database().Tracked(top) && top in before && !Database().Failing(before, top)
      requires child in resources && schema.WellFormed(child) && schema.Under(top, child)
      requires Database().Table(before) && Database().Advance(top, before, statuses)
      requires Database().Unsettled(statuses) < bound
      requires forall c :: c in visited && Database().Tracked(c) ==> c in statuses && !Database().Failing(statuses, c)
      modifies this`statuses
      ensures Valid() && Database().Advance(top, before, statuses) && Database().Unsettled(statuses) < bound
      ensures forall c :: c in visited + [child] && Database().Tracked(c) ==>
        c in statuses && !Database().Failing(statuses, c)
      decreases bound, 0
    {
      ghost var db, was := Database(), statuses;
      db.EffectKeepsPending(was, child, false, false);
      SetResourceSyncPending(child, false, false);
      if db.Tracked(child) {
        assert !db.Failing(was, top);
        db.ChildStep(top, was, child);
        db.AdvanceIsTransitive(top, before, was, statuses);
      }
    }

    method SetResourceSyncError(r: Res, message: Message, top: bool := true)
      requires Valid()
      modifies this`statuses
      ensures Valid()
      ensures statuses == Database().ErrorEffect(old(statuses), r, message, top)
      decreases top
    {
      ghost var db, before := Database(), statuses;
      var changed := SetResourceSync(r, Failed, message, {Failed});
      assert changed ==> statuses == before[r := Row(Failed, message)];
      if changed && top {
        var children := FailSubtree(r);
        db.SubtreeInError(before, statuses, r, message, children);
      }
    }

    method FailSubtree(r: Res) returns (children: seq<Res>)
      requires Valid() && Database().Tracked(r)
      modifies this`statuses
      ensures Valid() && Database().ErrorsAt(old(statuses), statuses, r, children)
      ensures forall q :: q in children <==> q in resources && schema.WellFormed(q) && schema.Under(r, q)
      decreases true, 0
    {
      ghost var db, st1 := Database(), statuses;
      children := GetSubtree(r);
      for i := 0 to |children|
        invariant Valid() && db == Database()
        invariant db.ErrorsAt(st1, statuses, r, children[..i])
      {
        ghost var was := statuses;
        SetResourceSyncError(children[i], ParentInError(r), false);
        db.OneMoreError(st1, was, r, children[..i], children[i]);
        assert children[..i + 1] == children[..i] + [children[i]];
      }
      assert children[..|children|] == children;
    }
  }

  /** No pending resource sits directly under a parent that failed. */
  ghost predicate Safe(schema: Schema, st: Statuses) {
    forall r {:trigger schema.ParentOf(r)} :: r in st && st[r].sync == Pending && schema.ParentOf(r).Some? ==>
      !(schema.ParentOf(r).value in st && st[schema.ParentOf(r).value].sync == Failed)
  }

  /** The effect of a call that goes on, seen from the statuses before it. */
  lemma PendingEffectIs(db: World, st: Statuses, r: Res, top: bool, cascade: bool)
    requires db.Valid() && db.Table(st) && db.Tracked(r) && db.Flips(db.Touch(st, r), r, top)
    ensures var t, st1 := db.TopOfChain(st, r), db.Touch(st, r)[r := RETRY];
      && db.Table(st1) && db.Inside(t, r) && db.Tracked(t) && db.schema.ParentOf(t) != Some(r)
      && db.PendingEffect(st, r, top, cascade) ==
           if cascade || t != r then db.Sweep(db.TouchParent(st1, t), t) else db.TouchParent(st1, t)
  {
    var st1 := db.Touch(st, r)[r := RETRY];
    db.TopLooksUp(st, st1, r);
    db.TopIsInside(st1, r);
    db.schema.ParentIsAbove(r);
    var t := db.TopOfChain(st, r);
    db.schema.ParentIsAbove(t);
    if t != r && db.schema.ParentOf(t) == Some(r) {
      db.schema.UnderIsDeeper(t, r);
    }
  }

  lemma PendingEffectAt(db: World, st: Statuses, r: Res, top: bool, cascade: bool, q: Res)
    requires db.Valid() && db.Table(st) && db.Tracked(r) && db.Flips(db.Touch(st, r), r, top)
    ensures var t := db.TopOfChain(st, r);
      var after := db.PendingEffect(st, r, top, cascade);
      && (q == r ==> q in after && after[q] == RETRY)
      && (q != r && q in st ==>
            var swept := (cascade || t != r) && db.Failing(st, q) && db.Inside(t, q);
            q in after && after[q] == if swept then RETRY else st[q])
      && (q != r && q !in st ==>
            (q in after <==> (db.Tracked(q) &&
              (((cascade || t != r) && db.Inside(t, q)) || db.schema.ParentOf(t) == Some(q)))) &&
            (q in after ==> after[q] == FRESH))
  {
    PendingEffectIs(db, st, r, top, cascade);
    db.schema.ParentIsAbove(db.TopOfChain(st, r));
  }

  /** A pending call reaches exactly this: the resource, and the failed part of the subtree of the top of its chain. */
  lemma PendingReaches(db: World, st: Statuses, r: Res, top: bool, cascade: bool, q: Res)
    requires db.Valid() && db.Table(st) && r in db.resources && r.kind in db.schema.tracked
    requires if top then !(r in st && st[r].sync == Pending) else r in st && st[r].sync == Failed
    ensures var t := db.TopOfChain(st, r);
      var after := db.PendingEffect(st, r, top, cascade);
      && (q == r ==> q in after && after[q] == Row(Pending, NoMessage))
      && (q != r && q in st ==>
            var swept := (cascade || t != r) && st[q].sync == Failed && (q == t || db.schema.Under(t, q));
            q in after && after[q] == if swept then Row(Pending, NoMessage) else st[q])
      && (q != r && q !in st ==>
            (q in after <==> (q in db.resources && q.kind in db.schema.tracked &&
              (((cascade || t != r) && (q == t || db.schema.Under(t, q))) || db.schema.ParentOf(t) == Some(q)))) &&
            (q in after ==> after[q] == Row(NotAvailable, NoMessage)))
  {
    PendingEffectAt(db, st, r, top, cascade, q);
  }

  /** A call that does not go on creates the row of the resource, if it can have one, and changes nothing. */
  lemma PendingStops(db: World, st: Statuses, r: Res, top: bool, cascade: bool)
    requires db.Valid() && db.Table(st) && (r in db.resources && r.kind in db.schema.tracked ==> r in st || !top)
    requires r in db.resources && r.kind in db.schema.tracked && r in st ==>
      if top then st[r].sync == Pending else st[r].sync != Failed
    ensures db.PendingEffect(st, r, top, cascade) ==
      if r in db.resources && r.kind in db.schema.tracked && r !in st then st[r := Row(NotAvailable, NoMessage)] else st
  {
  }

  /** An error reaches exactly this: the resource, unless it had failed, and what had not failed below it. */
  lemma ErrorReaches(db: World, st: Statuses, r: Res, message: Message, top: bool, q: Res)
    requires db.Valid() && db.Table(st)
    ensures var after := db.ErrorEffect(st, r, message, top);
      if !(r in db.resources && r.kind in db.schema.tracked) || (r in st && st[r].sync == Failed) then after == st
      else if q == r then q in after && after[q] == Row(Failed, message)
      else if top && q in db.resources && q.kind in db.schema.tracked && db.schema.Under(r, q) then
        q in after && after[q] == if q in st && st[q].sync == Failed then st[q] else Row(Failed, ParentInError(r))
      else (q in after <==> q in st) && (q in st ==> after[q] == st[q])
  {
  }

  lemma PendingKeepsSafe(db: World, st: Statuses, r: Res, top: bool, cascade: bool)
    requires db.Valid() && db.Table(st) && Safe(db.schema, st)
    ensures Safe(db.schema, db.PendingEffect(st, r, top, cascade))
  {
    if db.Tracked(r) && db.Flips(db.Touch(st, r), r, top) {
      var after := db.PendingEffect(st, r, top, cascade);
      var t := db.TopOfChain(st, r);
      db.TopIsInside(st, r);
      forall q | q in after && after[q].sync == Pending && db.schema.ParentOf(q).Some?
        ensures !db.Failing(after, db.schema.ParentOf(q).value)
      {
        var p := db.schema.ParentOf(q).value;
        PendingEffectAt(db, st, r, top, cascade, q);
        PendingEffectAt(db, st, r, top, cascade, p);
        db.EffectIsTable(st, r, top, cascade);
        db.schema.ParentIsAbove(q);
      }
    }
  }

  lemma ErrorKeepsSafe(db: World, st: Statuses, r: Res, message: Message)
    requires db.Valid() && db.Table(st) && Safe(db.schema, st)
    ensures Safe(db.schema, db.ErrorEffect(st, r, message, true))
  {
    if db.Tracked(r) && !db.Failing(st, r) {
      var after := db.ErrorEffect(st, r, message, true);
      forall q | q in after && after[q].sync == Pending && db.schema.ParentOf(q).Some?
        ensures !db.Failing(after, db.schema.ParentOf(q).value)
      {
        db.schema.ParentIsAbove(q);
        var p := db.schema.ParentOf(q).value;
        if p in after && db.Inside(r, p) {
          assert db.Inside(r, q);
        }
      }
    }
  }

  lemma RecoverKeepsSafe(db: World, st: Statuses, root: string)
    requires db.Valid() && db.Table(st) && Safe(db.schema, st)
    ensures Safe(db.schema, db.RecoverEffect(st, root))
  {
    var after := db.RecoverEffect(st, root);
    forall q | q in after && after[q].sync == Pending && db.schema.ParentOf(q).Some?
      ensures !db.Failing(after, db.schema.ParentOf(q).value)
    {
      db.schema.ParentIsAbove(q);
    }
  }

  /** What can happen to the statuses. */
  datatype Op =
    | SetPending(r: Res)
    | SetError(r: Res, message: Message)
    | SetSynced(r: Res)
    | RecoverErrors(errorRoot: string)
    | AskStatus(r: Res)
    | CreateResource(r: Res)
    | DeleteResource(r: Res)

  ghost function Step(db: World, st: Statuses, op: Op): (after: (World, Statuses))
    requires db.Valid() && db.Table(st)
    ensures after.0.Valid() && after.0.schema == db.schema && after.0.Table(after.1)
  {
    match op
    case SetPending(r) => db.EffectIsTable(st, r, true, true); (db, db.PendingEffect(st, r, true, true))
    case SetError(r, message) => (db, db.ErrorEffect(st, r, message, true))
    case SetSynced(r) => (db, db.SyncedEffect(st, r))
    case RecoverErrors(root) => (db, db.RecoverEffect(st, root))
    case AskStatus(r) => (db, db.Touch(st, r))
    case CreateResource(r) =>
      if r.kind in db.schema.parent && !db.schema.WellFormed(r) then (db, st)
        else (db.(resources := db.resources + {r}), st)
    case DeleteResource(r) => (db.(resources := db.resources - {r}), st - {r})
  }

  ghost function Run(db: World, st: Statuses, ops: seq<Op>): (after: (World, Statuses))
    requires db.Valid() && db.Table(st)
    ensures after.0.Valid() && after.0.schema == db.schema && after.0.Table(after.1)
    decreases |ops|
  {
    if ops == [] then (db, st) else
    var next := Step(db, st, ops[0]);
    Run(next.0, next.1, ops[1..])
  }

  lemma StepKeepsSafe(db: World, st: Statuses, op: Op)
    requires db.Valid() && db.Table(st) && Safe(db.schema, st)
    ensures Safe(db.schema, Step(db, st, op).1)
  {
    match op
    case SetPending(r) => PendingKeepsSafe(db, st, r, true, true);
    case SetError(r, message) => ErrorKeepsSafe(db, st, r, message);
    case RecoverErrors(root) => RecoverKeepsSafe(db, st, root);
    case _ =>
  }

  /** Over any run, no pending resource sits directly under a failed parent. */
  lemma {:induction false} RunsAreSafe(db: World, st: Statuses, ops: seq<Op>)
    requires db.Valid() && db.Table(st) && Safe(db.schema, st)
    ensures Safe(db.schema, Run(db, st, ops).1)
    ensures var st' := Run(db, st, ops).1;
      forall r, p :: r in st' && st'[r].sync == Pending && db.schema.ParentOf(r) == Some(p) && p in st' ==>
        st'[p].sync != Failed
    decreases |ops|
  {
    if ops == [] {
    } else {
      StepKeepsSafe(db, st, ops[0]);
      var next := Step(db, st, ops[0]);
      RunsAreSafe(next.0, next.1, ops[1..]);
    }
  }

  /** One operation on the manager. */
  method Perform(manager: AimManager, op: Op)
    requires manager.Valid()
    modifies manager
    ensures manager.Valid()
    ensures (manager.Database(), manager.statuses) == Step(old(manager.Database()), old(manager.statuses), op)
  {
    match op {
      case SetPending(r) => manager.SetResourceSyncPending(r);
      case SetError(r, message) => manager.SetResourceSyncError(r, message);
      case SetSynced(r) => manager.SetResourceSyncSynced(r);
      case RecoverErrors(root) => manager.RecoverRootErrors(root);
      case AskStatus(r) => var status := manager.GetStatus(r);
      case CreateResource(r) => manager.Create(r);
      case DeleteResource(r) => manager.Delete(r);
    }
  }

  lemma RunLast(db: World, st: Statuses, ops: seq<Op>, op: Op)
    requires db.Valid() && db.Table(st)
    ensures var before := Run(db, st, ops); Run(db, st, ops + [op]) == Step(before.0, before.1, op)
    decreases |ops|
  {
    if ops == [] {
      assert ([op])[1..] == [];
    } else {
      var next := Step(db, st, ops[0]);
      assert (ops + [op])[1..] == ops[1..] + [op];
      RunLast(next.0, next.1, ops[1..], op);
    }
  }

  /** Any operations on a manager whose table is safe leave it safe. */
  method RunOps(manager: AimManager, ops: seq<Op>)
    requires manager.Valid() && Safe(manager.schema, manager.statuses)
    modifies manager
    ensures manager.Valid() && Safe(manager.schema, manager.statuses)
    ensures (manager.Database(), manager.statuses) == Run(old(manager.Database()), old(manager.statuses), ops)
  {
    ghost var db, st := manager.Database(), manager.statuses;
    for i := 0 to |ops|
      invariant manager.Valid() && (manager.Database(), manager.statuses) == Run(db, st, ops[..i])
    {
      assert ops[..i + 1] == ops[..i] + [ops[i]];
      RunLast(db, st, ops[..i], ops[i]);
      Perform(manager, ops[i]);
    }
    assert ops[..|ops|] == ops;
    RunsAreSafe(db, st, ops);
  }

  /** An error spreads to the whole subtree, and a retry of the same resource reaches all of it again. */
  lemma RetryUndoesError(db: World, st: Statuses, r: Res, message: Message, q: Res)
    requires db.Valid() && db.Table(st) && db.Tracked(r) && !db.Failing(st, r)
    requires db.Tracked(q) && db.Inside(r, q)
    ensures var failed := db.ErrorEffect(st, r, message, true);
      && db.Failing(failed, q)
      && db.Table(failed) && var retried := db.PendingEffect(failed, r, true, true); q in retried && retried[q] == RETRY
  {
    var failed := db.ErrorEffect(st, r, message, true);
    PendingReaches(db, failed, r, true, true, q);
    db.TopIsInside(failed, r);
    var t := db.TopOfChain(failed, r);
    if q != r && t != r {
      db.schema.UnderIsTransitive(t, r, q);
    }
  }
}
