/**
 How the agent decides that a tenant can be dropped. In every cycle the AIM universes vote, each of
 the three pairs of universes reconciles and may put the tenant off, and the AIM universes confirm.
 */
module DeletionVote {
  import opened Keys
  import opened TreeStore
  import opened TreeTheory
  import opened TreeDiff
  import TreeRuns

  /** The hash tree of a tenant, by what its nodes hold. */
  datatype Tree = Tree(nodes: View) {
    predicate Empty() {
      nodes == map[]
    }

    predicate RealRoot() {
      exists k :: k in nodes && |k| == 1 && !nodes[k].dummy
    }
  }

  type State = map<string, Tree>

  type Counts = map<string, nat>

  /** Where handling a tenant stops. */
  datatype Event = Completes | Resets | RaisesInDiff | RaisesInResult | RaisesLater

  /**
   What reconciling one tenant could meet: whether the keys to create and those to delete stand for any
   resources, and how it ends.
   */
  datatype Handling = Handling(toCreate: bool, toDelete: bool, event: Event) {
    /** What can still be raised when there is nothing to compare. */
    predicate RaisesOnEmpty() {
      event == RaisesInResult || event == RaisesLater
    }
  }

  type Handlings = string -> Handling

  /** Cycles to wait before letting the other universes go on. */
  const WAIT_CYCLES: nat := 3

  /** Nothing is left of the tenant on either side. */
  predicate Quiet(mine: Tree, other: Tree) {
    mine.Empty() && other.Empty()
  }

  /** The keys of this tree that the other universe is asked to create or to delete. */
  predicate Differ(mine: Tree, other: Tree) {
    ToAdd(other.nodes, mine.nodes) != {} || ToRemove(other.nodes, mine.nodes) != {}
  }

  /**
   What the trees let a tenant meet: something is created or deleted only where the desired tree differs
   from this one, only an operation that is to be done can lead to a reset, and comparing two empty trees
   raises nothing.
   */
  function Met(h: Handling, mine: Tree, other: Tree): (met: Handling)
    ensures met.event == RaisesInDiff ==> !Quiet(mine, other)
    ensures met.event == Resets || met.toCreate || met.toDelete ==> Differ(mine, other) && !Quiet(mine, other)
    ensures met.RaisesOnEmpty() <==> h.RaisesOnEmpty()
  {
    var create := h.toCreate && ToAdd(other.nodes, mine.nodes) != {};
    var delete := h.toDelete && ToRemove(other.nodes, mine.nodes) != {};
    var none := if h.event == Resets then !create && !delete else h.event == RaisesInDiff && Quiet(mine, other);
    Handling(create, delete, if none then Completes else h.event)
  }

  /** Trees with the same contents give nothing to do and no reset, whatever is in error. */
  lemma SameContentsNothingToDo(h: Handling, mine: Tree, other: Tree)
    requires ContentOf(mine.nodes) == ContentOf(other.nodes)
    ensures var met := Met(h, mine, other); !met.toCreate && !met.toDelete && met.event != Resets
  {
    TreeRuns.NoDifference(other.nodes, mine.nodes);
  }

  function CountOf(counts: Counts, t: string): nat {
    if t in counts then counts[t] else 0
  }

  /** The counter of a candidate after its pair handled it. */
  function CountAfter(counts: Counts, t: string, h: Handling, mine: Tree, other: Tree): nat {
    if Met(h, mine, other).event == RaisesInResult then CountOf(counts, t)
    else if Quiet(mine, other) then CountOf(counts, t) + 1
    else 0
  }

  /** Whether a candidate that its pair handled is no candidate any more. */
  predicate PutOff(counts: Counts, t: string, h: Handling, mine: Tree, other: Tree) {
    Met(h, mine, other).event == Completes && CountAfter(counts, t, h, mine, other) <= WAIT_CYCLES
  }

  /** The state that the mask leaves, where candidates are desired to be empty. */
  function Masked(state: State, candidates: set<string>): State {
    map t | t in state :: if t in candidates then Tree(map[]) else state[t]
  }

  /** A pair of universes when it reconciles: the states, the counters and the candidates. */
  datatype Pass = Pass(mine: State, other: State, counts: Counts, candidates: set<string>, handle: Handlings) {

    predicate Counted(t: string) {
      t in candidates && t in mine && t in other && Met(handle(t), mine[t], other[t]).event != RaisesInDiff
    }

    function CountsAfter(): Counts {
      map t | t in counts.Keys + candidates && (t in counts || Counted(t)) ::
        if Counted(t) then CountAfter(counts, t, handle(t), mine[t], other[t]) else counts[t]
    }

    function CandidatesAfter(): set<string> {
      set t | t in candidates && !(t in mine && t in other && PutOff(counts, t, handle(t), mine[t], other[t]))
    }

    /** The same after the tenants of `done` only. */
    function CountsPart(done: set<string>): Counts {
      map t | t in counts.Keys + candidates && (t in counts || (t in done && Counted(t))) ::
        if t in done && Counted(t) then CountAfter(counts, t, handle(t), mine[t], other[t]) else counts[t]
    }

    function CandidatesPart(done: set<string>): set<string> {
      set t | t in candidates &&
        !(t in done && t in mine && t in other && PutOff(counts, t, handle(t), mine[t], other[t]))
    }
  }

  /** Handling one more tenant. */
  lemma OneMoreTenant(p: Pass, done: set<string>, t: string)
    requires t !in done && t in p.mine && t in p.other
    ensures var h, was := p.handle(t), p.CountsPart(done);
      && p.CountsPart(done + {t}) ==
           (if t in p.CandidatesPart(done) && Met(h, p.mine[t], p.other[t]).event != RaisesInDiff
            then was[t := CountAfter(was, t, h, p.mine[t], p.other[t])] else was)
      && p.CandidatesPart(done + {t}) ==
           if t in p.CandidatesPart(done) && PutOff(was, t, h, p.mine[t], p.other[t])
           then p.CandidatesPart(done) - {t} else p.CandidatesPart(done)
  {
    assert t in p.candidates <==> t in p.CandidatesPart(done);
    assert CountOf(p.CountsPart(done), t) == CountOf(p.counts, t);
  }

  lemma AllTenants(p: Pass)
    ensures p.CountsPart(p.mine.Keys * p.other.Keys) == p.CountsAfter()
    ensures p.CandidatesPart(p.mine.Keys * p.other.Keys) == p.CandidatesAfter()
    ensures p.CountsPart({}) == p.counts && p.CandidatesPart({}) == p.candidates
  {}

  /**
   What a pair makes of one tenant. It leaves alone what is no candidate, what it does not know, and what it
   raises on while comparing. Otherwise it counts a look that found both trees empty, and starts again after
   one that did not; and it puts off a candidate that it got through with and has not counted more than three
   times. A reset ends the handling only where an operation is to be done.
   */
  lemma PassExactly(p: Pass, t: string)
    ensures t !in p.candidates || t !in p.mine || t !in p.other ==>
      && (t in p.CountsAfter() <==> t in p.counts)
      && (t in p.counts ==> p.CountsAfter()[t] == p.counts[t])
      && (t in p.CandidatesAfter() <==> t in p.candidates)
    ensures t in p.candidates && t in p.mine && t in p.other ==>
      var mine, other, h := p.mine[t].nodes, p.other[t].nodes, p.handle(t);
      var count := if t in p.counts then p.counts[t] else 0;
      var empty := mine == map[] && other == map[];
      var some := (h.toCreate && ToAdd(other, mine) != {}) || (h.toDelete && ToRemove(other, mine) != {});
      var through := h.event == Completes || (h.event == Resets && !some) || (h.event == RaisesInDiff && empty);
      var count' := if h.event == RaisesInResult then count else if empty then count + 1 else 0;
      if h.event == RaisesInDiff && !empty then
        && (t in p.CountsAfter() <==> t in p.counts)
        && (t in p.counts ==> p.CountsAfter()[t] == p.counts[t])
        && t in p.CandidatesAfter()
      else
        && t in p.CountsAfter() && p.CountsAfter()[t] == count'
        && (t in p.CandidatesAfter() <==> !through || count' > 3)
  {
    if t in p.candidates && t in p.mine && t in p.other {
      assert p.mine[t].Empty() <==> p.mine[t].nodes == map[];
      assert p.other[t].Empty() <==> p.other[t].nodes == map[];
    }
  }

  class Universe {
    var state: State
    var deletingRoots: Counts

    constructor ()
      ensures state == map[] && deletingRoots == map[]
    {
      state, deletingRoots := map[], map[];
    }

    method Observe(state: State)
      modifies this`state
      ensures this.state == state
    {
      this.state := state;
    }

    /** Votes of the AIM configuration universe: the tenants it wants empty, unless vetoed. */
    method VoteEmpty(candidates: set<string>, vetoes: set<string>) returns (candidates': set<string>)
      ensures candidates' == candidates + set t | t in state && state[t].nodes == map[] && t !in vetoes
    {
      candidates' := candidates;
      var left := state.Keys;
      while left != {}
        invariant left <= state.Keys
        invariant candidates' == candidates + set t | t in state && t !in left && state[t].Empty() && t !in vetoes
      {
        var t :| t in left;
        if state[t].Empty() && t !in vetoes {
          candidates' := candidates' + {t};
        }
        left := left - {t};
      }
    }

    /** Votes of the AIM monitored universe: tenants with a root of their own are vetoed. */
    method VetoOwned(candidates: set<string>, vetoes: set<string>)
      returns (candidates': set<string>, vetoes': set<string>)
      ensures vetoes' == vetoes + set t | t in state && state[t].RealRoot()
      ensures candidates' == candidates - set t | t in state && state[t].RealRoot()
      ensures forall t, k :: t in state && k in state[t].nodes && |k| == 1 && !state[t].nodes[k].dummy ==>
        t in vetoes' && t !in candidates'
      ensures forall t :: t in vetoes' && t !in vetoes ==>
        && t in state
        && exists k :: k in state[t].nodes && |k| == 1 && !state[t].nodes[k].dummy
    {
      candidates', vetoes' := candidates, vetoes;
      var left := state.Keys;
      while left != {}
        invariant left <= state.Keys
        invariant vetoes' == vetoes + set t | t in state && t !in left && state[t].RealRoot()
        invariant candidates' == candidates - set t | t in state && t !in left && state[t].RealRoot()
      {
        var t :| t in left;
        if state[t].RealRoot() {
          candidates' := candidates' - {t};
          vetoes' := vetoes' + {t};
        }
        left := left - {t};
      }
    }

    method MaskTenantState(other: Universe, candidates: set<string>)
      modifies other`state
      ensures other.state == Masked(old(other.state), candidates)
      ensures other.state.Keys == old(other.state).Keys && forall t :: t in other.state ==>
        other.state[t].nodes == if t in candidates then map[] else old(other.state)[t].nodes
    {
      ghost var was := other.state;
      var left := candidates;
      while left != {}
        invariant left <= candidates
        invariant other.state == Masked(was, candidates - left)
      {
        var t :| t in left;
        if t in other.state {
          other.state := other.state[t := Tree(map[])];
        }
        left := left - {t};
      }
      assert candidates - left == candidates;
    }

    /** One tenant that both universes know; an exception leaves everything else as it got. */
    method ReconcileTenant(other: Universe, t: string, handle: Handlings, candidates: set<string>)
      returns (candidates': set<string>)
      requires t in state && t in other.state
      modifies this`deletingRoots
      ensures var h := handle(t);
        && deletingRoots ==
             (if t in candidates && Met(h, state[t], other.state[t]).event != RaisesInDiff
              then old(deletingRoots)[t := CountAfter(old(deletingRoots), t, h, state[t], other.state[t])]
              else old(deletingRoots))
        && candidates' ==
             if t in candidates && PutOff(old(deletingRoots), t, h, state[t], other.state[t])
             then candidates - {t} else candidates
    {
      var h := Met(handle(t), state[t], other.state[t]);
      candidates' := candidates;
      if h.event == RaisesInDiff {
        return;
      }
      var candidate, count := t in candidates, 0;
      if candidate {
        if t !in deletingRoots {
          deletingRoots := deletingRoots[t := 0];
        }
        count := deletingRoots[t];
      }
      if h.event == RaisesInResult {
        return;
      }
      if candidate && !h.toCreate && !h.toDelete && state[t].Empty() && other.state[t].Empty() {
        count := count + 1;
      } else if candidate {
        count := 0;
      }
      if candidate {
        deletingRoots := deletingRoots[t := count];
      }
      if h.event == RaisesLater || h.event == Resets {
        return;
      }
      if candidate && count <= WAIT_CYCLES {
        candidates' := candidates - {t};
      }
    }

    ghost function PassOf(other: Universe, candidates: set<string>, handle: Handlings): Pass
      reads this, other
    {
      Pass(state, other.state, deletingRoots, candidates, handle)
    }

    method ReconcileTrees(other: Universe, candidates: set<string>, handle: Handlings)
      returns (candidates': set<string>)
      modifies this`deletingRoots
      ensures deletingRoots == old(PassOf(other, candidates, handle)).CountsAfter()
      ensures candidates' == old(PassOf(other, candidates, handle)).CandidatesAfter()
    {
      ghost var pass := PassOf(other, candidates, handle);
      AllTenants(pass);
      candidates' := candidates;
      var left := state.Keys * other.state.Keys;
      ghost var done := {};
      while left != {}
        invariant left + done == state.Keys * other.state.Keys && left !! done
        invariant deletingRoots == pass.CountsPart(done) && candidates' == pass.CandidatesPart(done)
      {
        var t :| t in left;
        OneMoreTenant(pass, done, t);
        candidates' := ReconcileTenant(other, t, handle, candidates');
        left, done := left - {t}, done + {t};
      }
    }

    /** The AIM configuration universe keeps a tenant only when ACI shows it, emptied. */
    method FinalizeConfig(other: Universe, candidates: set<string>) returns (candidates': set<string>)
      ensures candidates' == set t | t in candidates && t in other.state && other.state[t].nodes == map[]
    {
      candidates' := candidates;
      var left := candidates;
      while left != {}
        invariant left <= candidates
        invariant candidates' == set t | t in candidates && (t in left || (t in other.state && other.state[t].Empty()))
      {
        var t :| t in left;
        if !(t in other.state && other.state[t].Empty()) {
          candidates' := candidates' - {t};
        }
        left := left - {t};
      }
    }

    /** The other AIM universes keep a tenant only when they have nothing of it left. */
    method FinalizeOwn(candidates: set<string>) returns (candidates': set<string>)
      ensures candidates' == set t | t in candidates && (t !in state || state[t].nodes == map[])
    {
      candidates' := candidates;
      var left := candidates;
      while left != {}
        invariant left <= candidates
        invariant candidates' == set t | t in candidates && (t in left || t !in state || state[t].Empty())
      {
        var t :| t in left;
        if t in state && !state[t].Empty() {
          candidates' := candidates' - {t};
        }
        left := left - {t};
      }
    }

    method CleanupState(t: string)
      modifies this`deletingRoots
      ensures deletingRoots == old(deletingRoots) - {t}
    {
      deletingRoots := deletingRoots - {t};
    }
  }

  /** The snapshots that the six universes observe at the start of a cycle. */
  datatype Snapshot = Snapshot(aimConfig: State, aciConfig: State, aciOper: State, aimOper: State, aciMon: State,
                               aimMon: State)

  /** What happens in a cycle: the snapshots, and how each pair gets on with each tenant. */
  datatype Cycle = Cycle(seen: Snapshot, config: Handlings, oper: Handlings, mon: Handlings)

  /** The counters of the current universe of each pair. */
  datatype AllCounts = AllCounts(config: Counts, oper: Counts, mon: Counts)

  const NO_COUNTS := AllCounts(map[], map[], map[])

  /** Tenants that AIM wants empty and does not own in the monitored tree. */
  function Voted(seen: Snapshot): set<string> {
    set t | t in seen.aimConfig && seen.aimConfig[t].Empty() && !(t in seen.aimMon && seen.aimMon[t].RealRoot())
  }

  /** The votes: AIM wants nothing of the tenant, and it has no root of its own in the monitored tree. */
  lemma VotedExactly(seen: Snapshot, t: string)
    ensures t in Voted(seen) <==>
      && t in seen.aimConfig && seen.aimConfig[t].nodes == map[]
      && (t in seen.aimMon ==>
            forall k :: k in seen.aimMon[t].nodes && |k| == 1 ==> seen.aimMon[t].nodes[k].dummy)
  {
    if t in seen.aimMon && !seen.aimMon[t].RealRoot() {
      var nodes := seen.aimMon[t].nodes;
      forall k | k in nodes && |k| == 1 ensures nodes[k].dummy {
      }
    }
  }

  function ConfigPass(c: Cycle, n: AllCounts): Pass {
    Pass(c.seen.aciConfig, c.seen.aimConfig, n.config, Voted(c.seen), c.config)
  }

  function OperPass(c: Cycle, n: AllCounts): Pass {
    var candidates := ConfigPass(c, n).CandidatesAfter();
    Pass(c.seen.aimOper, Masked(c.seen.aciOper, candidates), n.oper, candidates, c.oper)
  }

  function MonPass(c: Cycle, n: AllCounts): Pass {
    var candidates := OperPass(c, n).CandidatesAfter();
    Pass(c.seen.aimMon, Masked(c.seen.aciMon, candidates), n.mon, candidates, c.mon)
  }

  /** The tenants dropped at the end of a cycle. */
  function Cleaned(c: Cycle, n: AllCounts): set<string> {
    set t | t in MonPass(c, n).CandidatesAfter() &&
            (t in c.seen.aciConfig && c.seen.aciConfig[t].Empty()) &&
            (t !in c.seen.aimOper || c.seen.aimOper[t].Empty()) &&
            (t !in c.seen.aimMon || c.seen.aimMon[t].Empty())
  }

  function CountsAfterCycle(c: Cycle, n: AllCounts): AllCounts {
    AllCounts(ConfigPass(c, n).CountsAfter() - Cleaned(c, n), OperPass(c, n).CountsAfter() - Cleaned(c, n),
              MonPass(c, n).CountsAfter() - Cleaned(c, n))
  }

  class Agent {
    const aimConfig: Universe
    const aciConfig: Universe
    const aciOper: Universe
    const aimOper: Universe
    const aciMon: Universe
    const aimMon: Universe

    ghost predicate Valid() {
      && aimConfig != aciConfig && aimConfig != aciOper && aimConfig != aimOper
      && aimConfig != aciMon && aimConfig != aimMon
      && aciConfig != aciOper && aciConfig != aimOper && aciConfig != aciMon && aciConfig != aimMon
      && aciOper != aimOper && aciOper != aciMon && aciOper != aimMon
      && aimOper != aciMon && aimOper != aimMon && aciMon != aimMon
    }

    ghost function Counters(): AllCounts
      reads aciConfig, aimOper, aimMon
    {
      AllCounts(aciConfig.deletingRoots, aimOper.deletingRoots, aimMon.deletingRoots)
    }

    ghost predicate Sees(seen: Snapshot)
      reads aimConfig, aciConfig, aciOper, aimOper, aciMon, aimMon
    {
      && aimConfig.state == seen.aimConfig && aciConfig.state == seen.aciConfig && aciOper.state == seen.aciOper
      && aimOper.state == seen.aimOper && aciMon.state == seen.aciMon && aimMon.state == seen.aimMon
    }

    constructor ()
      ensures Valid() && Counters() == NO_COUNTS
      ensures fresh({aimConfig, aciConfig, aciOper, aimOper, aciMon, aimMon})
    {
      aimConfig := new Universe();
      aciConfig := new Universe();
      aciOper := new Universe();
      aimOper := new Universe();
      aciMon := new Universe();
      aimMon := new Universe();
    }

    method Observe(seen: Snapshot)
      requires Valid()
      modifies aimConfig`state, aciConfig`state, aciOper`state, aimOper`state, aciMon`state, aimMon`state
      ensures Sees(seen)
    {
      aimConfig.Observe(seen.aimConfig);
      aciConfig.Observe(seen.aciConfig);
      aciOper.Observe(seen.aciOper);
      aimOper.Observe(seen.aimOper);
      aciMon.Observe(seen.aciMon);
      aimMon.Observe(seen.aimMon);
    }

    method Vote(ghost seen: Snapshot) returns (candidates: set<string>)
      requires Sees(seen)
      ensures candidates == Voted(seen)
    {
      var vetoes;
      candidates, vetoes := {}, {};
      candidates := aimConfig.VoteEmpty(candidates, vetoes);
      candidates, vetoes := aimMon.VetoOwned(candidates, vetoes);
    }

    /** Each pair in turn; the second and third ask ACI for nothing of what is still a candidate. */
    method Reconcile(c: Cycle, candidates: set<string>) returns (candidates': set<string>)
      requires Valid() && Sees(c.seen) && candidates == Voted(c.seen)
      modifies aciConfig`deletingRoots, aimOper`deletingRoots, aimMon`deletingRoots, aciOper`state, aciMon`state
      ensures candidates' == MonPass(c, old(Counters())).CandidatesAfter()
      ensures Counters() == AllCounts(ConfigPass(c, old(Counters())).CountsAfter(),
        OperPass(c, old(Counters())).CountsAfter(),
                                      MonPass(c, old(Counters())).CountsAfter())
    {
      candidates' := aciConfig.ReconcileTrees(aimConfig, candidates, c.config);
      aimOper.MaskTenantState(aciOper, candidates');
      candidates' := aimOper.ReconcileTrees(aciOper, candidates', c.oper);
      aimMon.MaskTenantState(aciMon, candidates');
      candidates' := aimMon.ReconcileTrees(aciMon, candidates', c.mon);
    }

    method FinalizeCandidates(c: Cycle, ghost n: AllCounts, candidates: set<string>) returns (candidates': set<string>)
      requires aciConfig.state == c.seen.aciConfig && aimOper.state == c.seen.aimOper && aimMon.state == c.seen.aimMon
      requires candidates == MonPass(c, n).CandidatesAfter()
      ensures candidates' == Cleaned(c, n)
    {
      candidates' := aimConfig.FinalizeConfig(aciConfig, candidates);
      candidates' := aimOper.FinalizeOwn(candidates');
      candidates' := aimMon.FinalizeOwn(candidates');
    }

    method Cleanup(candidates: set<string>)
      requires Valid()
      modifies aimConfig`deletingRoots, aciConfig`deletingRoots, aciOper`deletingRoots, aimOper`deletingRoots,
               aciMon`deletingRoots,
               aimMon`deletingRoots
      ensures Counters() == AllCounts(old(aciConfig.deletingRoots) - candidates,
        old(aimOper.deletingRoots) - candidates,
                                      old(aimMon.deletingRoots) - candidates)
    {
      ghost var was := Counters();
      var left := candidates;
      while left != {}
        invariant left <= candidates
        invariant Counters() == AllCounts(was.config - (candidates - left), was.oper - (candidates - left),
          was.mon - (candidates - left))
      {
        var t :| t in left;
        CleanupTenant(t);
        left := left - {t};
      }
      assert candidates - left == candidates;
    }

    method CleanupTenant(t: string)
      requires Valid()
      modifies aimConfig`deletingRoots, aciConfig`deletingRoots, aciOper`deletingRoots, aimOper`deletingRoots,
               aciMon`deletingRoots,
               aimMon`deletingRoots
      ensures Counters() == AllCounts(old(aciConfig.deletingRoots) - {t}, old(aimOper.deletingRoots) - {t},
        old(aimMon.deletingRoots) - {t})
    {
      aimConfig.CleanupState(t);
      aciConfig.CleanupState(t);
      aciOper.CleanupState(t);
      aimOper.CleanupState(t);
      aciMon.CleanupState(t);
      aimMon.CleanupState(t);
    }

    method ReconciliationCycle(c: Cycle) returns (cleaned: set<string>)
      requires Valid()
      modifies aimConfig, aciConfig, aciOper, aimOper, aciMon, aimMon
      ensures cleaned == Cleaned(c, old(Counters()))
      ensures Counters() == CountsAfterCycle(c, old(Counters()))
      ensures var seen := c.seen;
        var config := Pass(seen.aciConfig, seen.aimConfig, old(aciConfig.deletingRoots), Voted(seen), c.config);
        var left := config.CandidatesAfter();
        var asked := map t | t in seen.aciOper :: if t in left then Tree(map[]) else seen.aciOper[t];
        var oper := Pass(seen.aimOper, asked, old(aimOper.deletingRoots), left, c.oper);
        var left' := oper.CandidatesAfter();
        var asked' := map t | t in seen.aciMon :: if t in left' then Tree(map[]) else seen.aciMon[t];
        var mon := Pass(seen.aimMon, asked', old(aimMon.deletingRoots), left', c.mon);
        && aciConfig.deletingRoots == config.CountsAfter() - cleaned
        && aimOper.deletingRoots == oper.CountsAfter() - cleaned
        && aimMon.deletingRoots == mon.CountsAfter() - cleaned
    {
      ghost var n := Counters();
      Observe(c.seen);
      var candidates := Vote(c.seen);
      candidates := Reconcile(c, candidates);
      cleaned := FinalizeCandidates(c, n, candidates);
      Cleanup(cleaned);
    }
  }

  datatype Pair = ConfigPair | OperPair | MonPair

  function PassOfPair(p: Pair, c: Cycle, n: AllCounts): Pass {
    match p
    case ConfigPair => ConfigPass(c, n)
    case OperPair => OperPass(c, n)
    case MonPair => MonPass(c, n)
  }

  function CountsOf(p: Pair, n: AllCounts): Counts {
    match p
    case ConfigPair => n.config
    case OperPair => n.oper
    case MonPair => n.mon
  }

  /** The counters after some cycles of a fresh agent. */
  function RunCounts(cycles: seq<Cycle>): AllCounts {
    if cycles == [] then NO_COUNTS else CountsAfterCycle(cycles[|cycles| - 1], RunCounts(cycles[..|cycles| - 1]))
  }

  /** Whether a pair got far enough with a candidate to see if it was quiet. */
  predicate Inspected(pass: Pass, t: string) {
    pass.Counted(t) && Met(pass.handle(t), pass.mine[t], pass.other[t]).event != RaisesInResult
  }

  predicate QuietIn(pass: Pass, t: string)
    requires Inspected(pass, t)
  {
    Quiet(pass.mine[t], pass.other[t])
  }

  /** What a pair saw of a candidate in the cycles so far, since the tenant was last dropped. */
  function History(cycles: seq<Cycle>, p: Pair, t: string): seq<bool> {
    if cycles == [] then [] else
    var c, before := cycles[|cycles| - 1], cycles[..|cycles| - 1];
    var pass := PassOfPair(p, c, RunCounts(before));
    if t in Cleaned(c, RunCounts(before)) then []
    else if Inspected(pass, t) then History(before, p, t) + [QuietIn(pass, t)]
    else History(before, p, t)
  }

  /** How many of the last observations were quiet. */
  function Trailing(h: seq<bool>): nat {
    if h == [] || !h[|h| - 1] then 0 else Trailing(h[..|h| - 1]) + 1
  }

  ghost predicate QuietTail(h: seq<bool>, n: nat) {
    |h| >= n && forall i :: |h| - n <= i < |h| ==> h[i]
  }

  lemma {:induction false} TrailingAreQuiet(h: seq<bool>, n: nat)
    requires n <= Trailing(h)
    ensures QuietTail(h, n)
  {
    if n == 0 {
    } else {
      TrailingAreQuiet(h[..|h| - 1], n - 1);
    }
  }

  lemma TrailingOneMore(h: seq<bool>, quiet: bool)
    ensures Trailing(h + [quiet]) == if quiet then Trailing(h) + 1 else 0
  {
    assert (h + [quiet])[..|h|] == h;
  }

  /** A counter is the number of quiet observations in a row. */
  lemma {:induction false} CounterIsTrailing(cycles: seq<Cycle>, p: Pair, t: string)
    ensures CountOf(CountsOf(p, RunCounts(cycles)), t) == Trailing(History(cycles, p, t))
  {
    if cycles == [] {
    } else {
      var c, before := cycles[|cycles| - 1], cycles[..|cycles| - 1];
      CounterIsTrailing(before, p, t);
      var pass := PassOfPair(p, c, RunCounts(before));
      assert pass.counts == CountsOf(p, RunCounts(before));
      if t !in Cleaned(c, RunCounts(before)) {
        assert CountOf(CountsOf(p, RunCounts(cycles)), t) == CountOf(pass.CountsAfter(), t);
        if Inspected(pass, t) {
          TrailingOneMore(History(before, p, t), QuietIn(pass, t));
        }
      }
    }
  }

  /** A tenant that is dropped was a candidate to the end, and nothing of it is left in any tree that counts. */
  lemma DroppedIsEmpty(c: Cycle, n: AllCounts, t: string)
    requires t in Cleaned(c, n)
    ensures t in Voted(c.seen) && t in ConfigPass(c, n).CandidatesAfter() && t in OperPass(c, n).CandidatesAfter()
    ensures t in MonPass(c, n).CandidatesAfter()
    ensures t in c.seen.aimConfig && c.seen.aimConfig[t].Empty()
    ensures t in c.seen.aciConfig && c.seen.aciConfig[t].Empty()
    ensures t in c.seen.aimOper ==> c.seen.aimOper[t].Empty()
    ensures t in c.seen.aimMon ==> c.seen.aimMon[t].Empty()
  {
    assert t in MonPass(c, n).candidates;
    assert t in OperPass(c, n).candidates;
    assert t in ConfigPass(c, n).candidates;
  }

  /** A tenant with a root of its own in the monitored tree is not dropped, whatever the others say. */
  lemma VetoedIsKept(c: Cycle, n: AllCounts, t: string)
    requires t in c.seen.aimMon && c.seen.aimMon[t].RealRoot()
    ensures t !in Cleaned(c, n)
  {
    if t in Cleaned(c, n) {
      DroppedIsEmpty(c, n, t);
    }
  }

  /**
   A tenant that AIM owns, by a root of its own in the monitored tree, is left alone: it is no candidate of any
   pair, none inspects it, and the cycle leaves its counters as they were.
   */
  lemma OwnedIsLeftAlone(c: Cycle, n: AllCounts, t: string, k: Key)
    requires t in c.seen.aimMon && k in c.seen.aimMon[t].nodes && |k| == 1 && !c.seen.aimMon[t].nodes[k].dummy
    ensures t !in Voted(c.seen) && t !in Cleaned(c, n)
    ensures forall p :: t !in PassOfPair(p, c, n).candidates && !Inspected(PassOfPair(p, c, n), t)
    ensures var after := CountsAfterCycle(c, n);
      && (t in after.config <==> t in n.config) && (t in n.config ==> after.config[t] == n.config[t])
      && (t in after.oper <==> t in n.oper) && (t in n.oper ==> after.oper[t] == n.oper[t])
      && (t in after.mon <==> t in n.mon) && (t in n.mon ==> after.mon[t] == n.mon[t])
  {
    VotedExactly(c.seen, t);
    PassExactly(ConfigPass(c, n), t);
    PassExactly(OperPass(c, n), t);
    PassExactly(MonPass(c, n), t);
  }

  /** A pair that got through with a tenant that is dropped found nothing to do in its last four looks at it. */
  lemma DroppedWasQuiet(cycles: seq<Cycle>, c: Cycle, p: Pair, t: string)
    requires t in Cleaned(c, RunCounts(cycles))
    requires var pass := PassOfPair(p, c, RunCounts(cycles));
      t in pass.mine && t in pass.other && !pass.handle(t).RaisesOnEmpty()
    ensures var pass := PassOfPair(p, c, RunCounts(cycles));
      var looks := History(cycles, p, t) + [Inspected(pass, t) && QuietIn(pass, t)];
      Inspected(pass, t) && QuietTail(looks, 4)
  {
    var pass := PassOfPair(p, c, RunCounts(cycles));
    DroppedIsEmpty(c, RunCounts(cycles), t);
    assert t in pass.candidates && t in pass.CandidatesAfter();
    CounterIsTrailing(cycles, p, t);
    assert pass.counts == CountsOf(p, RunCounts(cycles));
    TrailingOneMore(History(cycles, p, t), QuietIn(pass, t));
    TrailingAreQuiet(History(cycles, p, t) + [QuietIn(pass, t)], WAIT_CYCLES + 1);
  }

  /** Every pair knows the tenant, nothing is left of it, and nothing goes wrong. */
  predicate QuietCycle(c: Cycle, t: string) {
    && t in c.seen.aimConfig && t in c.seen.aciConfig && t in c.seen.aimOper
    && t in c.seen.aciOper && t in c.seen.aimMon && t in c.seen.aciMon
    && c.seen.aimConfig[t].Empty() && c.seen.aciConfig[t].Empty()
    && c.seen.aimOper[t].Empty() && c.seen.aimMon[t].Empty()
    && !c.config(t).RaisesOnEmpty() && !c.oper(t).RaisesOnEmpty() && !c.mon(t).RaisesOnEmpty()
  }

  function Beyond(n: nat, m: nat): nat {
    if n <= m then 0 else n - m
  }

  /** The counters are `i`, `j` and `k`. */
  predicate CountersAre(n: AllCounts, t: string, i: nat, j: nat, k: nat) {
    CountOf(n.config, t) == i && CountOf(n.oper, t) == j && CountOf(n.mon, t) == k
  }

  /** The last `k` cycles were quiet for a tenant, and before them nothing was counted. */
  ghost predicate QuietSince(cycles: seq<Cycle>, k: nat, t: string) {
    k <= |cycles| && CountersAre(RunCounts(cycles[..|cycles| - k]), t, 0, 0, 0) &&
    forall i :: |cycles| - k <= i < |cycles| ==> QuietCycle(cycles[i], t)
  }

  /** The three pairs wait one after the other. */
  lemma {:induction false} PairsWaitInTurn(cycles: seq<Cycle>, k: nat, t: string)
    requires QuietSince(cycles, k, t) && k <= 9
    ensures CountersAre(RunCounts(cycles), t, k, Beyond(k, 3), Beyond(k, 6))
    decreases k
  {
    if k == 0 {
      assert cycles[..|cycles|] == cycles;
    } else {
      QuietBefore(cycles, k, t);
      PairsWaitInTurn(cycles[..|cycles| - 1], k - 1, t);
      QuietTurn(RunCounts(cycles[..|cycles| - 1]), cycles[|cycles| - 1], k - 1, t);
    }
  }

  lemma QuietBefore(cycles: seq<Cycle>, k: nat, t: string)
    requires QuietSince(cycles, k, t) && k > 0
    ensures QuietSince(cycles[..|cycles| - 1], k - 1, t) && QuietCycle(cycles[|cycles| - 1], t)
  {
    var init := cycles[..|cycles| - 1];
    assert init[..|init| - (k - 1)] == cycles[..|cycles| - k];
  }

  lemma QuietTurn(n: AllCounts, last: Cycle, k: nat, t: string)
    requires CountersAre(n, t, k, Beyond(k, 3), Beyond(k, 6)) && QuietCycle(last, t) && k < 9
    ensures CountersAre(CountsAfterCycle(last, n), t, k + 1, Beyond(k + 1, 3), Beyond(k + 1, 6))
  {
    QuietStep(last, n, t, k, Beyond(k, 3), Beyond(k, 6));
  }

  lemma QuietStep(c: Cycle, n: AllCounts, t: string, i: nat, j: nat, k: nat)
    requires QuietCycle(c, t) && CountersAre(n, t, i, j, k)
    ensures t in Cleaned(c, n) <==> i >= 3 && j >= 3 && k >= 3
    ensures t !in Cleaned(c, n) ==>
      CountersAre(CountsAfterCycle(c, n), t, i + 1, if i >= 3 then j + 1 else j, if i >= 3 && j >= 3 then k + 1 else k)
  {
    var p, q, r := ConfigPass(c, n), OperPass(c, n), MonPass(c, n);
    assert t in p.candidates && p.Counted(t);
    assert t in q.candidates <==> i >= 3;
    assert t in r.candidates <==> t in q.candidates && j >= 3;
  }

  /** A tenant of which nothing is left is dropped in the tenth quiet cycle, and not before. */
  lemma TenQuietCycles(cycles: seq<Cycle>, k: nat, c: Cycle, t: string)
    requires QuietSince(cycles, k, t) && k <= 9 && QuietCycle(c, t)
    ensures t in Cleaned(c, RunCounts(cycles)) <==> k == 9
  {
    PairsWaitInTurn(cycles, k, t);
    QuietStep(c, RunCounts(cycles), t, k, Beyond(k, 3), Beyond(k, 6));
  }

  /** A pair that resets a tenant sees trees that differ, so something is left of it and it is not dropped. */
  lemma ResetIsKept(c: Cycle, n: AllCounts, p: Pair, t: string)
    requires var pass := PassOfPair(p, c, n);
      t in pass.mine && t in pass.other && Met(pass.handle(t), pass.mine[t], pass.other[t]).event == Resets
    ensures var pass := PassOfPair(p, c, n); Differ(pass.mine[t], pass.other[t])
    ensures t !in Cleaned(c, n)
  {
    if t in Cleaned(c, n) {
      DroppedIsEmpty(c, n, t);
    }
  }

  /** Both universes of a pair have seen the tenant. */
  predicate Knows(p: Pair, seen: Snapshot, t: string) {
    match p
    case ConfigPair => t in seen.aciConfig && t in seen.aimConfig
    case OperPair => t in seen.aimOper && t in seen.aciOper
    case MonPair => t in seen.aimMon && t in seen.aciMon
  }

  function HandlingOf(p: Pair, c: Cycle, t: string): Handling {
    match p
    case ConfigPair => c.config(t)
    case OperPair => c.oper(t)
    case MonPair => c.mon(t)
  }

  /** Nothing is left of the tenant where it counts. */
  predicate NothingLeft(seen: Snapshot, t: string) {
    && (t in seen.aimConfig && seen.aimConfig[t].Empty())
    && (t in seen.aciConfig && seen.aciConfig[t].Empty())
    && (t !in seen.aimOper || seen.aimOper[t].Empty())
    && (t !in seen.aimMon || seen.aimMon[t].Empty())
  }

  /** A pair lets go of a tenant that it does not know, that it raises on, or that it has waited for. */
  predicate LetsGo(p: Pair, c: Cycle, n: AllCounts, t: string) {
    !Knows(p, c.seen, t) || HandlingOf(p, c, t).RaisesOnEmpty() || CountOf(CountsOf(p, n), t) >= WAIT_CYCLES
  }

  /** A pair that sees nothing of a candidate. */
  lemma PassLetsGo(pass: Pass, t: string)
    requires t in pass.candidates && (t in pass.mine && t in pass.other ==> Quiet(pass.mine[t], pass.other[t]))
    ensures t in pass.CandidatesAfter() <==>
      !(t in pass.mine && t in pass.other) || pass.handle(t).RaisesOnEmpty() || CountOf(pass.counts, t) >= WAIT_CYCLES
  {}

  lemma PairsLetGo(c: Cycle, n: AllCounts, t: string)
    requires NothingLeft(c.seen, t)
    ensures t in MonPass(c, n).CandidatesAfter() <==>
      LetsGo(ConfigPair, c, n, t) && LetsGo(OperPair, c, n, t) && LetsGo(MonPair, c, n, t)
  {
    var q, r, m := ConfigPass(c, n), OperPass(c, n), MonPass(c, n);
    assert t in q.candidates;
    PassLetsGo(q, t);
    if t in r.candidates {
      PassLetsGo(r, t);
    }
    if t in m.candidates {
      PassLetsGo(m, t);
    }
  }

  /**
   Exactly when a cycle drops a tenant: nothing is left of it where it counts, and every pair has
   waited for it, raises on it or does not know it. The pairs that know it and do not raise are
   the ones that make it wait.
   */
  lemma DroppedExactly(c: Cycle, n: AllCounts, t: string)
    ensures t in Cleaned(c, n) <==> NothingLeft(c.seen, t) && forall p :: LetsGo(p, c, n, t)
  {
    assert (forall p :: LetsGo(p, c, n, t)) <==>
      LetsGo(ConfigPair, c, n, t) && LetsGo(OperPair, c, n, t) && LetsGo(MonPair, c, n, t);
    if NothingLeft(c.seen, t) {
      PairsLetGo(c, n, t);
    } else if t in Cleaned(c, n) {
      DroppedIsEmpty(c, n, t);
    }
  }

  /** The same, written out: what is left of the tenant, and how each pair gets on with it. */
  lemma DroppedMeans(c: Cycle, n: AllCounts, t: string)
    ensures t in Cleaned(c, n) <==>
      && t in c.seen.aimConfig && c.seen.aimConfig[t].nodes == map[]
      && t in c.seen.aciConfig && c.seen.aciConfig[t].nodes == map[]
      && (t in c.seen.aimOper ==> c.seen.aimOper[t].nodes == map[])
      && (t in c.seen.aimMon ==> c.seen.aimMon[t].nodes == map[])
      && (c.config(t).event == RaisesInResult || c.config(t).event == RaisesLater ||
          (t in n.config && n.config[t] >= 3))
      && (t in c.seen.aimOper && t in c.seen.aciOper ==>
            c.oper(t).event == RaisesInResult || c.oper(t).event == RaisesLater || (t in n.oper && n.oper[t] >= 3))
      && (t in c.seen.aimMon && t in c.seen.aciMon ==>
            c.mon(t).event == RaisesInResult || c.mon(t).event == RaisesLater || (t in n.mon && n.mon[t] >= 3))
  {
    DroppedExactly(c, n, t);
    assert (forall p :: LetsGo(p, c, n, t)) <==>
      LetsGo(ConfigPair, c, n, t) && LetsGo(OperPair, c, n, t) && LetsGo(MonPair, c, n, t);
  }

  /** A pair that knows the tenant and does not raise has found nothing of it in its last looks. */
  ghost predicate Waited(cycles: seq<Cycle>, c: Cycle, p: Pair, t: string) {
    Knows(p, c.seen, t) && !HandlingOf(p, c, t).RaisesOnEmpty() ==> Trailing(History(cycles, p, t)) >= WAIT_CYCLES
  }

  lemma WaitedLetsGo(cycles: seq<Cycle>, c: Cycle, p: Pair, t: string)
    ensures LetsGo(p, c, RunCounts(cycles), t) <==> Waited(cycles, c, p, t)
  {
    CounterIsTrailing(cycles, p, t);
  }

  /** Exactly when a cycle at the end of a run drops a tenant. */
  lemma DroppedExactlyInRun(cycles: seq<Cycle>, c: Cycle, t: string)
    ensures t in Cleaned(c, RunCounts(cycles)) <==> NothingLeft(c.seen, t) && forall p :: Waited(cycles, c, p, t)
  {
    DroppedExactly(c, RunCounts(cycles), t);
    forall p ensures LetsGo(p, c, RunCounts(cycles), t) <==> Waited(cycles, c, p, t) {
      WaitedLetsGo(cycles, c, p, t);
    }
  }

  /** Exceptions skip the wait: when every pair raises, a tenant of which nothing is left is dropped at once. */
  lemma FaultsSkipTheWait(c: Cycle, n: AllCounts, t: string)
    requires c.config(t).RaisesOnEmpty() && c.oper(t).RaisesOnEmpty() && c.mon(t).RaisesOnEmpty()
    ensures t in Cleaned(c, n) <==> NothingLeft(c.seen, t)
  {
    DroppedExactly(c, n, t);
  }

  lemma RunOneMore(cycles: seq<Cycle>, i: nat)
    requires i < |cycles|
    ensures RunCounts(cycles[..i + 1]) == CountsAfterCycle(cycles[i], RunCounts(cycles[..i]))
  {
    assert cycles[..i + 1][..i] == cycles[..i];
  }

  /** What each cycle of a run dropped. */
  ghost predicate Drops(cycles: seq<Cycle>, dropped: seq<set<string>>) {
    |dropped| == |cycles| && forall i :: 0 <= i < |cycles| ==> dropped[i] == Cleaned(cycles[i], RunCounts(cycles[..i]))
  }

  lemma DropsOneMore(cycles: seq<Cycle>, i: nat, dropped: seq<set<string>>, more: set<string>)
    requires i < |cycles| && Drops(cycles[..i], dropped) && more == Cleaned(cycles[i], RunCounts(cycles[..i]))
    ensures Drops(cycles[..i + 1], dropped + [more])
  {
    assert cycles[..i + 1][..i] == cycles[..i];
    forall j | 0 <= j < i + 1
      ensures (dropped + [more])[j] == Cleaned(cycles[..i + 1][j], RunCounts(cycles[..i + 1][..j]))
    {
      assert cycles[..i + 1][..j] == cycles[..j] && (j < i ==> cycles[..i][..j] == cycles[..j]);
    }
  }

  /** Over a run of a fresh agent, what each cycle drops and the counters at the end are those of the run. */
  method RunCycles(agent: Agent, cycles: seq<Cycle>) returns (dropped: seq<set<string>>)
    requires agent.Valid() && agent.Counters() == NO_COUNTS
    modifies agent.aimConfig, agent.aciConfig, agent.aciOper, agent.aimOper, agent.aciMon, agent.aimMon
    ensures agent.Counters() == RunCounts(cycles)
    ensures Drops(cycles, dropped)
  {
    dropped := [];
    for i := 0 to |cycles|
      invariant agent.Counters() == RunCounts(cycles[..i])
      invariant Drops(cycles[..i], dropped)
    {
      RunOneMore(cycles, i);
      var more := agent.ReconciliationCycle(cycles[i]);
      DropsOneMore(cycles, i, dropped, more);
      dropped := dropped + [more];
    }
    assert cycles[..|cycles|] == cycles;
  }
}
