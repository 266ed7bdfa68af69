/**
 The tracker of repeated operations. A resource that keeps being created or deleted is retried with
 growing waits; its root is reset after a while, and later the resource is put in error.
 */
module DivergenceTracker {
  datatype Resource = Resource(root: string, id: string)

  datatype Action = Create | Delete

  datatype Reaction = AskReset | Purge

  /** `since` is when tracking began, `next` when the operation may be considered again. */
  datatype Entry = Entry(limit: int, retries: int, reaction: Reaction, since: real, next: real)

  datatype Log = Log(create: map<Resource, Entry>, delete: map<Resource, Entry>) {
    function Of(action: Action): map<Resource, Entry> {
      match action
      case Create => create
      case Delete => delete
    }

    function Put(action: Action, r: Resource, e: Entry): Log {
      match action
      case Create => this.(create := create[r := e])
      case Delete => this.(delete := delete[r := e])
    }
  }

  const NO_LOG := Log(map[], map[])

  datatype Verdict = Skip | Quiet | Reset | Fail

  /** `random` gives the draw in [0, 1) made for a resource in one iteration. */
  type Draw = Resource -> real

  ghost predicate IsDraw(random: Draw) {
    forall r :: 0.0 <= random(r) < 1.0
  }

  function Power(n: int): real {
    if n < -1 then 0.0 else if n == -1 then 0.5 else if n == 0 then 1.0 else 2.0 * Power(n - 1)
  }

  lemma {:induction false} PowerIsPositive(n: int)
    requires n >= -1
    ensures Power(n) > 0.0
  {
    if n <= 0 {
    } else {
      PowerIsPositive(n - 1);
    }
  }

  /** Past this exponent the floating point product overflows, and the wait is the longest one. */
  const OVERFLOW := 1024

  function Backoff(longest: real, tentative: int, draw: real): real {
    if tentative >= OVERFLOW then longest else
    var wait := draw * Power(tentative);
    if wait < longest then wait else longest
  }

  /** A wait is never longer than the longest wait, nor than the power of two of its retry count. */
  lemma BackoffIsBounded(longest: real, tentative: int, draw: real)
    requires longest >= 0.0 && 0.0 <= draw < 1.0 && tentative >= -1
    ensures 0.0 <= Backoff(longest, tentative, draw) <= longest
    ensures tentative < OVERFLOW ==> Backoff(longest, tentative, draw) <= Power(tentative)
  {
    PowerIsPositive(tentative);
    Scaled(draw, Power(tentative));
  }

  /**
   The wait before the first retry is half the draw, and doubles with each retry until it reaches the
   longest one, which it has from the retry on whose power of two is too large.
   */
  lemma BackoffDoubles(longest: real, tentative: int, draw: real)
    requires longest >= 0.0 && 0.0 < draw < 1.0 && -1 <= tentative < 1023
    ensures tentative == -1 ==>
      Backoff(longest, tentative, draw) == if draw / 2.0 < longest then draw / 2.0 else longest
    ensures var wait := Backoff(longest, tentative, draw);
      Backoff(longest, tentative + 1, draw) == if 2.0 * wait < longest then 2.0 * wait else longest
    ensures forall k {:trigger Backoff(longest, k, draw)} :: k >= 1024 ==> Backoff(longest, k, draw) == longest
  {
    PowerIsPositive(tentative);
    assert Power(tentative + 1) == 2.0 * Power(tentative);
    assert draw * Power(tentative + 1) == 2.0 * (draw * Power(tentative));
  }

  /** Two to the n-th. */
  function TwoTo(n: nat): real {
    if n == 0 then 1.0 else 2.0 * TwoTo(n - 1)
  }

  /** The wait in closed form: the draw times half the power of two, or the longest wait. */
  lemma {:induction false} BackoffIs(longest: real, tentative: int, draw: real)
    requires longest >= 0.0 && 0.0 < draw < 1.0 && -1 <= tentative <= 1023
    ensures var wait := draw * TwoTo(tentative + 1) / 2.0;
      Backoff(longest, tentative, draw) == if wait < longest then wait else longest
  {
    if tentative == -1 {
      BackoffDoubles(longest, -1, draw);
    } else {
      BackoffIs(longest, tentative - 1, draw);
      BackoffDoubles(longest, tentative - 1, draw);
      assert draw * TwoTo(tentative + 1) == 2.0 * (draw * TwoTo(tentative));
    }
  }

  lemma Scaled(draw: real, p: real)
    requires 0.0 <= draw < 1.0 && p > 0.0
    ensures 0.0 <= draw * p <= p
  {}

  /** The retry limits that `max_operation_retry` gives. */
  datatype Settings = Settings(maxRetry: int, longest: real) {

    function ResetLimit(): int { 2 * maxRetry }

    function PurgeLimit(): int { 2 * ResetLimit() }

    function NewEntry(now: real): Entry {
      Entry(ResetLimit(), -1, AskReset, now, now)
    }

    function EntryOf(log: map<Resource, Entry>, r: Resource, now: real): Entry {
      if r in log then log[r] else NewEntry(now)
    }

    /** An attempt that is not too soon. */
    function Strike(e: Entry): (Entry, Verdict) {
      var e' := e.(retries := e.retries + 1);
      if e'.retries <= e'.limit then (e', Quiet)
      else if e'.reaction == AskReset then (e'.(limit := PurgeLimit(), reaction := Purge), Reset)
      else (e'.(limit := e'.limit + 5), Fail)
    }

    /** One look at an operation that is still asked for. */
    function Attempt(e: Entry, now: real, draw: real): (Entry, Verdict) {
      if now < e.next then (e, Skip) else Strike(e.(next := now + Backoff(longest, e.retries, draw)))
    }

    /** The verdict on a resource for which an operation is asked, given what was recorded. */
    function VerdictOn(log: map<Resource, Entry>, r: Resource, now: real, random: Draw): Verdict {
      Attempt(EntryOf(log, r, now), now, random(r)).1
    }

    function Tracked(log: map<Resource, Entry>, rs: set<Resource>, now: real, random: Draw): map<Resource, Entry> {
      map r | r in rs :: Attempt(EntryOf(log, r, now), now, random(r)).0
    }
  }

  /** The operations of one iteration; a resource counts under the first action that names it. */
  datatype Iteration = Iteration(creates: seq<Resource>, deletes: seq<Resource>, now: real, random: Draw) {

    /** What was asked for, up to some position of each list. */
    ghost function Upto(creates: nat, deletes: nat): Asked
      requires creates <= |this.creates| && deletes <= |this.deletes|
    {
      Asked(set r | r in this.creates[..creates], set r | r in this.deletes[..deletes] && r !in this.creates)
    }

    ghost function All(): Asked {
      Asked(set r | r in creates, set r | r in deletes && r !in creates)
    }

    ghost predicate BadFor(root: string) {
      exists r :: (r in creates || r in deletes) && r.root != root
    }
  }

  datatype Asked = Asked(create: set<Resource>, delete: set<Resource>) {
    function Of(action: Action): set<Resource> {
      match action
      case Create => create
      case Delete => delete
    }

    function With(action: Action, r: Resource): Asked {
      match action
      case Create => this.(create := create + {r})
      case Delete => this.(delete := delete + {r})
    }
  }

  /** The result of tracking what was asked for, given what was recorded before. */
  datatype Progress = Progress(log: Log, reset: bool, fail: seq<(Action, Resource)>, skip: seq<(Action, Resource)>) {

    ghost predicate Covers(s: Settings, was: Log, it: Iteration, asked: Asked) {
      && (forall a :: log.Of(a) == s.Tracked(was.Of(a), asked.Of(a), it.now, it.random))
      && (reset <==> SomeReset(s, was, it, asked))
      && ListsExactly(fail, s, was, it, asked, Fail)
      && ListsExactly(skip, s, was, it, asked, Skip)
    }
  }

  /** The operations that got this verdict, once each. */
  ghost predicate ListsExactly(found: seq<(Action, Resource)>, s: Settings, was: Log, it: Iteration, asked: Asked,
                               verdict: Verdict)
  {
    && (forall a, r :: (a, r) in found <==> r in asked.Of(a) && s.VerdictOn(was.Of(a), r, it.now, it.random) == verdict)
    && NoRepeat(found)
  }

  ghost predicate NoRepeat<T>(xs: seq<T>) {
    forall i, j :: 0 <= i < j < |xs| ==> xs[i] != xs[j]
  }

  lemma ListsOneMore(found: seq<(Action, Resource)>, s: Settings, was: Log, it: Iteration, asked: Asked,
                     verdict: Verdict, action: Action, r: Resource)
    requires ListsExactly(found, s, was, it, asked, verdict) && r !in asked.Of(action)
    ensures var v := s.VerdictOn(was.Of(action), r, it.now, it.random);
      ListsExactly(if v == verdict then found + [(action, r)] else found, s, was, it, asked.With(action, r), verdict)
  {
    var more := found + [(action, r)];
    assert (action, r) !in found;
    assert forall x :: x in more <==> x in found || x == (action, r);
    forall a, q ensures q in asked.With(action, r).Of(a) <==> q in asked.Of(a) || (a == action && q == r) {
    }
  }

  lemma LogOneMore(s: Settings, log: map<Resource, Entry>, rs: set<Resource>, r: Resource, it: Iteration)
    ensures s.Tracked(log, rs + {r}, it.now, it.random) ==
      s.Tracked(log, rs, it.now, it.random)[r := s.Attempt(s.EntryOf(log, r, it.now), it.now, it.random(r)).0]
  {}

  lemma ItemCovers(p: Progress, s: Settings, was: Log, it: Iteration, action: Action, r: Resource, asked: Asked,
                   p': Progress)
    requires p.Covers(s, was, it, asked) && r !in asked.Of(action)
    requires var (e, v) := s.Attempt(s.EntryOf(was.Of(action), r, it.now), it.now, it.random(r));
      p' == Progress(p.log.Put(action, r, e), p.reset || v == Reset,
                     if v == Fail then p.fail + [(action, r)] else p.fail,
                     if v == Skip then p.skip + [(action, r)] else p.skip)
    ensures p'.Covers(s, was, it, asked.With(action, r))
  {
    LogOneMore(s, was.Of(action), asked.Of(action), r, it);
    ListsOneMore(p.fail, s, was, it, asked, Fail, action, r);
    ListsOneMore(p.skip, s, was, it, asked, Skip, action, r);
    ResetOneMore(s, was, it, action, r, asked);
  }

  ghost predicate SomeReset(s: Settings, was: Log, it: Iteration, asked: Asked) {
    exists a, r :: r in asked.Of(a) && s.VerdictOn(was.Of(a), r, it.now, it.random) == Reset
  }

  lemma ResetOneMore(s: Settings, was: Log, it: Iteration, action: Action, r: Resource, asked: Asked)
    ensures SomeReset(s, was, it, asked.With(action, r)) <==>
      SomeReset(s, was, it, asked) || s.VerdictOn(was.Of(action), r, it.now, it.random) == Reset
  {
    if SomeReset(s, was, it, asked) {
      var a, q :| q in asked.Of(a) && s.VerdictOn(was.Of(a), q, it.now, it.random) == Reset;
      assert q in asked.With(action, r).Of(a);
    }
    assert r in asked.With(action, r).Of(action);
  }

  /** What is listed, in terms of what was recorded: too soon, or attempted too often after the reset. */
  lemma OutcomeOf(p: Progress, s: Settings, was: Log, it: Iteration)
    requires p.Covers(s, was, it, it.All())
    ensures forall r :: (Create, r) in p.skip <==> r in it.creates && r in was.create && it.now < was.create[r].next
    ensures forall r :: (Delete, r) in p.skip <==>
      r in it.deletes && r !in it.creates && r in was.delete && it.now < was.delete[r].next
    ensures forall r :: (Create, r) in p.fail <==>
      && r in it.creates && r in was.create && was.create[r].next <= it.now
      && was.create[r].limit <= was.create[r].retries && was.create[r].reaction == Purge
    ensures forall r :: (Delete, r) in p.fail <==>
      && r in it.deletes && r !in it.creates && r in was.delete && was.delete[r].next <= it.now
      && was.delete[r].limit <= was.delete[r].retries && was.delete[r].reaction == Purge
  {
    forall r
      ensures (Create, r) in p.skip <==> r in it.creates && r in was.create && it.now < was.create[r].next
      ensures (Delete, r) in p.skip <==>
        r in it.deletes && r !in it.creates && r in was.delete && it.now < was.delete[r].next
    {
      assert it.All().Of(Create) == it.All().create && it.All().Of(Delete) == it.All().delete;
    }
    forall r
      ensures (Create, r) in p.fail <==>
        && r in it.creates && r in was.create && was.create[r].next <= it.now
        && was.create[r].limit <= was.create[r].retries && was.create[r].reaction == Purge
    {
      assert it.All().Of(Create) == it.All().create;
    }
    forall r
      ensures (Delete, r) in p.fail <==>
        && r in it.deletes && r !in it.creates && r in was.delete && was.delete[r].next <= it.now
        && was.delete[r].limit <= was.delete[r].retries && was.delete[r].reaction == Purge
    {
      assert it.All().Of(Delete) == it.All().delete;
    }
  }

  datatype Outcome =
    | Tracked(reset: bool, fail: seq<(Action, Resource)>, skip: seq<(Action, Resource)>)
    | BadTrackingArgument

  class Tracker {
    const settings: Settings
    var syncLog: map<string, Log>

    constructor (maxRetry: int)
      ensures settings == Settings(maxRetry, 600.0) && syncLog == map[]
    {
      settings := Settings(maxRetry, 600.0);
      syncLog := map[];
    }

    ghost function LogOf(root: string): Log
      reads this
    {
      if root in syncLog then syncLog[root] else NO_LOG
    }

    /** One operation; only the new log, which replaces the old one at the end, is written. */
    method TrackItem(p: Progress, was: Log, it: Iteration, action: Action, r: Resource, ghost asked: Asked)
      returns (p': Progress)
      requires p.Covers(settings, was, it, asked) && r !in asked.Of(action)
      ensures p'.Covers(settings, was, it, asked.With(action, r))
    {
      hide Backoff;
      var entry := if r in was.Of(action) then was.Of(action)[r] else settings.NewEntry(it.now);
      var reset, fail, skip := p.reset, p.fail, p.skip;
      if it.now < entry.next {
        skip := skip + [(action, r)];
      } else {
        entry := entry.(next := it.now + Backoff(settings.longest, entry.retries, it.random(r)));
        entry := entry.(retries := entry.retries + 1);
        if entry.retries > entry.limit {
          if entry.reaction == AskReset {
            reset := true;
            entry := entry.(limit := settings.PurgeLimit(), reaction := Purge);
          } else {
            entry := entry.(limit := entry.limit + 5);
            fail := fail + [(action, r)];
          }
        }
      }
      p' := Progress(p.log.Put(action, r, entry), reset, fail, skip);
      ItemCovers(p, settings, was, it, action, r, asked, p');
    }

    method TrackCreates(was: Log, it: Iteration, root: string) returns (p: Progress, seen: set<Resource>, bad: bool)
      ensures bad <==> exists r :: r in it.creates && r.root != root
      ensures !bad ==> p.Covers(settings, was, it, it.Upto(|it.creates|, 0)) && seen == set r | r in it.creates
    {
      seen, p, bad := {}, Progress(NO_LOG, false, [], []), false;
      for i := 0 to |it.creates|
        invariant p.Covers(settings, was, it, it.Upto(i, 0))
        invariant seen == set r | r in it.creates[..i]
        invariant forall r :: r in it.creates[..i] ==> r.root == root
      {
        var r := it.creates[i];
        assert it.creates[..i + 1] == it.creates[..i] + [r];
        if r in seen {
          assert it.Upto(i + 1, 0) == it.Upto(i, 0);
        } else {
          if r.root != root {
            return p, seen, true;
          }
          seen := seen + {r};
          p := TrackItem(p, was, it, Create, r, it.Upto(i, 0));
          assert it.Upto(i + 1, 0) == it.Upto(i, 0).With(Create, r);
        }
      }
      assert it.creates[..|it.creates|] == it.creates;
    }

    method TrackDeletes(was: Log, it: Iteration, root: string, p0: Progress, seen0: set<Resource>)
      returns (p: Progress, bad: bool)
      requires p0.Covers(settings, was, it, it.Upto(|it.creates|, 0)) && seen0 == set r | r in it.creates
      requires forall r :: r in it.creates ==> r.root == root
      ensures bad <==> exists r :: r in it.deletes && r.root != root
      ensures !bad ==> p.Covers(settings, was, it, it.All())
    {
      var seen := seen0;
      p, bad := p0, false;
      for i := 0 to |it.deletes|
        invariant p.Covers(settings, was, it, it.Upto(|it.creates|, i))
        invariant seen == seen0 + set r | r in it.deletes[..i]
        invariant forall r :: r in it.deletes[..i] ==> r.root == root
      {
        var r := it.deletes[i];
        assert it.deletes[..i + 1] == it.deletes[..i] + [r];
        if r in seen {
          assert it.Upto(|it.creates|, i + 1) == it.Upto(|it.creates|, i);
        } else {
          if r.root != root {
            return p, true;
          }
          seen := seen + {r};
          p := TrackItem(p, was, it, Delete, r, it.Upto(|it.creates|, i));
          assert it.Upto(|it.creates|, i + 1) == it.Upto(|it.creates|, i).With(Delete, r);
        }
      }
      assert it.deletes[..|it.deletes|] == it.deletes;
      assert it.Upto(|it.creates|, |it.deletes|) == it.All();
    }

    method TrackUniverseActions(it: Iteration, root: string) returns (outcome: Outcome)
      modifies this
      ensures outcome.BadTrackingArgument? <==> exists r :: (r in it.creates || r in it.deletes) && r.root != root
      ensures forall other :: other != root ==> (other in syncLog <==> other in old(syncLog))
      ensures forall other :: other != root && other in syncLog ==> syncLog[other] == old(syncLog)[other]
      ensures outcome.BadTrackingArgument? ==> LogOf(root) == old(LogOf(root))
      ensures outcome.Tracked? ==>
        var p := Progress(LogOf(root), outcome.reset, outcome.fail, outcome.skip);
        p.Covers(settings, old(LogOf(root)), it, it.All())
      ensures outcome.Tracked? ==>
        var was := old(LogOf(root)).create;
        && (forall r :: (Create, r) in outcome.skip <==> r in it.creates && r in was && it.now < was[r].next)
        && (forall r :: (Create, r) in outcome.fail <==>
              && r in it.creates && r in was && was[r].next <= it.now
              && was[r].limit <= was[r].retries && was[r].reaction == Purge)
      ensures outcome.Tracked? ==>
        var was, deletes := old(LogOf(root)).delete, set r | r in it.deletes && r !in it.creates;
        && (forall r :: (Delete, r) in outcome.skip <==> r in deletes && r in was && it.now < was[r].next)
        && (forall r :: (Delete, r) in outcome.fail <==>
              && r in deletes && r in was && was[r].next <= it.now
              && was[r].limit <= was[r].retries && was[r].reaction == Purge)
    {
      if root !in syncLog {
        syncLog := syncLog[root := NO_LOG];
      }
      var was := syncLog[root];
      var p, seen, bad := TrackCreates(was, it, root);
      if bad {
        return BadTrackingArgument;
      }
      p, bad := TrackDeletes(was, it, root, p, seen);
      if bad {
        return BadTrackingArgument;
      }
      OutcomeOf(p, settings, was, it);
      syncLog := syncLog[root := p.log];
      return Outcome.Tracked(p.reset, p.fail, p.skip);
    }
  }

  /** The log of a root after some iterations in which it was tracked. */
  ghost function RunLog(s: Settings, its: seq<Iteration>): Log {
    if its == [] then NO_LOG else
    var was, it := RunLog(s, its[..|its| - 1]), its[|its| - 1];
    Log(s.Tracked(was.create, it.All().create, it.now, it.random),
      s.Tracked(was.delete, it.All().delete, it.now, it.random))
  }

  /** What the last iteration made of an operation. */
  ghost function LastVerdict(s: Settings, its: seq<Iteration>, a: Action, r: Resource): Verdict
    requires its != []
  {
    var it := its[|its| - 1];
    s.VerdictOn(RunLog(s, its[..|its| - 1]).Of(a), r, it.now, it.random)
  }

  ghost predicate AskedLast(its: seq<Iteration>, a: Action, r: Resource) {
    its != [] && r in its[|its| - 1].All().Of(a)
  }

  /** How many attempts, not counting the skipped ones, an operation has had without a gap. */
  ghost function Streak(s: Settings, its: seq<Iteration>, a: Action, r: Resource): nat {
    if !AskedLast(its, a, r) then 0
    else Streak(s, its[..|its| - 1], a, r) + if LastVerdict(s, its, a, r) == Skip then 0 else 1
  }

  /** The entry of an operation after this many attempts, but for the times. */
  ghost function Nth(s: Settings, k: nat): Entry {
    if k == 0 then s.NewEntry(0.0) else s.Strike(Nth(s, k - 1)).0
  }

  /** The verdict of the k-th attempt. */
  ghost function VerdictAt(s: Settings, k: nat): Verdict
    requires k > 0
  {
    s.Strike(Nth(s, k - 1)).1
  }

  ghost predicate SameCount(a: Entry, b: Entry) {
    a.limit == b.limit && a.retries == b.retries && a.reaction == b.reaction
  }

  /** What an iteration makes of an operation that it asks for. */
  lemma RunLogLast(s: Settings, its: seq<Iteration>, a: Action, r: Resource)
    requires its != []
    ensures var before, it := its[..|its| - 1], its[|its| - 1];
      && (r in RunLog(s, its).Of(a) <==> AskedLast(its, a, r))
      && (AskedLast(its, a, r) ==>
            RunLog(s, its).Of(a)[r] == s.Attempt(s.EntryOf(RunLog(s, before).Of(a), r, it.now), it.now, it.random(r)).0)
  {
    var was, it := RunLog(s, its[..|its| - 1]), its[|its| - 1];
    match a
    case Create => assert RunLog(s, its).Of(a) == s.Tracked(was.create, it.All().create, it.now, it.random);
    case Delete => assert RunLog(s, its).Of(a) == s.Tracked(was.delete, it.All().delete, it.now, it.random);
  }

  /** One more attempt, seen from what was recorded before. */
  lemma StreakStep(s: Settings, its: seq<Iteration>, a: Action, r: Resource, n: Entry)
    requires AskedLast(its, a, r) && SameCount(s.EntryOf(RunLog(s, its[..|its| - 1]).Of(a), r, 0.0), n)
    ensures r in RunLog(s, its).Of(a)
    ensures LastVerdict(s, its, a, r) == Skip ==> SameCount(RunLog(s, its).Of(a)[r], n)
    ensures LastVerdict(s, its, a, r) != Skip ==>
      SameCount(RunLog(s, its).Of(a)[r], s.Strike(n).0) && LastVerdict(s, its, a, r) == s.Strike(n).1
  {
    RunLogLast(s, its, a, r);
    var before, it := its[..|its| - 1], its[|its| - 1];
    var e := s.EntryOf(RunLog(s, before).Of(a), r, it.now);
    if it.now >= e.next {
      StrikesAlike(s, e, n, it.now, it.random(r));
    }
  }

  lemma NoStreak(s: Settings, its: seq<Iteration>, a: Action, r: Resource)
    requires !AskedLast(its, a, r)
    ensures r !in RunLog(s, its).Of(a) && Streak(s, its, a, r) == 0
    ensures SameCount(s.EntryOf(RunLog(s, its).Of(a), r, 0.0), Nth(s, 0))
  {
    if its != [] {
      RunLogLast(s, its, a, r);
    }
  }

  lemma StreakIs(s: Settings, its: seq<Iteration>, a: Action, r: Resource)
    requires AskedLast(its, a, r)
    ensures Streak(s, its, a, r) ==
      Streak(s, its[..|its| - 1], a, r) + if LastVerdict(s, its, a, r) == Skip then 0 else 1
  {}

  lemma NthNext(s: Settings, k: nat)
    ensures Nth(s, k + 1) == s.Strike(Nth(s, k)).0 && VerdictAt(s, k + 1) == s.Strike(Nth(s, k)).1
  {}

  /** One more iteration that asks for the operation, given what the streak before it says. */
  lemma StreakGrowsBy(s: Settings, its: seq<Iteration>, a: Action, r: Resource, k: nat)
    requires its != [] && AskedLast(its, a, r) && k == Streak(s, its[..|its| - 1], a, r)
    requires SameCount(s.EntryOf(RunLog(s, its[..|its| - 1]).Of(a), r, 0.0), Nth(s, k))
    ensures r in RunLog(s, its).Of(a)
    ensures Streak(s, its, a, r) == if LastVerdict(s, its, a, r) == Skip then k else k + 1
    ensures SameCount(RunLog(s, its).Of(a)[r], Nth(s, Streak(s, its, a, r)))
    ensures LastVerdict(s, its, a, r) != Skip ==> LastVerdict(s, its, a, r) == VerdictAt(s, k + 1)
  {
    hide *;
    StreakStep(s, its, a, r, Nth(s, k));
    StreakIs(s, its, a, r);
    NthNext(s, k);
  }

  /** What is recorded depends on nothing but the length of the streak; without one nothing is recorded. */
  lemma {:induction false} RecordedIsStreak(s: Settings, its: seq<Iteration>, a: Action, r: Resource)
    ensures r in RunLog(s, its).Of(a) <==> AskedLast(its, a, r)
    ensures SameCount(s.EntryOf(RunLog(s, its).Of(a), r, 0.0), Nth(s, Streak(s, its, a, r)))
    ensures AskedLast(its, a, r) && LastVerdict(s, its, a, r) != Skip ==>
      LastVerdict(s, its, a, r) == VerdictAt(s, Streak(s, its, a, r))
    decreases |its|
  {
    if AskedLast(its, a, r) {
      var before := its[..|its| - 1];
      RecordedIsStreak(s, before, a, r);
      StreakGrowsBy(s, its, a, r, Streak(s, before, a, r));
    } else {
      NoStreak(s, its, a, r);
    }
  }

  lemma StrikesAlike(s: Settings, e: Entry, n: Entry, now: real, draw: real)
    requires SameCount(e, n) && now >= e.next
    ensures SameCount(s.Attempt(e, now, draw).0, s.Strike(n).0) && s.Attempt(e, now, draw).1 == s.Strike(n).1
  {}

  /** The attempts on which a root is reset and an operation fails. */
  ghost predicate RetryLaw(s: Settings) {
    forall k: nat {:trigger VerdictAt(s, k)} | k > 0 ::
      && (VerdictAt(s, k) == Reset <==> k == 2 * s.maxRetry + 2)
      && (VerdictAt(s, k) == Fail <==> k >= 4 * s.maxRetry + 2 && (k - 4 * s.maxRetry - 2) % 5 == 0)
  }

  lemma {:induction false} NthClosed(s: Settings, k: nat)
    requires s.maxRetry >= 1
    ensures var e, m := Nth(s, k), s.maxRetry;
      && e.retries == k - 1
      && (e.reaction == AskReset <==> k < 2 * m + 2)
      && e.limit ==
           if k < 2 * m + 2 then 2 * m
           else if k < 4 * m + 2 then 4 * m
           else 4 * m + 5 * ((k - 4 * m - 2) / 5 + 1)
  {
    if k == 0 {
    } else {
      NthClosed(s, k - 1);
    }
  }

  /** The law holds exactly when at least one retry is configured. */
  lemma RetryLawNeedsRetry(s: Settings)
    ensures RetryLaw(s) <==> s.maxRetry >= 1
  {
    if s.maxRetry >= 1 {
      forall k: nat | k > 0
        ensures VerdictAt(s, k) == Reset <==> k == 2 * s.maxRetry + 2
        ensures VerdictAt(s, k) == Fail <==> k >= 4 * s.maxRetry + 2 && (k - 4 * s.maxRetry - 2) % 5 == 0
      {
        NthClosed(s, k - 1);
        NthClosed(s, k);
      }
    } else if s.maxRetry == 0 {
      // By the law the second attempt fails, but it asks for a reset
      assert Nth(s, 1) == s.Strike(Nth(s, 0)).0;
      assert VerdictAt(s, 2) == Reset;
    } else {
      // The first attempt already asks for a reset
      assert VerdictAt(s, 1) == Reset;
    }
  }

  /** From iteration `i` to iteration `j` an operation was asked for every time. */
  ghost predicate NoGap(its: seq<Iteration>, a: Action, r: Resource, i: nat, j: nat)
    requires i <= j < |its|
  {
    forall n :: i <= n <= j ==> r in its[n].All().Of(a)
  }

  /** An operation that keeps being asked for does not ask for a second reset. */
  lemma ResetsOnce(s: Settings, its: seq<Iteration>, a: Action, r: Resource, i: nat, j: nat)
    requires s.maxRetry >= 1 && i < j < |its| && NoGap(its, a, r, i, j)
    requires LastVerdict(s, its[..i + 1], a, r) == Reset
    ensures LastVerdict(s, its[..j + 1], a, r) != Reset
  {
    StreakGrows(s, its, a, r, i, j);
    ResetAt(s, its, a, r, i);
    if LastVerdict(s, its[..j + 1], a, r) == Reset {
      ResetAt(s, its, a, r, j);
    }
  }

  lemma ResetAt(s: Settings, its: seq<Iteration>, a: Action, r: Resource, i: nat)
    requires s.maxRetry >= 1 && i < |its| && r in its[i].All().Of(a)
    requires LastVerdict(s, its[..i + 1], a, r) == Reset
    ensures Streak(s, its[..i + 1], a, r) == 2 * s.maxRetry + 2 == Streak(s, its[..i], a, r) + 1
  {
    var upto := its[..i + 1];
    assert upto[..i] == its[..i];
    assert AskedLast(upto, a, r);
    RecordedIsStreak(s, upto, a, r);
    RetryLawNeedsRetry(s);
    assert VerdictAt(s, Streak(s, upto, a, r)) == Reset;
  }

  lemma {:induction false} StreakGrows(s: Settings, its: seq<Iteration>, a: Action, r: Resource, i: nat, j: nat)
    requires i < j < |its| && NoGap(its, a, r, i, j)
    ensures Streak(s, its[..i + 1], a, r) <= Streak(s, its[..j], a, r)
    decreases j
  {
    if i + 1 < j {
      StreakGrows(s, its, a, r, i, j - 1);
      StreakGoesOn(s, its, a, r, j - 1);
    }
  }

  lemma StreakGoesOn(s: Settings, its: seq<Iteration>, a: Action, r: Resource, i: nat)
    requires i < |its| && r in its[i].All().Of(a)
    ensures Streak(s, its[..i], a, r) <= Streak(s, its[..i + 1], a, r)
  {
    var upto := its[..i + 1];
    assert upto[|upto| - 1] == its[i] && upto[..i] == its[..i];
    assert AskedLast(upto, a, r);
  }

  ghost predicate ClockGoesOn(its: seq<Iteration>) {
    forall i, j :: 0 <= i < j < |its| ==> its[i].now <= its[j].now
  }

  lemma AttemptWaits(s: Settings, e: Entry, now: real, draw: real)
    requires s.longest >= 0.0 && 0.0 <= draw < 1.0 && e.retries >= -1
    ensures var (e', v) := s.Attempt(e, now, draw);
      if v == Skip then e' == e && now < e.next else now <= e'.next <= now + s.longest
  {
    BackoffIsBounded(s.longest, e.retries, draw);
  }

  /** After any iteration no operation waits longer than the longest wait from then. */
  lemma {:induction false} WaitIsBounded(s: Settings, its: seq<Iteration>, a: Action, r: Resource)
    requires s.longest >= 0.0 && ClockGoesOn(its) && forall it :: it in its ==> IsDraw(it.random)
    requires r in RunLog(s, its).Of(a)
    ensures its != [] && RunLog(s, its).Of(a)[r].next <= its[|its| - 1].now + s.longest
    ensures LastVerdict(s, its, a, r) != Skip ==> RunLog(s, its).Of(a)[r].next >= its[|its| - 1].now
    decreases |its|
  {
    RunLogLast(s, its, a, r);
    var before, it := its[..|its| - 1], its[|its| - 1];
    RecordedIsStreak(s, before, a, r);
    NthRetries(s, Streak(s, before, a, r));
    assert IsDraw(it.random);
    AttemptWaits(s, s.EntryOf(RunLog(s, before).Of(a), r, it.now), it.now, it.random(r));
    if LastVerdict(s, its, a, r) == Skip {
      WaitGoesOn(s, its, a, r);
    }
  }

  lemma WaitGoesOn(s: Settings, its: seq<Iteration>, a: Action, r: Resource)
    requires s.longest >= 0.0 && ClockGoesOn(its) && forall it :: it in its ==> IsDraw(it.random)
    requires its != [] && AskedLast(its, a, r) && LastVerdict(s, its, a, r) == Skip
    ensures var before, it := its[..|its| - 1], its[|its| - 1];
      s.EntryOf(RunLog(s, before).Of(a), r, it.now).next <= it.now + s.longest
    decreases |its|, 0
  {
    var before, it := its[..|its| - 1], its[|its| - 1];
    if r in RunLog(s, before).Of(a) {
      WaitIsBounded(s, before, a, r);
    }
  }

  lemma {:induction false} NthRetries(s: Settings, k: nat)
    ensures Nth(s, k).retries == k - 1
  {
    if k == 0 {
    } else {
      NthRetries(s, k - 1);
    }
  }

  // ---------------------------------------------------------------- when an operation is tried again

  /** Exactly what the last iteration asked for is recorded; what it asked to create it did not ask to delete. */
  lemma RecordedAreAsked(s: Settings, its: seq<Iteration>, r: Resource)
    requires its != []
    ensures var it := its[|its| - 1];
      && (r in RunLog(s, its).create <==> r in it.creates)
      && (r in RunLog(s, its).delete <==> r in it.deletes && r !in it.creates)
  {
    RunLogLast(s, its, Create, r);
    RunLogLast(s, its, Delete, r);
  }

  /** An operation that the iteration before did not ask for is not skipped. */
  lemma FirstIsTried(s: Settings, its: seq<Iteration>, a: Action, r: Resource)
    requires AskedLast(its, a, r) && !AskedLast(its[..|its| - 1], a, r)
    ensures LastVerdict(s, its, a, r) != Skip
  {
    RecordedIsStreak(s, its[..|its| - 1], a, r);
  }

  lemma Doubled(draw: real, k: nat)
    requires k >= 1
    ensures draw * TwoTo(k - 1) / 2.0 == draw * TwoTo(k) / 4.0
  {
    assert TwoTo(k) == 2.0 * TwoTo(k - 1);
    assert draw * TwoTo(k) == 2.0 * (draw * TwoTo(k - 1));
  }

  /** The k-th attempt: a wait of the draw times two to the k minus two, up to the longest. */
  lemma AttemptIs(s: Settings, e: Entry, k: nat, now: real, draw: real, wait: real)
    requires s.longest >= 0.0 && 0.0 < draw < 1.0 && k >= 1 && e.retries == k - 2 && now >= e.next
    requires wait == draw * TwoTo(k) / 4.0
    ensures s.Attempt(e, now, draw).0.next == now + if k >= 1026 || wait >= s.longest then s.longest else wait
  {
    if k < 1026 {
      Doubled(draw, k);
      BackoffIs(s.longest, k - 2, draw);
    } else {
      BackoffDoubles(s.longest, -1, draw);
    }
  }

  /** The retries recorded before an attempt are two less than its place in the streak. */
  lemma RetriesBefore(s: Settings, its: seq<Iteration>, a: Action, r: Resource)
    requires AskedLast(its, a, r) && LastVerdict(s, its, a, r) != Skip
    ensures var before, it, k := its[..|its| - 1], its[|its| - 1], Streak(s, its, a, r);
      var e := s.EntryOf(RunLog(s, before).Of(a), r, it.now);
      k >= 1 && e.retries == k - 2 && it.now >= e.next
  {
    var before := its[..|its| - 1];
    RecordedIsStreak(s, before, a, r);
    NthRetries(s, Streak(s, before, a, r));
  }

  /** What the k-th attempt at this time, with this draw, records as the next time. */
  ghost predicate GivesNext(s: Settings, k: nat, now: real, draw: real, next: real) {
    forall e: Entry {:trigger s.Attempt(e, now, draw)} | e.retries == k - 2 && now >= e.next ::
      s.Attempt(e, now, draw).0.next == next
  }

  lemma NextRecorded(s: Settings, its: seq<Iteration>, a: Action, r: Resource, next: real)
    requires AskedLast(its, a, r) && LastVerdict(s, its, a, r) != Skip
    requires var it := its[|its| - 1]; GivesNext(s, Streak(s, its, a, r), it.now, it.random(r), next)
    ensures r in RunLog(s, its).Of(a) && RunLog(s, its).Of(a)[r].next == next
  {
    RunLogLast(s, its, a, r);
    RetriesBefore(s, its, a, r);
  }

  lemma WaitGiven(s: Settings, k: nat, now: real, draw: real, wait: real)
    requires s.longest >= 0.0 && 0.0 < draw < 1.0 && k >= 1 && wait == draw * TwoTo(k) / 4.0
    ensures GivesNext(s, k, now, draw, now + if k >= 1026 || wait >= s.longest then s.longest else wait)
  {
    forall e: Entry | e.retries == k - 2 && now >= e.next
      ensures s.Attempt(e, now, draw).0.next == now + if k >= 1026 || wait >= s.longest then s.longest else wait
    {
      AttemptIs(s, e, k, now, draw, wait);
    }
  }

  /** From its k-th attempt in a row an operation waits for the draw times two to the k minus two, up to the longest. */
  lemma AttemptSetsWait(s: Settings, its: seq<Iteration>, a: Action, r: Resource, k: nat, draw: real, wait: real)
    requires s.longest >= 0.0 && AskedLast(its, a, r) && LastVerdict(s, its, a, r) != Skip
    requires k == Streak(s, its, a, r) && draw == its[|its| - 1].random(r) && 0.0 < draw < 1.0
    requires wait == draw * TwoTo(k) / 4.0
    ensures r in RunLog(s, its).Of(a)
    ensures RunLog(s, its).Of(a)[r].next ==
      its[|its| - 1].now + if k >= 1026 || wait >= s.longest then s.longest else wait
  {
    hide RunLog, LastVerdict, Streak, TwoTo;
    RetriesBefore(s, its, a, r);
    var now := its[|its| - 1].now;
    WaitGiven(s, k, now, draw, wait);
    NextRecorded(s, its, a, r, now + if k >= 1026 || wait >= s.longest then s.longest else wait);
  }

  /** Asked for again, an operation is skipped exactly until the time recorded for it. */
  lemma SkippedUntil(s: Settings, its: seq<Iteration>, a: Action, r: Resource)
    requires AskedLast(its, a, r) && r in RunLog(s, its[..|its| - 1]).Of(a)
    ensures var next := RunLog(s, its[..|its| - 1]).Of(a)[r].next;
      && (LastVerdict(s, its, a, r) == Skip <==> its[|its| - 1].now < next)
      && (LastVerdict(s, its, a, r) == Skip ==> r in RunLog(s, its).Of(a) && RunLog(s, its).Of(a)[r].next == next)
  {
    RunLogLast(s, its, a, r);
  }

  lemma {:induction false} WaitStays(s: Settings, its: seq<Iteration>, a: Action, r: Resource, i: nat, j: nat,
                                     until: real)
    requires i < j < |its| && NoGap(its, a, r, i, j)
    requires r in RunLog(s, its[..i + 1]).Of(a) && RunLog(s, its[..i + 1]).Of(a)[r].next == until
    requires forall n :: i < n < j ==> its[n].now < until
    ensures r in RunLog(s, its[..j]).Of(a) && RunLog(s, its[..j]).Of(a)[r].next == until
    decreases j
  {
    hide RunLog, LastVerdict, Streak;
    if j == i + 1 {
    } else {
      WaitStays(s, its, a, r, i, j - 1, until);
      assert its[..j][..j - 1] == its[..j - 1];
      assert AskedLast(its[..j], a, r);
      SkippedUntil(s, its[..j], a, r);
    }
  }

  lemma SkipsUntil(s: Settings, its: seq<Iteration>, a: Action, r: Resource, i: nat, j: nat, until: real)
    requires i < j < |its| && NoGap(its, a, r, i, j)
    requires r in RunLog(s, its[..i + 1]).Of(a) && RunLog(s, its[..i + 1]).Of(a)[r].next == until
    requires forall n :: i < n < j ==> its[n].now < until
    ensures LastVerdict(s, its[..j + 1], a, r) == Skip <==> its[j].now < until
  {
    hide RunLog, LastVerdict, Streak;
    WaitStays(s, its, a, r, i, j, until);
    assert its[..j + 1][..j] == its[..j];
    assert AskedLast(its[..j + 1], a, r);
    SkippedUntil(s, its[..j + 1], a, r);
  }

  /**
   Over a run: an operation that was attempted, for the k-th time in a row, and is asked for in every
   iteration after that, is skipped exactly until the draw times two to the k minus two has passed, or the
   longest wait.
   */
  lemma TriedAgain(s: Settings, its: seq<Iteration>, a: Action, r: Resource, i: nat, j: nat, k: nat, draw: real,
                   wait: real)
    requires s.longest >= 0.0 && i < j < |its| && NoGap(its, a, r, i, j)
    requires LastVerdict(s, its[..i + 1], a, r) != Skip
    requires k == Streak(s, its[..i + 1], a, r) && draw == its[i].random(r) && 0.0 < draw < 1.0
    requires wait == draw * TwoTo(k) / 4.0
    ensures var until := its[i].now + if k >= 1026 || wait >= s.longest then s.longest else wait;
      (forall n :: i < n < j ==> its[n].now < until) ==>
        (LastVerdict(s, its[..j + 1], a, r) == Skip <==> its[j].now < until)
  {
    hide RunLog, LastVerdict, Streak, TwoTo;
    assert AskedLast(its[..i + 1], a, r);
    AttemptSetsWait(s, its[..i + 1], a, r, k, draw, wait);
    var until := RunLog(s, its[..i + 1]).Of(a)[r].next;
    if forall n :: i < n < j ==> its[n].now < until {
      SkipsUntil(s, its, a, r, i, j, until);
    }
  }

  /** The last iteration asked for the operation, and this is what it made of it. */
  ghost predicate Got(s: Settings, its: seq<Iteration>, a: Action, r: Resource, verdict: Verdict) {
    AskedLast(its, a, r) && LastVerdict(s, its, a, r) == verdict
  }

  /** What is reported for the last of some iterations, none of which had a bad argument. */
  ghost predicate Reports(s: Settings, its: seq<Iteration>, outcome: Outcome) {
    && outcome.Tracked?
    && (outcome.reset <==> exists a, r :: Got(s, its, a, r, Reset))
    && (forall a, r {:trigger Got(s, its, a, r, Fail)} {:trigger (a, r) in outcome.fail} ::
          (a, r) in outcome.fail <==> Got(s, its, a, r, Fail))
    && (forall a, r {:trigger Got(s, its, a, r, Skip)} {:trigger (a, r) in outcome.skip} ::
          (a, r) in outcome.skip <==> Got(s, its, a, r, Skip))
    && NoRepeat(outcome.fail) && NoRepeat(outcome.skip)
  }

  /** The streak, when the law of retries fails the operation on its last attempt. */
  predicate FailingStreak(maxRetry: int, streak: nat) {
    streak >= 4 * maxRetry + 2 && (streak - 4 * maxRetry - 2) % 5 == 0
  }

  /** The last iteration attempted the operation, not too soon. */
  ghost predicate Attempted(s: Settings, its: seq<Iteration>, a: Action, r: Resource) {
    AskedLast(its, a, r) && LastVerdict(s, its, a, r) != Skip
  }

  /** The last iteration attempted an operation that is due for a reset. */
  ghost predicate ResetsByLaw(s: Settings, its: seq<Iteration>, a: Action, r: Resource) {
    Attempted(s, its, a, r) && Streak(s, its, a, r) == 2 * s.maxRetry + 2
  }

  /** The last iteration attempted an operation that is due to fail. */
  ghost predicate FailsByLaw(s: Settings, its: seq<Iteration>, a: Action, r: Resource) {
    Attempted(s, its, a, r) && FailingStreak(s.maxRetry, Streak(s, its, a, r))
  }

  /**
   With at least one retry configured, a reset is reported exactly when some operation reaches the
   streak of the law, and a failure is reported of exactly the operations that reach theirs.
   */
  lemma ReportsFollowLaw(s: Settings, its: seq<Iteration>, outcome: Outcome)
    requires s.maxRetry >= 1 && Reports(s, its, outcome)
    ensures outcome.reset <==> exists a, r :: ResetsByLaw(s, its, a, r)
    ensures forall a, r {:trigger (a, r) in outcome.fail} :: (a, r) in outcome.fail <==> FailsByLaw(s, its, a, r)
  {
    forall a, r ensures Got(s, its, a, r, Reset) <==> ResetsByLaw(s, its, a, r) {
      VerdictOfStreak(s, its, a, r);
    }
    forall a, r ensures Got(s, its, a, r, Fail) <==> FailsByLaw(s, its, a, r) {
      VerdictOfStreak(s, its, a, r);
    }
  }

  lemma VerdictOfKth(s: Settings, k: nat)
    requires s.maxRetry >= 1 && k > 0
    ensures VerdictAt(s, k) == Reset <==> k == 2 * s.maxRetry + 2
    ensures VerdictAt(s, k) == Fail <==> k >= 4 * s.maxRetry + 2 && (k - 4 * s.maxRetry - 2) % 5 == 0
  {
    RetryLawNeedsRetry(s);
  }

  lemma VerdictOfStreak(s: Settings, its: seq<Iteration>, a: Action, r: Resource)
    requires s.maxRetry >= 1
    ensures Got(s, its, a, r, Reset) <==> ResetsByLaw(s, its, a, r)
    ensures Got(s, its, a, r, Fail) <==> FailsByLaw(s, its, a, r)
    ensures AskedLast(its, a, r) && LastVerdict(s, its, a, r) != Skip ==>
      var k, m := Streak(s, its, a, r), s.maxRetry;
      && (LastVerdict(s, its, a, r) == Reset <==> k == 2 * m + 2)
      && (LastVerdict(s, its, a, r) == Fail <==> k >= 4 * m + 2 && (k - 4 * m - 2) % 5 == 0)
  {
    hide RunLog, LastVerdict, Streak, VerdictAt, Nth;
    if Attempted(s, its, a, r) {
      RecordedIsStreak(s, its, a, r);
      RetriesBefore(s, its, a, r);
      VerdictOfKth(s, Streak(s, its, a, r));
    }
  }

  /** The iterations without a resource of another root: the others raise and leave the record alone. */
  ghost function Good(its: seq<Iteration>, root: string): seq<Iteration> {
    if its == [] then [] else
      Good(its[..|its| - 1], root) + if its[|its| - 1].BadFor(root) then [] else [its[|its| - 1]]
  }

  lemma GoodNext(its: seq<Iteration>, i: nat, root: string)
    requires i < |its|
    ensures Good(its[..i + 1], root) ==
      if its[i].BadFor(root) then Good(its[..i], root) else Good(its[..i], root) + [its[i]]
  {
    assert its[..i + 1][..i] == its[..i];
  }

  /** What tracking a root reports for an iteration, after these good ones. */
  ghost predicate Reported(s: Settings, before: seq<Iteration>, it: Iteration, root: string, outcome: Outcome) {
    if it.BadFor(root) then outcome == BadTrackingArgument else Reports(s, before + [it], outcome)
  }

  /** Every iteration of a run is reported as it should. */
  ghost predicate AllReported(s: Settings, its: seq<Iteration>, root: string, outcomes: seq<Outcome>) {
    |outcomes| == |its| && forall i :: 0 <= i < |its| ==> Reported(s, Good(its[..i], root), its[i], root, outcomes[i])
  }

  lemma ReportedOneMore(s: Settings, its: seq<Iteration>, i: nat, root: string, outcomes: seq<Outcome>,
                        outcome: Outcome)
    requires i < |its| && AllReported(s, its[..i], root, outcomes)
    requires Reported(s, Good(its[..i], root), its[i], root, outcome)
    ensures AllReported(s, its[..i + 1], root, outcomes + [outcome])
  {
    var upto, more := its[..i + 1], outcomes + [outcome];
    assert upto[..i] == its[..i];
    forall j | 0 <= j < i + 1 ensures Reported(s, Good(upto[..j], root), upto[j], root, more[j]) {
      if j < i {
        assert Reported(s, Good(its[..i][..j], root), its[..i][j], root, outcomes[j]);
        assert its[..i][..j] == upto[..j];
      }
    }
  }

  /** Tracking a root over any iterations: what is recorded in the end, and what is reported each time. */
  method TrackRun(tracker: Tracker, its: seq<Iteration>, root: string) returns (outcomes: seq<Outcome>)
    requires tracker.LogOf(root) == NO_LOG
    modifies tracker
    ensures tracker.LogOf(root) == RunLog(tracker.settings, Good(its, root))
    ensures AllReported(tracker.settings, its, root, outcomes)
  {
    outcomes := [];
    for i := 0 to |its|
      invariant tracker.LogOf(root) == RunLog(tracker.settings, Good(its[..i], root))
      invariant AllReported(tracker.settings, its[..i], root, outcomes)
    {
      var outcome := TrackNext(tracker, Good(its[..i], root), its[i], root);
      GoodNext(its, i, root);
      ReportedOneMore(tracker.settings, its, i, root, outcomes, outcome);
      outcomes := outcomes + [outcome];
    }
    assert its[..|its|] == its;
  }

  method TrackNext(tracker: Tracker, ghost before: seq<Iteration>, it: Iteration, root: string)
    returns (outcome: Outcome)
    requires tracker.LogOf(root) == RunLog(tracker.settings, before)
    modifies tracker
    ensures tracker.LogOf(root) == RunLog(tracker.settings, if it.BadFor(root) then before else before + [it])
    ensures Reported(tracker.settings, before, it, root, outcome)
  {
    ghost var s := tracker.settings;
    outcome := tracker.TrackUniverseActions(it, root);
    if !it.BadFor(root) {
      CoversReports(s, before, it, tracker.LogOf(root), outcome);
    }
  }

  lemma CoversReports(s: Settings, before: seq<Iteration>, it: Iteration, log: Log, outcome: Outcome)
    requires outcome.Tracked?
    requires Progress(log, outcome.reset, outcome.fail, outcome.skip).Covers(s, RunLog(s, before), it, it.All())
    ensures log == RunLog(s, before + [it]) && Reports(s, before + [it], outcome)
  {
    var was := RunLog(s, before);
    RunLogNext(s, before, it, log);
    forall a, r, v
      ensures Got(s, before + [it], a, r, v) <==>
        r in it.All().Of(a) && s.VerdictOn(was.Of(a), r, it.now, it.random) == v
    {
      GotNext(s, before, it, a, r, v);
    }
    SomeResetIsGot(s, before, it);
  }

  lemma GotNext(s: Settings, before: seq<Iteration>, it: Iteration, a: Action, r: Resource, v: Verdict)
    ensures Got(s, before + [it], a, r, v) <==>
      r in it.All().Of(a) && s.VerdictOn(RunLog(s, before).Of(a), r, it.now, it.random) == v
  {
    assert (before + [it])[..|before|] == before;
  }

  lemma SomeResetIsGot(s: Settings, before: seq<Iteration>, it: Iteration)
    ensures SomeReset(s, RunLog(s, before), it, it.All()) <==> exists a, r :: Got(s, before + [it], a, r, Reset)
  {
    if SomeReset(s, RunLog(s, before), it, it.All()) {
      var a, r :| r in it.All().Of(a) && s.VerdictOn(RunLog(s, before).Of(a), r, it.now, it.random) == Reset;
      GotNext(s, before, it, a, r, Reset);
    }
    if exists a, r :: Got(s, before + [it], a, r, Reset) {
      var a, r :| Got(s, before + [it], a, r, Reset);
      GotNext(s, before, it, a, r, Reset);
    }
  }

  lemma RunLogNext(s: Settings, before: seq<Iteration>, it: Iteration, log: Log)
    requires forall a :: log.Of(a) == s.Tracked(RunLog(s, before).Of(a), it.All().Of(a), it.now, it.random)
    ensures log == RunLog(s, before + [it])
  {
    assert (before + [it])[..|before|] == before;
    assert log.create == log.Of(Create) && log.delete == log.Of(Delete);
  }
}
