/** Deletion of several VPNs at once: deletionTimestamp is the queue, the provisioning lock
    serialises the cleanups. */
module DeletionQueue {
  import opened Common

  /** A deletion waits in the queue, has passed the check, holds the lock, or is cleaned up but
      not yet gone from the API server. */
  datatype Stage = Queued | Passed | Cleaning | Cleaned {
    function Rank(): nat {
      match this
      case Queued => 3
      case Passed => 2
      case Cleaning => 1
      case Cleaned => 0
    }
  }

  datatype Vpn = Live | Deleting(ts: nat, stage: Stage)

  datatype Holder = Free | HeldBy(name: string) | HeldByOther

  /** `cleaned` lists the timestamps of the finished cleanups in order. */
  datatype State = State(vpns: map<string, Vpn>, lock: Holder, clock: nat, cleaned: seq<nat>)

  datatype Event =
    | Create(name: string)
    | Request(name: string, ts: nat)
    | Check(name: string, listed: bool)
    | Acquire(name: string)
    | Finish(name: string)
    | Vanish(name: string)
    | OtherAcquires
    | OtherReleases

  predicate At(s: State, name: string, stage: Stage) {
    name in s.vpns && s.vpns[name].Deleting? && s.vpns[name].stage == stage
  }

  /** Another VPN is being deleted and was asked to go strictly earlier. */
  predicate Earlier(vpns: map<string, Vpn>, other: string, name: string)
    requires name in vpns && vpns[name].Deleting?
  {
    other in vpns && other != name && vpns[other].Deleting? && vpns[other].ts < vpns[name].ts
  }

  predicate MayProceed(vpns: map<string, Vpn>, name: string)
    requires name in vpns && vpns[name].Deleting?
  {
    forall other | other in vpns :: !Earlier(vpns, other, name)
  }

  predicate Enabled(s: State, e: Event) {
    match e
    case Create(name) => name !in s.vpns
    case Request(name, ts) => name in s.vpns && s.vpns[name].Live? && s.clock <= ts
    case Check(name, listed) => At(s, name, Queued) && (listed ==> MayProceed(s.vpns, name))
    case Acquire(name) => At(s, name, Passed) && s.lock.Free?
    case Finish(name) => At(s, name, Cleaning)
    case Vanish(name) => At(s, name, Cleaned)
    case OtherAcquires => s.lock.Free?
    case OtherReleases => s.lock.HeldByOther?
  }

  function Move(s: State, name: string, stage: Stage): State
    requires name in s.vpns && s.vpns[name].Deleting?
  {
    s.(vpns := s.vpns[name := s.vpns[name].(stage := stage)])
  }

  /** A check that fails, or any other step that is not possible, changes nothing. */
  function Step(s: State, e: Event): State {
    if !Enabled(s, e) then s
    else
      match e
      case Create(name) => s.(vpns := s.vpns[name := Live])
      case Request(name, ts) => s.(vpns := s.vpns[name := Deleting(ts, Queued)], clock := ts)
      case Check(name, _) => Move(s, name, Passed)
      case Acquire(name) => Move(s, name, Cleaning).(lock := HeldBy(name))
      case Finish(name) => Move(s, name, Cleaned).(lock := Free, cleaned := s.cleaned + [s.vpns[name].ts])
      case Vanish(name) => s.(vpns := s.vpns - {name})
      case OtherAcquires => s.(lock := HeldByOther)
      case OtherReleases => s.(lock := Free)
  }

  function RunOf(events: seq<Event>): State {
    if events == [] then State(map[], Free, 0, []) else Step(RunOf(events[..|events| - 1]), events[|events| - 1])
  }

  // ---------------------------------------------------------------- every run

  ghost predicate Inv(s: State) {
    && (forall n :: At(s, n, Cleaning) <==> s.lock == HeldBy(n))
    && (forall n | n in s.vpns && s.vpns[n].Deleting? :: s.vpns[n].ts <= s.clock)
    && (forall i | 0 <= i < |s.cleaned| :: s.cleaned[i] <= s.clock)
  }

  lemma StepKeepsInv(s: State, e: Event)
    requires Inv(s)
    ensures Inv(Step(s, e))
  {
    if Enabled(s, e) {
      var t := Step(s, e);
      forall n ensures At(t, n, Cleaning) <==> t.lock == HeldBy(n) {
        assert At(s, n, Cleaning) <==> s.lock == HeldBy(n);
      }
    }
  }

  /** Two VPNs never clean up at once, whatever the timestamps and whatever fails. */
  lemma {:induction false} NeverTwoInside(events: seq<Event>)
    ensures Inv(RunOf(events))
    ensures forall m, n :: At(RunOf(events), m, Cleaning) && At(RunOf(events), n, Cleaning) ==> m == n
  {
    if events != [] {
      NeverTwoInside(events[..|events| - 1]);
      StepKeepsInv(RunOf(events[..|events| - 1]), events[|events| - 1]);
    }
  }

  // ---------------------------------------------------------------- runs with distinct timestamps

  /** Deletion timestamps are distinct and the API server answers the list request. */
  predicate Orderly(events: seq<Event>) {
    events == [] ||
    var e := events[|events| - 1];
    && Orderly(events[..|events| - 1])
    && (e.Request? ==> RunOf(events[..|events| - 1]).clock < e.ts)
    && (e.Check? ==> e.listed)
  }

  predicate PastCheck(s: State, name: string) {
    name in s.vpns && s.vpns[name].Deleting? && !s.vpns[name].stage.Queued?
  }

  /** Whoever passed the check has nothing earlier in front. */
  ghost predicate Leading(s: State) {
    forall n | PastCheck(s, n) :: MayProceed(s.vpns, n)
  }

  lemma StepKeepsLeading(s: State, e: Event)
    requires Inv(s) && Leading(s) && (e.Check? ==> e.listed)
    ensures Leading(Step(s, e))
  {
    var t := Step(s, e);
    if Enabled(s, e) {
      forall n | PastCheck(t, n) ensures MayProceed(t.vpns, n) {
        if !e.Check? || e.name != n {
          assert PastCheck(s, n);
        }
        assert MayProceed(s.vpns, n);
        forall other | other in t.vpns ensures !Earlier(t.vpns, other, n) {
          assert other in s.vpns ==> !Earlier(s.vpns, other, n);
        }
      }
    }
  }

  /** A finished cleanup was not later than any still to come. */
  lemma FinishIsEarliest(s: State, name: string)
    requires Leading(s) && At(s, name, Cleaning)
    ensures forall n | n in s.vpns && s.vpns[n].Deleting? :: s.vpns[name].ts <= s.vpns[n].ts
  {
    assert PastCheck(s, name) && MayProceed(s.vpns, name);
    forall n | n in s.vpns && s.vpns[n].Deleting? ensures s.vpns[name].ts <= s.vpns[n].ts {
      assert !Earlier(s.vpns, n, name);
    }
  }

  /** Deletions present at once have different timestamps, and whoever passed the check is the
      earliest of them. */
  ghost predicate Ranked(s: State) {
    && (forall m, n | m in s.vpns && n in s.vpns && s.vpns[m].Deleting? && s.vpns[n].Deleting? && m != n ::
          s.vpns[m].ts != s.vpns[n].ts)
    && Leading(s)
  }

  /** Moreover, cleanups so far were earlier than every deletion still to be cleaned up. */
  ghost predicate InOrder(s: State) {
    && Ranked(s)
    && (forall i, n | 0 <= i < |s.cleaned| && n in s.vpns && s.vpns[n].Deleting? && !s.vpns[n].stage.Cleaned? ::
          s.cleaned[i] < s.vpns[n].ts)
    && Increasing(s.cleaned)
  }

  predicate Increasing(times: seq<nat>) {
    forall i, j | 0 <= i < j < |times| :: times[i] < times[j]
  }

  lemma StepKeepsInOrder(s: State, e: Event)
    requires Inv(s) && InOrder(s) && (e.Check? ==> e.listed) && (e.Request? ==> s.clock < e.ts)
    ensures InOrder(Step(s, e))
  {
    StepKeepsLeading(s, e);
    if e.Finish? && Enabled(s, e) {
      FinishIsEarliest(s, e.name);
    }
  }

  /** With distinct timestamps, cleanups finish in strictly increasing timestamp order, and at most
      one deletion at a time is anywhere past the check. */
  lemma {:induction false} CleanedInOrder(events: seq<Event>)
    requires Orderly(events)
    ensures InOrder(RunOf(events)) && Increasing(RunOf(events).cleaned)
    ensures AtMostOnePast(RunOf(events))
  {
    if events != [] {
      var s, e := RunOf(events[..|events| - 1]), events[|events| - 1];
      CleanedInOrder(events[..|events| - 1]);
      NeverTwoInside(events[..|events| - 1]);
      StepKeepsInOrder(s, e);
    }
    RankedIsOnePast(RunOf(events));
  }

  // ---------------------------------------------------------------- when two are past the check at once

  /** Two queued deletions that check one after the other both pass if and only if nothing earlier
      than the first is left and both were asked for at the same time. */
  lemma BothPassIff(s: State, a: string, b: string)
    requires a != b && At(s, a, Queued) && At(s, b, Queued)
    ensures var t := Step(Step(s, Check(a, true)), Check(b, true));
            PastCheck(t, a) && PastCheck(t, b) <==> MayProceed(s.vpns, a) && s.vpns[a].ts == s.vpns[b].ts
  {
    var t := Step(s, Check(a, true));
    if MayProceed(s.vpns, a) {
      assert !Earlier(s.vpns, b, a);
      if s.vpns[a].ts < s.vpns[b].ts {
        assert a in t.vpns && Earlier(t.vpns, a, b);
      } else {
        forall other | other in t.vpns ensures !Earlier(t.vpns, other, b) {
          assert !Earlier(s.vpns, other, a);
        }
      }
    }
  }

  ghost predicate AtMostOnePast(s: State) {
    forall m, n :: PastCheck(s, m) && PastCheck(s, n) ==> m == n
  }

  lemma RankedIsOnePast(s: State)
    requires Ranked(s)
    ensures AtMostOnePast(s)
  {
    forall m, n | PastCheck(s, m) && PastCheck(s, n) ensures m == n {
      assert MayProceed(s.vpns, m) && MayProceed(s.vpns, n);
      assert !Earlier(s.vpns, m, n) && !Earlier(s.vpns, n, m);
    }
  }

  /** A run in which VPN n is asked to go at ts[n], if at all; `answered` when no list request fails. */
  predicate Scheduled(events: seq<Event>, ts: map<string, nat>, answered: bool) {
    forall e | e in events :: (e.Request? ==> e.name in ts && ts[e.name] == e.ts) && (e.Check? && answered ==> e.listed)
  }

  predicate AllDistinct(ts: map<string, nat>) {
    forall a, b | a in ts && b in ts && a != b :: ts[a] != ts[b]
  }

  /** The timestamps in a scheduled run are the given ones. */
  ghost predicate Timestamped(s: State, ts: map<string, nat>) {
    forall n | n in s.vpns && s.vpns[n].Deleting? :: n in ts && s.vpns[n].ts == ts[n]
  }

  lemma {:induction false} RunTimestamped(events: seq<Event>, ts: map<string, nat>, answered: bool)
    requires Scheduled(events, ts, answered)
    ensures Timestamped(RunOf(events), ts)
  {
    if events != [] {
      var front, e := events[..|events| - 1], events[|events| - 1];
      assert e in events && forall x | x in front :: x in events;
      RunTimestamped(front, ts, answered);
    }
  }

  predicate NonDecreasing(times: seq<nat>) {
    forall i, j | 0 <= i < j < |times| :: times[i] <= times[j]
  }

  /** No cleanup so far was later than one still to come. */
  ghost predicate Ordered(s: State) {
    && Leading(s)
    && (forall i, n | 0 <= i < |s.cleaned| && n in s.vpns && s.vpns[n].Deleting? && !s.vpns[n].stage.Cleaned? ::
          s.cleaned[i] <= s.vpns[n].ts)
    && NonDecreasing(s.cleaned)
  }

  lemma StepKeepsOrdered(s: State, e: Event)
    requires Inv(s) && Ordered(s) && (e.Check? ==> e.listed)
    ensures Ordered(Step(s, e))
  {
    StepKeepsLeading(s, e);
    if e.Finish? && Enabled(s, e) {
      FinishIsEarliest(s, e.name);
    }
  }

  lemma {:induction false} AnsweredIsOrdered(events: seq<Event>, ts: map<string, nat>)
    requires Scheduled(events, ts, true)
    ensures Ordered(RunOf(events))
  {
    if events != [] {
      var front, e := events[..|events| - 1], events[|events| - 1];
      assert e in events && forall x | x in front :: x in events;
      AnsweredIsOrdered(front, ts);
      NeverTwoInside(front);
      StepKeepsOrdered(RunOf(front), e);
    }
  }

  lemma DistinctIsRanked(events: seq<Event>, ts: map<string, nat>)
    requires Scheduled(events, ts, true) && AllDistinct(ts)
    ensures Ranked(RunOf(events))
  {
    RunTimestamped(events, ts, true);
    AnsweredIsOrdered(events, ts);
  }

  /** With one VPN to delete, nothing is ever earlier. */
  lemma AloneIsRanked(events: seq<Event>, ts: map<string, nat>)
    requires Scheduled(events, ts, false) && forall a, b | a in ts && b in ts :: a == b
    ensures Ranked(RunOf(events))
  {
    RunTimestamped(events, ts, false);
  }

  /** Creates and requests two VPNs and lets both check before either takes the lock. */
  function Race(a: string, b: string, ts: map<string, nat>, listed: bool): seq<Event>
    requires a in ts && b in ts
  {
    [Create(a), Create(b), Request(a, ts[a]), Request(b, ts[b]), Check(a, listed), Check(b, listed)]
  }

  lemma RaceIs(a: string, b: string, ts: map<string, nat>, listed: bool)
    requires a in ts && b in ts && a != b && ts[a] <= ts[b]
    ensures var s := State(map[a := Deleting(ts[a], Queued), b := Deleting(ts[b], Queued)], Free, ts[b], []);
            RunOf(Race(a, b, ts, listed)) == Step(Step(s, Check(a, listed)), Check(b, listed))
  {
    var r := Race(a, b, ts, listed);
    assert |r| == 6;
    assert r[..5][..4] == r[..4];
    assert r[..4][..3] == r[..3];
    assert r[..3][..2] == r[..2];
    assert r[..2][..1] == r[..1];
    assert r[..1][..0] == [];
    assert RunOf(r[..1]) == State(map[a := Live], Free, 0, []);
    assert RunOf(r[..2]) == State(map[a := Live, b := Live], Free, 0, []);
    assert RunOf(r[..3]) == State(map[a := Deleting(ts[a], Queued), b := Live], Free, ts[a], []);
    assert RunOf(r[..4]) == State(map[a := Deleting(ts[a], Queued), b := Deleting(ts[b], Queued)], Free, ts[b], []);
  }

  lemma RaceBreaks(a: string, b: string, ts: map<string, nat>, answered: bool)
    requires a in ts && b in ts && a != b && ts[a] <= ts[b]
    requires answered ==> ts[a] == ts[b]
    ensures Scheduled(Race(a, b, ts, answered), ts, answered) && !AtMostOnePast(RunOf(Race(a, b, ts, answered)))
  {
    RaceIs(a, b, ts, answered);
    var s := State(map[a := Deleting(ts[a], Queued), b := Deleting(ts[b], Queued)], Free, ts[b], []);
    var t := Step(Step(s, Check(a, answered)), Check(b, answered));
    if answered {
      assert MayProceed(s.vpns, a);
      BothPassIff(s, a, b);
    }
    assert PastCheck(t, a) && PastCheck(t, b);
  }

  /** On every schedule at most one deletion at a time is past the check if and only if deletion
      timestamps are distinct and no list request fails, or there is only one VPN to delete. */
  lemma OnePastCheckIff(ts: map<string, nat>, answered: bool)
    ensures (forall events | Scheduled(events, ts, answered) :: AtMostOnePast(RunOf(events))) <==>
            (answered && AllDistinct(ts)) || forall a, b | a in ts && b in ts :: a == b
  {
    if a, b :| a in ts && b in ts && a != b && (!answered || ts[a] == ts[b]) {
      var (first, second) := if ts[a] <= ts[b] then (a, b) else (b, a);
      RaceBreaks(first, second, ts, answered);
    } else {
      forall events | Scheduled(events, ts, answered) ensures AtMostOnePast(RunOf(events)) {
        if answered {
          DistinctIsRanked(events, ts);
        } else {
          AloneIsRanked(events, ts);
        }
        RankedIsOnePast(RunOf(events));
      }
    }
  }

  // ---------------------------------------------------------------- the order of cleanups

  /** When all are asked to go at once, all finished cleanups have that one timestamp. */
  lemma {:induction false} OneTimeOnly(events: seq<Event>, ts: map<string, nat>, answered: bool)
    requires Scheduled(events, ts, answered) && forall a, b | a in ts && b in ts :: ts[a] == ts[b]
    ensures forall i, n | 0 <= i < |RunOf(events).cleaned| && n in ts :: RunOf(events).cleaned[i] == ts[n]
    ensures NonDecreasing(RunOf(events).cleaned)
  {
    if events != [] {
      var front, e := events[..|events| - 1], events[|events| - 1];
      assert forall x | x in front :: x in events;
      OneTimeOnly(front, ts, answered);
      RunTimestamped(front, ts, answered);
    }
  }

  /** Two deletions pass the check because the list could not be read, and the later one gets the
      lock first. */
  function Overtaking(a: string, b: string, ts: map<string, nat>): seq<Event>
    requires a in ts && b in ts
  {
    Race(a, b, ts, false) + [Acquire(b)] + [Finish(b)] + [Acquire(a)] + [Finish(a)]
  }

  lemma RunOfMore(events: seq<Event>, e: Event)
    ensures RunOf(events + [e]) == Step(RunOf(events), e)
  {
    assert (events + [e])[..|events|] == events;
  }

  lemma RunOfTwoMore(events: seq<Event>, d: Event, e: Event)
    ensures RunOf(events + [d] + [e]) == Step(Step(RunOf(events), d), e)
  {
    RunOfMore(events, d);
    RunOfMore(events + [d], e);
  }

  /** Both are past the check; b cleans up, and then a. */
  lemma LaterFirst(s: State, a: string, b: string, x: nat, y: nat)
    requires a != b && s == State(map[a := Deleting(x, Passed), b := Deleting(y, Passed)], Free, y, [])
    ensures Step(Step(Step(Step(s, Acquire(b)), Finish(b)), Acquire(a)), Finish(a)).cleaned == [y, x]
  {
    var t := Step(Step(s, Acquire(b)), Finish(b));
    assert t == State(map[a := Deleting(x, Passed), b := Deleting(y, Cleaned)], Free, y, [y]);
  }

  lemma OvertakingScheduled(a: string, b: string, ts: map<string, nat>)
    requires a in ts && b in ts
    ensures Scheduled(Overtaking(a, b, ts), ts, false)
  {
  }

  lemma OvertakingBreaks(a: string, b: string, ts: map<string, nat>)
    requires a in ts && b in ts && ts[a] < ts[b]
    ensures RunOf(Overtaking(a, b, ts)).cleaned == [ts[b], ts[a]]
  {
    var race, s := Race(a, b, ts, false), RunOf(Race(a, b, ts, false));
    RaceIs(a, b, ts, false);
    assert s == State(map[a := Deleting(ts[a], Passed), b := Deleting(ts[b], Passed)], Free, ts[b], []);
    RunOfTwoMore(race, Acquire(b), Finish(b));
    RunOfTwoMore(race + [Acquire(b)] + [Finish(b)], Acquire(a), Finish(a));
    LaterFirst(s, a, b, ts[a], ts[b]);
  }

  lemma OutOfOrder(later: nat, earlier: nat)
    requires earlier < later
    ensures !NonDecreasing([later, earlier])
  {
    assert [later, earlier][0] > [later, earlier][1];
  }

  /** On every schedule cleanups finish in timestamp order if and only if no list request fails, or
      all deletions have one timestamp. Ties do not matter. */
  lemma CleanedInOrderIff(ts: map<string, nat>, answered: bool)
    ensures (forall events | Scheduled(events, ts, answered) :: NonDecreasing(RunOf(events).cleaned)) <==>
            answered || forall a, b | a in ts && b in ts :: ts[a] == ts[b]
  {
    if !answered && exists a, b :: a in ts && b in ts && ts[a] < ts[b] {
      var a, b :| a in ts && b in ts && ts[a] < ts[b];
      OvertakingScheduled(a, b, ts);
      OvertakingBreaks(a, b, ts);
      OutOfOrder(ts[b], ts[a]);
    } else {
      forall events | Scheduled(events, ts, answered) ensures NonDecreasing(RunOf(events).cleaned) {
        if answered {
          AnsweredIsOrdered(events, ts);
        } else {
          OneTimeOnly(events, ts, answered);
        }
      }
    }
  }

  // ---------------------------------------------------------------- progress

  /** The deletions with at least `k` steps to go besides disappearing. */
  function Waiting(s: State, k: nat): set<string> {
    set n | n in s.vpns && s.vpns[n].Deleting? && s.vpns[n].stage.Rank() >= k
  }

  /** Steps left until every requested deletion is gone. */
  function Remaining(s: State): nat {
    |Waiting(s, 0)| + |Waiting(s, 1)| + |Waiting(s, 2)| + |Waiting(s, 3)|
  }

  predicate Deletes(e: Event) {
    e.Check? || e.Acquire? || e.Finish? || e.Vanish?
  }

  lemma WaitingAfter(s: State, e: Event, k: nat)
    requires Enabled(s, e) && Deletes(e)
    ensures e.name in s.vpns && s.vpns[e.name].Deleting? && e.name in Waiting(s, s.vpns[e.name].stage.Rank())
    ensures Waiting(Step(s, e), k) == if k == s.vpns[e.name].stage.Rank() then Waiting(s, k) - {e.name} else Waiting(s, k)
  {
  }

  lemma AdvanceCounts(s: State, e: Event)
    requires Enabled(s, e) && Deletes(e)
    ensures Remaining(Step(s, e)) == Remaining(s) - 1
  {
    WaitingAfter(s, e, 0);
    WaitingAfter(s, e, 1);
    WaitingAfter(s, e, 2);
    WaitingAfter(s, e, 3);
  }

  lemma {:induction false} Earliest(vpns: map<string, Vpn>, names: set<string>) returns (first: string)
    requires names != {} && forall n | n in names :: n in vpns && vpns[n].Deleting?
    ensures first in names && forall n | n in names :: vpns[first].ts <= vpns[n].ts
    decreases |names|
  {
    first :| first in names;
    if names != {first} {
      var other := Earliest(vpns, names - {first});
      if vpns[other].ts < vpns[first].ts {
        first := other;
      }
    }
  }

  /** Nobody waits forever: while a deletion is left and no other handler holds the lock, some
      deletion can take its next step, and each such step counts down. */
  lemma SomeDeletionProceeds(s: State) returns (e: Event)
    requires Inv(s) && !s.lock.HeldByOther? && Waiting(s, 0) != {}
    ensures Enabled(s, e) && Deletes(e) && (e.Check? ==> e.listed)
    ensures Remaining(Step(s, e)) < Remaining(s)
  {
    if n :| At(s, n, Cleaned) {
      e := Vanish(n);
    } else if s.lock.HeldBy? {
      e := Finish(s.lock.name);
    } else if n :| At(s, n, Passed) {
      e := Acquire(n);
    } else {
      var n := Earliest(s.vpns, Waiting(s, 0));
      assert !At(s, n, Cleaned) && !At(s, n, Passed) && !At(s, n, Cleaning);
      assert At(s, n, Queued);
      forall other | other in s.vpns ensures !Earlier(s.vpns, other, n) {
        if s.vpns[other].Deleting? {
          assert other in Waiting(s, 0);
        }
      }
      e := Check(n, true);
    }
    AdvanceCounts(s, e);
  }

  // ---------------------------------------------------------------- the check

  /** A listed VPN: its name and deletion timestamp, if any. */
  datatype Item = Item(name: string, deletion: Option<nat>)

  /** The handler's scan of the list: stops at the first other VPN deleted strictly earlier. */
  method ScanQueue(items: seq<Item>, name: string, mine: Option<nat>) returns (blocker: Option<string>)
    ensures blocker.Some? <==>
            mine.Some? && exists i :: 0 <= i < |items| && items[i].name != name && items[i].deletion.Some?
                                      && items[i].deletion.value < mine.value
    ensures blocker.Some? ==> exists i :: 0 <= i < |items| && items[i].name == blocker.value && blocker.value != name
                                          && items[i].deletion.Some? && items[i].deletion.value < mine.value
                                          && forall k :: 0 <= k < i ==> items[k].name == name || items[k].deletion.None?
                                                                        || mine.value <= items[k].deletion.value
  {
    blocker := None;
    for i := 0 to |items|
      invariant mine.Some? ==>
                forall k :: 0 <= k < i ==> items[k].name == name || items[k].deletion.None?
                                           || mine.value <= items[k].deletion.value
    {
      if items[i].name == name {
        continue;
      }
      if items[i].deletion.Some? && mine.Some? && items[i].deletion.value < mine.value {
        return Some(items[i].name);
      }
    }
  }
}
