/** Keeping the machine awake while agents work.

`PowerBlocker` is the operating system's side. Any of its calls may throw, and it may drop a blocker on
its own at any time; `faults` counts both. `AgentAwakeService` is the service with its own fields. The
results: in every run at most one blocker is ever held and the service knows which; without faults one is
held exactly when it should be; and this stays right until the stale timer is due, except when a refresh
falls on the very millisecond in which the last status expires.
 */
module AgentAwake {
  import opened CliText

  const AGENT_AWAKE_STATUS_STALE_AFTER_MS := 2 * 60 * 60 * 1000

  datatype AgentState = Working | Other
  datatype Timestamp = Finite(ms: int) | NotFinite
  datatype Status = Status(state: AgentState, receivedAt: Timestamp, observedInCurrentRuntime: bool)

  predicate Running(s: Status) {
    s.observedInCurrentRuntime && s.state.Working? && s.receivedAt.Finite?
  }

  predicate WakeEligible(s: Status, now: int) {
    Running(s) && now - s.receivedAt.ms <= AGENT_AWAKE_STATUS_STALE_AFTER_MS
  }

  function Expiry(s: Status): int
    requires Running(s)
  {
    s.receivedAt.ms + AGENT_AWAKE_STATUS_STALE_AFTER_MS
  }

  predicate AnyEligible(statuses: seq<Status>, now: int) {
    exists s | s in statuses :: WakeEligible(s, now)
  }

  /** `deadline` is the least expiry after `now`, if there is one. */
  ghost predicate IsDeadline(statuses: seq<Status>, now: int, deadline: Option<int>) {
    && (forall s | s in statuses && Running(s) && Expiry(s) > now :: deadline.Some? && deadline.value <= Expiry(s))
    && (deadline.Some? ==> exists s | s in statuses && Running(s) :: now < Expiry(s) == deadline.value)
  }

  lemma AddToDeadline(before: seq<Status>, s: Status, now: int, deadline: Option<int>, deadline': Option<int>)
    requires IsDeadline(before, now, deadline)
    requires deadline' == if !Running(s) || Expiry(s) <= now then deadline
                          else if deadline.None? || Expiry(s) < deadline.value then Some(Expiry(s)) else deadline
    ensures IsDeadline(before + [s], now, deadline')
  {
    if deadline'.Some? {
      if deadline' == deadline {
        var w :| w in before && Running(w) && now < Expiry(w) == deadline.value;
        assert w in before + [s];
      } else {
        assert s in before + [s];
      }
    }
  }

  /** The least expiry of a running status after `now`. */
  function Deadline(statuses: seq<Status>, now: int): Option<int> {
    if statuses == [] then None
    else
      var d, s := Deadline(statuses[..|statuses| - 1], now), statuses[|statuses| - 1];
      if !Running(s) || Expiry(s) <= now then d
      else if d.None? || Expiry(s) < d.value then Some(Expiry(s)) else d
  }

  lemma {:induction false} DeadlineIsOne(statuses: seq<Status>, now: int)
    ensures IsDeadline(statuses, now, Deadline(statuses, now))
  {
    if statuses != [] {
      var front, s := statuses[..|statuses| - 1], statuses[|statuses| - 1];
      DeadlineIsOne(front, now);
      AddToDeadline(front, s, now, Deadline(front, now), Deadline(statuses, now));
      assert front + [s] == statuses;
    }
  }

  lemma DeadlineIsUnique(statuses: seq<Status>, now: int, deadline: Option<int>)
    requires IsDeadline(statuses, now, deadline)
    ensures deadline == Deadline(statuses, now)
  {
    DeadlineIsOne(statuses, now);
  }

  // ----- which statuses count -----

  /** In the fields themselves: some status that this runtime has seen working arrived, at a finite time, no
      more than two hours before `now`. */
  lemma EligibleMeans(statuses: seq<Status>, now: int)
    ensures AnyEligible(statuses, now) <==>
              exists s | s in statuses ::
                && s.observedInCurrentRuntime && s.state == Working && s.receivedAt.Finite?
                && now - s.receivedAt.ms <= 7200000
  {
    if s :| s in statuses && WakeEligible(s, now) {
      assert s.receivedAt.Finite?;
    }
  }

  /** In the fields themselves: the least time after `now` that is two hours after the arrival of a status that
      this runtime has seen working. */
  lemma DeadlineMeans(statuses: seq<Status>, now: int)
    ensures var deadline := Deadline(statuses, now);
            && (forall s | && s in statuses && s.observedInCurrentRuntime && s.state == Working
                           && s.receivedAt.Finite? && s.receivedAt.ms + 7200000 > now ::
                  deadline.Some? && deadline.value <= s.receivedAt.ms + 7200000)
            && (deadline.Some? ==> exists s | s in statuses ::
                  && s.observedInCurrentRuntime && s.state == Working && s.receivedAt.Finite?
                  && now < s.receivedAt.ms + 7200000 == deadline.value)
  {
    DeadlineIsOne(statuses, now);
  }

  /** Any number of statuses that are not of the current runtime, not working, or without a finite time can be
      put in or left out anywhere. */
  lemma IgnoredStatus(before: seq<Status>, ignored: seq<Status>, after: seq<Status>, now: int)
    requires forall s | s in ignored ::
               !s.observedInCurrentRuntime || s.state != Working || s.receivedAt == NotFinite
    ensures AnyEligible(before + ignored + after, now) <==> AnyEligible(before + after, now)
    ensures Deadline(before + ignored + after, now) == Deadline(before + after, now)
  {
    var more, fewer := before + ignored + after, before + after;
    assert forall s | s in more :: s in before || s in ignored || s in after;
    assert forall s | s in fewer :: s in before || s in after;
    assert forall s | s in before || s in after :: s in more && s in fewer;
    DeadlineIsOne(fewer, now);
    DeadlineIsUnique(more, now, Deadline(fewer, now));
  }

  // ----- what the timer covers -----

  /** Nobody's eligibility changes from `from` up to the deadline, or ever when there is none. */
  ghost predicate Settled(statuses: seq<Status>, from: int, deadline: Option<int>) {
    forall s, t | s in statuses && from <= t && (deadline.Some? ==> t <= deadline.value) ::
      WakeEligible(s, t) <==> WakeEligible(s, from)
  }

  ghost predicate NoneExpiresAt(statuses: seq<Status>, now: int) {
    forall s | s in statuses && Running(s) :: Expiry(s) != now
  }

  /** No running status expires between the two times, either included. */
  ghost predicate NoneExpiresWithin(statuses: seq<Status>, from: int, to: int) {
    forall s | s in statuses && Running(s) :: !(from <= Expiry(s) <= to)
  }

  /** `held` is what it should be from `from` up to the deadline. */
  ghost predicate Right(held: bool, enabled: bool, statuses: seq<Status>, from: int, deadline: Option<int>) {
    forall t | from <= t && (deadline.Some? ==> t <= deadline.value) ::
      held <==> enabled && AnyEligible(statuses, t)
  }

  /** A refresh reads the clock twice, for the timer and for the count. A blocker that is right when the
      statuses are counted stays right until the timer is due, or for ever without one, if and only if it is
      disabled, the timer is armed, or no status expires from the count to the time the timer was set at. With
      equal readings that is the single instant; if the count comes later there is no such time. */
  lemma RightExactly(held: bool, enabled: bool, statuses: seq<Status>, scheduleNow: int, countNow: int,
                     deadline: Option<int>)
    requires IsDeadline(statuses, scheduleNow, deadline)
    requires held <==> enabled && AnyEligible(statuses, countNow)
    ensures Right(held, enabled, statuses, countNow, deadline)
       <==> !enabled || deadline.Some? || NoneExpiresWithin(statuses, countNow, scheduleNow)
  {
    if deadline.Some? {
    } else if enabled {
      NoTimerExactly(statuses, scheduleNow, countNow);
    }
  }

  lemma NoTimerExactly(statuses: seq<Status>, scheduleNow: int, countNow: int)
    requires IsDeadline(statuses, scheduleNow, None)
    ensures (forall t | countNow <= t :: AnyEligible(statuses, t) <==> AnyEligible(statuses, countNow))
       <==> NoneExpiresWithin(statuses, countNow, scheduleNow)
  {
    if s :| s in statuses && Running(s) && countNow <= Expiry(s) <= scheduleNow {
      assert WakeEligible(s, countNow);
      assert !AnyEligible(statuses, scheduleNow + 1);
    }
  }

  /** Eligibility keeps `<=` and scheduling drops `<=`, so the timer covers every status unless some status
      expires exactly now. Whether any status is eligible, which is all the blocker depends on, it covers
      unless that happens with no later expiry to arm the timer for. */
  lemma TimerCoversEligibility(statuses: seq<Status>, now: int, deadline: Option<int>)
    requires IsDeadline(statuses, now, deadline)
    ensures Settled(statuses, now, deadline) <==> NoneExpiresAt(statuses, now)
    ensures Right(AnyEligible(statuses, now), true, statuses, now, deadline)
       <==> NoneExpiresAt(statuses, now) || deadline.Some?
    ensures deadline.None? ==> forall t | t > now :: !AnyEligible(statuses, t)
  {
    RightExactly(AnyEligible(statuses, now), true, statuses, now, now, deadline);
    assert NoneExpiresWithin(statuses, now, now) <==> NoneExpiresAt(statuses, now);
    if s :| s in statuses && Running(s) && Expiry(s) == now {
      assert WakeEligible(s, now) && !WakeEligible(s, now + 1);
    }
  }

  /** The instant matters: a timer that fires on time finds its own status still eligible and arms nothing
      for it, so the blocker stays held after the status has gone stale. */
  lemma ExactExpiryIsMissed(statuses: seq<Status>, first: Option<int>, second: Option<int>)
    requires statuses == [Status(Working, Finite(0), true)]
    requires IsDeadline(statuses, 0, first)
    requires first.Some? && IsDeadline(statuses, first.value, second)
    ensures second == None && AnyEligible(statuses, first.value) && !AnyEligible(statuses, first.value + 1)
  {
    assert statuses[0] in statuses;
    assert Expiry(statuses[0]) == first.value;
  }

  // ----- the operating system -----

  class PowerBlocker {
    var live: set<int>
    var next: int
    ghost var faults: nat
    /** The most blockers that were ever live at once. */
    ghost var most: nat

    ghost predicate Valid()
      reads this
    {
      |live| <= most && forall id | id in live :: id < next
    }

    constructor ()
      ensures Valid() && live == {} && faults == 0 && most == 0
    {
      live, next, faults, most := {}, 0, 0, 0;
    }

    /** Any blockers may be dropped without the service being told. */
    method Drop()
      requires Valid()
      modifies this
      ensures Valid() && live <= old(live) && next == old(next) && most == old(most)
      ensures faults >= old(faults) && (faults == old(faults) ==> live == old(live))
    {
      var kept: set<int> := *;
      if live * kept != live {
        SmallerSet(live * kept, live);
        live := live * kept;
        faults := faults + 1;
      }
    }

    /** `None` when the call throws, which starts nothing. */
    method Start() returns (id: Option<int>)
      requires Valid()
      modifies this
      ensures Valid() && faults >= old(faults) && next >= old(next)
      ensures live <= old(live) + (if id.Some? then {id.value} else {})
      ensures id.Some? ==> id.value >= old(next) && id.value < next
      ensures most <= if old(most) >= |old(live)| + 1 then old(most) else |old(live)| + 1
      ensures faults == old(faults) ==> id.Some? && live == old(live) + {id.value}
    {
      Drop();
      SmallerSet(live, old(live));
      var throws: bool := *;
      if throws {
        faults := faults + 1;
        return None;
      }
      id := Some(next);
      live, next := live + {next}, next + 1;
      if |live| > most {
        most := |live|;
      }
      Drop();
    }

    /** Stops the blocker when the call returns; a call that throws may or may not have. */
    method Stop(id: int) returns (throws: bool)
      requires Valid()
      modifies this
      ensures Valid() && faults >= old(faults) && next == old(next) && most == old(most)
      ensures live <= old(live) && (!throws ==> id !in live)
      ensures faults == old(faults) ==> !throws && live == old(live) - {id}
    {
      Drop();
      throws := *;
      var effective: bool := *;
      if throws {
        faults := faults + 1;
      }
      if !throws || effective {
        SmallerSet(live - {id}, live);
        live := live - {id};
      }
    }

    /** Truthful when it returns; `None` when it throws. */
    method IsStarted(id: int) returns (started: Option<bool>)
      requires Valid()
      modifies this
      ensures Valid() && faults >= old(faults) && next == old(next) && most == old(most)
      ensures live <= old(live) && (started.Some? ==> started.value == (id in live))
      ensures faults == old(faults) ==> started.Some? && live == old(live)
    {
      Drop();
      var throws: bool := *;
      if throws {
        faults := faults + 1;
        return None;
      }
      return Some(id in live);
    }
  }

  lemma {:induction false} SmallerSet<T>(a: set<T>, b: set<T>)
    requires a <= b
    ensures |a| <= |b|
  {
    if a != {} {
      var x :| x in a;
      SmallerSet(a - {x}, b - {x});
    }
  }

  // ----- the service -----

  datatype Event =
    | SetEnabled(enabled: bool)
    | SetStatuses(statuses: seq<Status>)
    | TimerFires
    | PowerResume
    | AssertionFails
    | Dropped
    | Dispose

  /** An event, and the two times a refresh it causes reads from the clock. */
  datatype Moment = Moment(event: Event, scheduleNow: int, countNow: int)

  // ----- what a run comes to -----

  /** What the events so far amount to: the service's settings and timer, whether a blocker is held if the
      operating system has done as it was told, and the last refresh, unless the service was disposed of since. */
  datatype Plan = Plan(
    enabled: bool,
    statuses: seq<Status>,
    listening: bool,
    timer: Option<int>,
    held: bool,
    refreshed: Option<Moment>)

  ghost function Refreshed(p: Plan, m: Moment): Plan {
    p.(timer := Deadline(p.statuses, m.scheduleNow),
       held := p.enabled && AnyEligible(p.statuses, m.countNow),
       refreshed := Some(m))
  }

  ghost function Planned(p: Plan, m: Moment): Plan {
    match m.event
    case SetEnabled(value) => if value == p.enabled then p else Refreshed(p.(enabled := value), m)
    case SetStatuses(value) => Refreshed(p.(statuses := value), m)
    case TimerFires => if p.timer.None? then p else Refreshed(p, m)
    case PowerResume => if p.listening then Refreshed(p, m) else p
    case AssertionFails => Refreshed(p, m)
    case Dropped => p
    case Dispose => p.(listening := false, timer := None, held := false, refreshed := None)
  }

  ghost function PlannedAll(p: Plan, moments: seq<Moment>): Plan
    decreases |moments|
  {
    if moments == [] then p
    else Planned(PlannedAll(p, moments[..|moments| - 1]), moments[|moments| - 1])
  }

  lemma PlannedSnoc(p: Plan, moments: seq<Moment>, k: nat)
    requires k < |moments|
    ensures PlannedAll(p, moments[..k + 1]) == Planned(PlannedAll(p, moments[..k]), moments[k])
  {
    assert moments[..k + 1][..k] == moments[..k];
  }

  /** The event makes the service start or stop the blocker afresh. */
  predicate Resets(p: Plan, m: Moment) {
    match m.event
    case SetEnabled(value) => value != p.enabled
    case TimerFires => p.timer.Some?
    case PowerResume => p.listening
    case Dropped => false
    case _ => true
  }

  /** The blocker and the timer are those of the last refresh. */
  ghost predicate FromRefresh(p: Plan) {
    p.refreshed.Some? ==>
      && p.timer == Deadline(p.statuses, p.refreshed.value.scheduleNow)
      && (p.held <==> p.enabled && AnyEligible(p.statuses, p.refreshed.value.countNow))
  }

  lemma {:induction false} PlannedFromRefresh(p: Plan, moments: seq<Moment>)
    requires FromRefresh(p)
    ensures FromRefresh(PlannedAll(p, moments))
    decreases |moments|
  {
    if moments != [] {
      var n := |moments| - 1;
      PlannedFromRefresh(p, moments[..n]);
      StepFromRefresh(PlannedAll(p, moments[..n]), moments[n]);
    }
  }

  lemma StepFromRefresh(p: Plan, m: Moment)
    requires FromRefresh(p)
    ensures FromRefresh(Planned(p, m))
  {
  }

  /** In the plan of every run, from the last refresh until the timer is due or for ever without one, a blocker
      is held exactly when it should be, if and only if the service is disabled, the timer is armed, or no
      status expires from that refresh's count to the time its timer was set at. */
  lemma PlanIsRightExactly(p: Plan, moments: seq<Moment>)
    requires p.refreshed.None?
    ensures var q := PlannedAll(p, moments);
            q.refreshed.Some? ==>
              var at := q.refreshed.value;
              Right(q.held, q.enabled, q.statuses, at.countNow, q.timer)
              <==> !q.enabled || q.timer.Some? || NoneExpiresWithin(q.statuses, at.countNow, at.scheduleNow)
  {
    var q := PlannedAll(p, moments);
    PlannedFromRefresh(p, moments);
    if q.refreshed.Some? {
      var at := q.refreshed.value;
      DeadlineIsOne(q.statuses, at.scheduleNow);
      RightExactly(q.held, q.enabled, q.statuses, at.scheduleNow, at.countNow, q.timer);
    }
  }

  /** An event that refreshes whatever the settings: a resume is one as long as the service listens for it,
      from the start, if at all, until it is disposed of. */
  ghost predicate SurelyRefreshes(listening: bool, moments: seq<Moment>, k: nat)
    requires k < |moments|
  {
    match moments[k].event
    case SetStatuses(_) => true
    case AssertionFails => true
    case PowerResume => listening && forall i | 0 <= i < k :: !moments[i].event.Dispose?
    case _ => false
  }

  lemma {:induction false} ListeningUntilDisposed(p: Plan, moments: seq<Moment>)
    ensures PlannedAll(p, moments).listening
       <==> p.listening && forall i | 0 <= i < |moments| :: !moments[i].event.Dispose?
    decreases |moments|
  {
    if moments != [] {
      ListeningUntilDisposed(p, moments[..|moments| - 1]);
    }
  }

  predicate Undisposed(moments: seq<Moment>, k: nat) {
    forall i | k <= i < |moments| :: !moments[i].event.Dispose?
  }

  /** The last refresh is no earlier than any event that surely refreshes, unless the service was disposed of
      after that. */
  ghost predicate RefreshedLast(listening: bool, moments: seq<Moment>, refreshed: Option<Moment>) {
    forall k | 0 <= k < |moments| && SurelyRefreshes(listening, moments, k) && Undisposed(moments, k) ::
      exists j | k <= j < |moments| :: refreshed == Some(moments[j])
  }

  lemma {:induction false} RefreshIsLater(p: Plan, moments: seq<Moment>, k: nat) returns (j: nat)
    requires k < |moments| && SurelyRefreshes(p.listening, moments, k) && Undisposed(moments, k)
    ensures k <= j < |moments| && PlannedAll(p, moments).refreshed == Some(moments[j])
    decreases |moments|
  {
    var n := |moments| - 1;
    if k == n {
      ListeningUntilDisposed(p, moments[..n]);
      j := n;
    } else {
      j := RefreshIsLater(p, moments[..n], k);
      if Resets(PlannedAll(p, moments[..n]), moments[n]) {
        j := n;
      }
    }
  }

  lemma PlanRefreshedLast(p: Plan, moments: seq<Moment>)
    ensures RefreshedLast(p.listening, moments, PlannedAll(p, moments).refreshed)
  {
    forall k | 0 <= k < |moments| && SurelyRefreshes(p.listening, moments, k) && Undisposed(moments, k)
      ensures exists j | k <= j < |moments| :: PlannedAll(p, moments).refreshed == Some(moments[j])
    {
      var j := RefreshIsLater(p, moments, k);
    }
  }

  /** `counts` tells the number of faults before each event and at the end; there were none from some event on
      that resets the blocker, or none at all. */
  ghost predicate Repaired(p: Plan, moments: seq<Moment>, counts: seq<nat>)
    requires |counts| == |moments| + 1
  {
    || counts[0] == counts[|moments|]
    || exists k | 0 <= k < |moments| ::
         Resets(PlannedAll(p, moments[..k]), moments[k]) && counts[k] == counts[|moments|]
  }

  ghost predicate Rising(counts: seq<nat>) {
    forall i, j | 0 <= i < j < |counts| :: counts[i] <= counts[j]
  }

  /** One more event without a fault: it resets the blocker, or the run was repaired before it. */
  lemma RepairedBefore(p: Plan, moments: seq<Moment>, counts: seq<nat>, n: nat)
    requires n < |moments| && |counts| == n + 2 && Rising(counts)
    requires Repaired(p, moments[..n + 1], counts)
    ensures counts[n] == counts[n + 1]
    ensures Resets(PlannedAll(p, moments[..n]), moments[n]) || Repaired(p, moments[..n], counts[..n + 1])
  {
    if k :| 0 <= k < n + 1 && Resets(PlannedAll(p, moments[..n + 1][..k]), moments[..n + 1][k])
            && counts[k] == counts[n + 1] {
      assert moments[..n + 1][..k] == moments[..k];
      if k < n {
        assert moments[..n][..k] == moments[..k] && moments[..n][k] == moments[k];
      }
    }
  }

  /** After the events so far the blocker is held as planned, if the run is repaired. */
  ghost predicate Tracks(p: Plan, moments: seq<Moment>, counts: seq<nat>, faults: nat, held: bool) {
    && |counts| == |moments| + 1 && Rising(counts) && counts[|moments|] == faults
    && (Repaired(p, moments, counts) ==> held == PlannedAll(p, moments).held)
  }

  lemma TracksNext(p: Plan, moments: seq<Moment>, n: nat, counts: seq<nat>, faults: nat, held: bool, faults': nat,
                   held': bool)
    requires n < |moments| && Tracks(p, moments[..n], counts, faults, held) && faults <= faults'
    requires faults' == faults && (Resets(PlannedAll(p, moments[..n]), moments[n])
                                   || held == PlannedAll(p, moments[..n]).held) ==>
               held' == Planned(PlannedAll(p, moments[..n]), moments[n]).held
    ensures Tracks(p, moments[..n + 1], counts + [faults'], faults', held')
  {
    var counts' := counts + [faults'];
    PlannedSnoc(p, moments, n);
    assert counts'[..n + 1] == counts;
    if Repaired(p, moments[..n + 1], counts') {
      RepairedBefore(p, moments, counts', n);
    }
  }

  class AgentAwakeService {
    var enabled: bool
    var statuses: seq<Status>
    var blockerId: Option<int>
    /** The time the stale timer is set for. */
    var staleTimer: Option<int>
    /** Subscribed to the resume events of the power monitor. */
    var listening: bool
    const blocker: PowerBlocker

    /** Every live blocker is the one the service remembers, and there were never two. */
    ghost predicate Valid()
      reads this, blocker
    {
      && blocker.Valid() && blocker.most <= 1
      && blocker.live <= (if blockerId.Some? then {blockerId.value} else {})
      && (blockerId.Some? ==> blockerId.value < blocker.next)
    }

    ghost predicate Held()
      reads this, blocker
    {
      blocker.live != {}
    }

    /** From `from` until the timer is due, the blocker is held exactly when it should be. */
    ghost predicate RightUntilTimer(from: int)
      reads this, blocker
    {
      Right(Held(), enabled, statuses, from, staleTimer)
    }

    /** A refresh with these clock readings missed no expiry that matters. */
    ghost predicate Covered(scheduleNow: int, countNow: int)
      reads this
    {
      !enabled || staleTimer.Some? || NoneExpiresWithin(statuses, countNow, scheduleNow)
    }

    /** What a refresh at that moment promises of the time after it. */
    ghost predicate RefreshedAt(scheduleNow: int, countNow: int)
      reads this, blocker
    {
      RightUntilTimer(countNow) <==> Covered(scheduleNow, countNow)
    }

    /** The settings and the timer are as planned. */
    ghost predicate Follows(p: Plan)
      reads this
    {
      enabled == p.enabled && statuses == p.statuses && listening == p.listening && staleTimer == p.timer
    }

    /** Where a run starts, with no refresh to speak of. */
    ghost function InitialPlan(): Plan
      reads this, blocker
    {
      Plan(enabled, statuses, listening, staleTimer, Held(), None)
    }

    constructor (blocker: PowerBlocker, hasPowerMonitor: bool)
      requires blocker.Valid() && blocker.live == {} && blocker.most == 0
      ensures Valid() && this.blocker == blocker && !enabled && statuses == [] && staleTimer == None
      ensures listening == hasPowerMonitor
    {
      enabled, statuses, blockerId, staleTimer, listening := false, [], None, None, hasPowerMonitor;
      this.blocker := blocker;
    }

    method ScheduleStaleTimer(now: int)
      modifies this`staleTimer
      ensures IsDeadline(statuses, now, staleTimer)
      ensures forall s | && s in statuses && s.observedInCurrentRuntime && s.state == Working
                         && s.receivedAt.Finite? && s.receivedAt.ms + 7200000 > now ::
                staleTimer.Some? && staleTimer.value <= s.receivedAt.ms + 7200000
      ensures staleTimer.Some? ==> exists s | s in statuses ::
                && s.observedInCurrentRuntime && s.state == Working && s.receivedAt.Finite?
                && now < s.receivedAt.ms + 7200000 == staleTimer.value
    {
      staleTimer := None;
      var earliestExpiry: Option<int> := None;
      for i := 0 to |statuses|
        invariant IsDeadline(statuses[..i], now, earliestExpiry)
      {
        var status := statuses[i];
        assert statuses[..i + 1] == statuses[..i] + [status];
        if !status.observedInCurrentRuntime || !status.state.Working? || !status.receivedAt.Finite? {
          continue;
        }
        var expiry := status.receivedAt.ms + AGENT_AWAKE_STATUS_STALE_AFTER_MS;
        if expiry <= now {
          continue;
        }
        AddToDeadline(statuses[..i], status, now, earliestExpiry, Some(
          if earliestExpiry.None? || expiry < earliestExpiry.value then expiry else earliestExpiry.value));
        earliestExpiry := Some(
          if earliestExpiry.None? || expiry < earliestExpiry.value then expiry else earliestExpiry.value);
      }
      assert statuses[..|statuses|] == statuses;
      staleTimer := earliestExpiry;
      DeadlineIsUnique(statuses, now, staleTimer);
      DeadlineMeans(statuses, now);
    }

    /** True unless the blocker is known to be gone, in which case it is forgotten. */
    method ReconcileBlocker() returns (started: bool)
      requires Valid()
      modifies this`blockerId, blocker
      ensures Valid() && blocker.faults >= old(blocker.faults)
      ensures !started ==> blockerId == None && (old(blockerId).Some? ==> old(blockerId).value !in blocker.live)
      ensures started ==> blockerId == old(blockerId) && blockerId.Some?
      ensures blocker.faults == old(blocker.faults) ==>
                && blocker.live == old(blocker.live)
                && (started <==> Held()) && (blockerId.Some? <==> Held())
    {
      if blockerId.None? {
        return false;
      }
      var answer := blocker.IsStarted(blockerId.value);
      if answer.None? {
        return true;
      }
      if !answer.value {
        blockerId := None;
      }
      return answer.value;
    }

    method StartBlocker()
      requires Valid()
      modifies this`blockerId, blocker
      ensures Valid() && blocker.faults >= old(blocker.faults)
      ensures blocker.faults == old(blocker.faults) ==> Held() && blockerId.Some?
    {
      if blockerId.Some? {
        var already := ReconcileBlocker();
        if already {
          return;
        }
      }
      var id := blocker.Start();
      if id.Some? {
        blockerId := id;
        var _ := ReconcileBlocker();
      }
    }

    method StopBlocker()
      requires Valid()
      modifies this`blockerId, blocker
      ensures Valid() && blocker.faults >= old(blocker.faults)
      ensures blocker.faults == old(blocker.faults) ==> !Held() && blockerId == None
    {
      if blockerId.None? {
        return;
      }
      var _ := blocker.Stop(blockerId.value);
      var _ := ReconcileBlocker();
    }

    /** Whatever fails on the way, the invariant holds afterwards; if nothing fails, a blocker is held exactly
        when the service is enabled and some status is eligible: seen working by this runtime, with a finite
        arrival no more than two hours ago. Whatever the two clock readings are, this stays right until the
        timer that is armed now is due, or for ever without one, if and only if the service is disabled, the
        timer is armed, or no status expires from the count to the time the timer was set at. */
    method Refresh(scheduleNow: int, countNow: int)
      requires Valid()
      modifies this`blockerId, this`staleTimer, blocker
      ensures Valid() && blocker.faults >= old(blocker.faults)
      ensures IsDeadline(statuses, scheduleNow, staleTimer)
      ensures blocker.faults == old(blocker.faults) ==>
                && (Held() <==> enabled && AnyEligible(statuses, countNow))
                && (blockerId.Some? <==> Held())
      ensures blocker.faults == old(blocker.faults) ==>
                (Held() <==> enabled && exists s | s in statuses ::
                   && s.observedInCurrentRuntime && s.state == Working && s.receivedAt.Finite?
                   && countNow - s.receivedAt.ms <= 7200000)
      ensures forall s | && s in statuses && s.observedInCurrentRuntime && s.state == Working
                         && s.receivedAt.Finite? && s.receivedAt.ms + 7200000 > scheduleNow ::
                staleTimer.Some? && staleTimer.value <= s.receivedAt.ms + 7200000
      ensures staleTimer.Some? ==> exists s | s in statuses ::
                && s.observedInCurrentRuntime && s.state == Working && s.receivedAt.Finite?
                && scheduleNow < s.receivedAt.ms + 7200000 == staleTimer.value
      ensures blocker.faults == old(blocker.faults) ==> RefreshedAt(scheduleNow, countNow)
    {
      ScheduleStaleTimer(scheduleNow);
      var runningStatusCount := 0;
      for i := 0 to |statuses|
        invariant runningStatusCount > 0 <==> AnyEligible(statuses[..i], countNow)
        invariant runningStatusCount >= 0
      {
        assert statuses[..i + 1] == statuses[..i] + [statuses[i]];
        if WakeEligible(statuses[i], countNow) {
          runningStatusCount := runningStatusCount + 1;
        }
      }
      assert statuses[..|statuses|] == statuses;
      if enabled && runningStatusCount > 0 {
        StartBlocker();
      } else {
        StopBlocker();
      }
      EligibleMeans(statuses, countNow);
      if Held() <==> enabled && AnyEligible(statuses, countNow) {
        RightExactly(Held(), enabled, statuses, scheduleNow, countNow, staleTimer);
      }
    }

    method SetEnabled(value: bool, scheduleNow: int, countNow: int)
      requires Valid()
      modifies this, blocker
      ensures Valid() && blocker.faults >= old(blocker.faults)
      ensures enabled == value && statuses == old(statuses) && listening == old(listening)
      ensures value == old(enabled) ==>
                blockerId == old(blockerId) && staleTimer == old(staleTimer) && unchanged(blocker)
      ensures value != old(enabled) ==> IsDeadline(statuses, scheduleNow, staleTimer)
      ensures value != old(enabled) && blocker.faults == old(blocker.faults) ==>
                && (Held() <==> enabled && AnyEligible(statuses, countNow))
                && RefreshedAt(scheduleNow, countNow)
    {
      if enabled == value {
        return;
      }
      enabled := value;
      Refresh(scheduleNow, countNow);
    }

    method SetStatuses(value: seq<Status>, scheduleNow: int, countNow: int)
      requires Valid()
      modifies this, blocker
      ensures Valid() && blocker.faults >= old(blocker.faults)
      ensures enabled == old(enabled) && statuses == value && listening == old(listening)
      ensures IsDeadline(statuses, scheduleNow, staleTimer)
      ensures blocker.faults == old(blocker.faults) ==>
                && (Held() <==> enabled && AnyEligible(statuses, countNow))
                && RefreshedAt(scheduleNow, countNow)
    {
      statuses := value;
      Refresh(scheduleNow, countNow);
    }

    method OnStaleTimer(scheduleNow: int, countNow: int)
      requires Valid()
      modifies this, blocker
      ensures Valid() && blocker.faults >= old(blocker.faults)
      ensures enabled == old(enabled) && statuses == old(statuses) && listening == old(listening)
      ensures IsDeadline(statuses, scheduleNow, staleTimer)
      ensures blocker.faults == old(blocker.faults) ==>
                && (Held() <==> enabled && AnyEligible(statuses, countNow))
                && RefreshedAt(scheduleNow, countNow)
    {
      staleTimer := None;
      Refresh(scheduleNow, countNow);
    }

    method DisposeService()
      requires Valid()
      modifies this, blocker
      ensures Valid() && blocker.faults >= old(blocker.faults)
      ensures staleTimer == None && enabled == old(enabled) && statuses == old(statuses) && !listening
      ensures blocker.faults == old(blocker.faults) ==> !Held()
    {
      staleTimer := None;
      listening := false;
      StopBlocker();
    }

    /** One event, as planned: the settings and the timer always, and the blocker if nothing fails and either
        the event resets it or it was as planned before. */
    method Handle(m: Moment, ghost p: Plan)
      requires Valid() && Follows(p)
      modifies this, blocker
      ensures Valid() && blocker.faults >= old(blocker.faults)
      ensures Follows(Planned(p, m))
      ensures blocker.faults == old(blocker.faults) && (Resets(p, m) || old(Held()) == p.held) ==>
                Held() == Planned(p, m).held
    {
      match m.event {
        case SetEnabled(value) => SetEnabled(value, m.scheduleNow, m.countNow);
        case SetStatuses(value) => SetStatuses(value, m.scheduleNow, m.countNow);
        case TimerFires =>
          if staleTimer.Some? {
            OnStaleTimer(m.scheduleNow, m.countNow);
          }
        case PowerResume =>
          if listening {
            Refresh(m.scheduleNow, m.countNow);
          }
        case AssertionFails => Refresh(m.scheduleNow, m.countNow);
        case Dropped => blocker.Drop();
        case Dispose => DisposeService();
      }
      if Resets(p, m) && !m.event.Dispose? {
        DeadlineIsUnique(statuses, m.scheduleNow, staleTimer);
      }
    }

    /** Any run: events in any order and at any times, with faults anywhere. At every point at most one
        blocker is live and the service knows it, and the settings, the timer and the last refresh are those of
        the plan. If there were no faults, or none since some event that resets the blocker, then the blocker is
        as planned: at the last refresh held exactly when enabled and some status was eligible, and from there
        until the timer is due held exactly when it should be, if and only if that refresh was covered. */
    method Run(moments: seq<Moment>) returns (ghost refreshed: Option<Moment>, ghost counts: seq<nat>)
      requires Valid()
      modifies this, blocker
      ensures Valid()
      ensures |blocker.live| <= 1 && blocker.most <= 1
      ensures forall id | id in blocker.live :: blockerId == Some(id)
      ensures var plan := PlannedAll(old(InitialPlan()), moments);
              Follows(plan) && refreshed == plan.refreshed
      ensures RefreshedLast(old(listening), moments, refreshed)
      ensures |counts| == |moments| + 1 && Rising(counts)
      ensures counts[0] == old(blocker.faults) && counts[|moments|] == blocker.faults
      ensures Repaired(old(InitialPlan()), moments, counts) ==>
                && Held() == PlannedAll(old(InitialPlan()), moments).held
                && (refreshed.Some? ==>
                      && RefreshedAt(refreshed.value.scheduleNow, refreshed.value.countNow)
                      && (Held() <==> enabled && exists s | s in statuses ::
                            && s.observedInCurrentRuntime && s.state == Working && s.receivedAt.Finite?
                            && refreshed.value.countNow - s.receivedAt.ms <= 7200000))
    {
      ghost var p := InitialPlan();
      counts := [blocker.faults];
      for i := 0 to |moments|
        invariant Valid() && Follows(PlannedAll(p, moments[..i]))
        invariant counts != [] && counts[0] == old(blocker.faults)
        invariant Tracks(p, moments[..i], counts, blocker.faults, Held())
      {
        ghost var faults, held := blocker.faults, Held();
        PlannedSnoc(p, moments, i);
        Handle(moments[i], PlannedAll(p, moments[..i]));
        TracksNext(p, moments, i, counts, faults, held, blocker.faults, Held());
        counts := counts + [blocker.faults];
      }
      assert moments[..|moments|] == moments;
      SmallerSet(blocker.live, if blockerId.Some? then {blockerId.value} else {});
      refreshed := PlannedAll(p, moments).refreshed;
      PlanRefreshedLast(p, moments);
      PlanIsRightExactly(p, moments);
      if refreshed.Some? {
        PlannedFromRefresh(p, moments);
        EligibleMeans(statuses, refreshed.value.countNow);
      }
    }
  }
}
