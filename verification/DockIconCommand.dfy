/** One bounded command: a promise settled by whichever comes first of the command's callback, a fallback
timer, and what follows it.

`Step` is what each callback does to the command's variables; the class runs the same callbacks in place.
 */
module DockIconCommand {
  import opened CliText

  /** `resolved` counts calls of the promise's resolver, `reports` calls of `onError` and warnings. `alive`
      says whether the process runs, and `outlived` whether it still ran when the promise settled. */
  datatype Command = Command(
    settled: bool,
    fallbackArmed: bool,
    forceArmed: bool,
    hasChild: bool,
    listening: bool,
    resolved: nat,
    reports: nat,
    alive: bool,
    outlived: bool)

  /** How starting the process goes; it may call back before it returns. A process that has called back has
      ended. `child` says whether a child process was handed out. */
  datatype Launch = Throws | Starts(child: bool, calledBack: bool, failed: bool)

  datatype Event = CalledBack(failed: bool) | FallbackFires | ChildEnds | ForceFires

  function Finish(c: Command, failed: bool): Command {
    if c.settled then c
    else
      c.(settled := true, fallbackArmed := false, forceArmed := false, resolved := c.resolved + 1,
         reports := if failed then c.reports + 1 else c.reports, outlived := c.alive)
  }

  /** Clears the force timer but not the fallback, which has fired by now. */
  function FinishAfterFallback(c: Command): Command {
    if c.settled then c
    else
      c.(settled := true, forceArmed := false, resolved := c.resolved + 1, reports := c.reports + 1,
         outlived := c.alive)
  }

  function Launched(launch: Launch): Command {
    var armed := Command(false, true, false, false, false, 0, 0, false, false);
    match launch
    case Throws => Finish(armed, true)
    case Starts(child, calledBack, failed) =>
      (if calledBack then Finish(armed, failed) else armed.(alive := true)).(hasChild := child)
  }

  /** A timer fires only while armed, and the child's end is heard only once somebody listens. The callback
      comes when the process has ended. */
  function Step(c: Command, event: Event): Command {
    match event
    case CalledBack(failed) => Finish(c.(alive := false), failed)
    case FallbackFires =>
      if !c.fallbackArmed then c
      else
        var fired := c.(fallbackArmed := false);
        if c.settled then fired
        else if !c.hasChild then FinishAfterFallback(fired)
        else fired.(listening := true, forceArmed := true)
    case ChildEnds =>
      var ended := c.(alive := false);
      if c.listening then FinishAfterFallback(ended) else ended
    case ForceFires => if c.forceArmed then FinishAfterFallback(c.(forceArmed := false)) else c
  }

  function Run(c: Command, events: seq<Event>): Command
    decreases events
  {
    if events == [] then c else Run(Step(c, events[0]), events[1..])
  }

  /** Settled means resolved exactly once with no timer left; unsettled means a timer is still there to
      settle it. */
  predicate Sound(c: Command) {
    && c.resolved == (if c.settled then 1 else 0)
    && c.reports <= c.resolved
    && (c.settled ==> !c.fallbackArmed && !c.forceArmed)
    && (!c.settled ==> c.fallbackArmed != c.forceArmed)
    && (c.listening ==> !c.fallbackArmed)
    && (c.forceArmed ==> c.hasChild)
    && (c.outlived ==> c.settled)
  }

  lemma {:induction false} RunIsSound(c: Command, events: seq<Event>)
    requires Sound(c)
    ensures Sound(Run(c, events))
    ensures c.settled ==> Run(c, events) == c.(alive := Run(c, events).alive)
    ensures c.settled || !c.alive ==> Run(c, events).outlived == c.outlived
    ensures !c.alive ==> !Run(c, events).alive
    decreases events
  {
    if events != [] {
      RunIsSound(Step(c, events[0]), events[1..]);
    }
  }

  lemma {:induction false} RunConcat(c: Command, a: seq<Event>, b: seq<Event>)
    ensures Run(c, a + b) == Run(Run(c, a), b)
    decreases a
  {
    if a == [] {
      assert a + b == b;
    } else {
      assert (a + b)[1..] == a[1..] + b;
      RunConcat(Step(c, a[0]), a[1..], b);
    }
  }

  // ----- a process that outlives its promise -----

  /** The timers run out before anything is heard of the process: the fallback alone when there is no child,
      otherwise the fallback (`asked`) and then the force timer. */
  predicate GivenUp(child: bool, events: seq<Event>, asked: bool)
    decreases events
  {
    events != [] &&
    match events[0]
    case CalledBack(_) => false
    case ChildEnds => false
    case FallbackFires => !child || GivenUp(child, events[1..], true)
    case ForceFires => asked || GivenUp(child, events[1..], asked)
  }

  /** The process was started and is given up before it ends. */
  predicate OutlivesPromise(launch: Launch, events: seq<Event>) {
    launch.Starts? && !launch.calledBack && GivenUp(launch.child, events, false)
  }

  lemma {:induction false} GivenUpIsOutlived(c: Command, events: seq<Event>)
    requires Sound(c) && !c.settled && c.alive
    ensures Run(c, events).outlived <==> GivenUp(c.hasChild, events, c.forceArmed)
    decreases events
  {
    if events != [] {
      var next := Step(c, events[0]);
      if next.settled || !next.alive {
        RunIsSound(next, events[1..]);
      } else {
        GivenUpIsOutlived(next, events[1..]);
      }
    }
  }

  /** A promise settles with its process still alive exactly when the timers ran out on it: the force timer
      after the fallback, or the fallback where there is no child to listen to. */
  lemma OutlivedExactly(launch: Launch, events: seq<Event>)
    ensures Run(Launched(launch), events).outlived <==> OutlivesPromise(launch, events)
  {
    var c := Launched(launch);
    if c.settled {
      RunIsSound(c, events);
    } else {
      GivenUpIsOutlived(c, events);
    }
  }

  /** However the process starts and whatever happens in whatever order, the promise is resolved at most
      once and nothing stays armed after that; and the timers alone always get it settled. */
  lemma SettlesOnce(launch: Launch, events: seq<Event>)
    ensures var c := Run(Launched(launch), events);
            && Sound(c)
            && Run(Launched(launch), events + [FallbackFires, ForceFires]).settled
  {
    var c := Run(Launched(launch), events);
    RunIsSound(Launched(launch), events);
    RunConcat(Launched(launch), events, [FallbackFires, ForceFires]);
    var timers := [FallbackFires, ForceFires];
    assert timers[1..] == [ForceFires] && timers[1..][1..] == [];
    assert Run(c, timers) == Step(Step(c, FallbackFires), ForceFires);
  }

  // ----- what settles it -----

  /** Whether the promise settles, and then whether it complains. Up to the first timer only the callback
      counts. That timer settles a command without a child; with one (`asked`), the child's end and the second
      timer settle it too. Every way but a callback without error complains. */
  function Verdict(child: bool, asked: bool, events: seq<Event>): Option<bool>
    decreases events
  {
    if events == [] then None
    else
      match events[0]
      case CalledBack(failed) => Some(failed)
      case FallbackFires => if child then Verdict(child, true, events[1..]) else Some(true)
      case ChildEnds => if asked then Some(true) else Verdict(child, asked, events[1..])
      case ForceFires => if asked then Some(true) else Verdict(child, asked, events[1..])
  }

  lemma {:induction false} RunHasVerdict(c: Command, events: seq<Event>)
    requires Sound(c) && !c.settled && c.listening == c.forceArmed
    ensures var verdict := Verdict(c.hasChild, c.forceArmed, events);
            var r := Run(c, events);
            && (r.settled <==> verdict.Some?)
            && r.reports == if verdict == Some(true) then 1 else 0
    decreases events
  {
    if events != [] {
      var next := Step(c, events[0]);
      if next.settled {
        RunIsSound(next, events[1..]);
      } else {
        RunHasVerdict(next, events[1..]);
      }
    }
  }

  /** A launch that throws, or calls back before it returns, settles at once, with a complaint if it threw or
      failed; otherwise the events decide. What complains does so once. */
  lemma SettlesByVerdict(launch: Launch, events: seq<Event>)
    ensures var verdict :=
              if launch.Throws? then Some(true)
              else if launch.calledBack then Some(launch.failed)
              else Verdict(launch.child, false, events);
            var r := Run(Launched(launch), events);
            && (r.settled <==> verdict.Some?)
            && r.reports == if verdict == Some(true) then 1 else 0
  {
    var c := Launched(launch);
    if c.settled {
      RunIsSound(c, events);
    } else {
      RunHasVerdict(c, events);
    }
  }

  class BoundedCommand {
    var settled: bool
    var fallbackArmed: bool
    var forceArmed: bool
    var hasChild: bool
    var listening: bool
    var resolved: nat
    var reports: nat
    ghost var alive: bool
    ghost var outlived: bool

    ghost function Snapshot(): Command
      reads this
    {
      Command(settled, fallbackArmed, forceArmed, hasChild, listening, resolved, reports, alive, outlived)
    }

    constructor (launch: Launch)
      ensures Snapshot() == Launched(launch)
    {
      settled, forceArmed, hasChild, listening, resolved, reports := false, false, false, false, 0, 0;
      fallbackArmed, alive, outlived := true, false, false;
      new;
      match launch {
        case Throws => OnFinish(true);
        case Starts(child, calledBack, failed) =>
          if calledBack {
            OnFinish(failed);
          } else {
            alive := true;
          }
          hasChild := child;
      }
    }

    method OnFinish(failed: bool)
      modifies this
      ensures Snapshot() == Finish(old(Snapshot()), failed)
    {
      if settled {
        return;
      }
      settled := true;
      fallbackArmed := false;
      if forceArmed {
        forceArmed := false;
      }
      if failed {
        reports := reports + 1;
      }
      resolved := resolved + 1;
      outlived := alive;
    }

    method OnFinishAfterFallback()
      modifies this
      ensures Snapshot() == FinishAfterFallback(old(Snapshot()))
    {
      if settled {
        return;
      }
      settled := true;
      if forceArmed {
        forceArmed := false;
      }
      reports := reports + 1;
      resolved := resolved + 1;
      outlived := alive;
    }

    method OnFallback()
      requires fallbackArmed
      modifies this
      ensures Snapshot() == Step(old(Snapshot()), FallbackFires)
    {
      fallbackArmed := false;
      if settled {
        return;
      }
      if !hasChild {
        OnFinishAfterFallback();
        return;
      }
      listening := true;
      forceArmed := true;
    }

    method Handle(event: Event)
      modifies this
      ensures Snapshot() == Step(old(Snapshot()), event)
    {
      match event {
        case CalledBack(failed) =>
          alive := false;
          OnFinish(failed);
        case FallbackFires =>
          if fallbackArmed {
            OnFallback();
          }
        case ChildEnds =>
          alive := false;
          if listening {
            OnFinishAfterFallback();
          }
        case ForceFires =>
          if forceArmed {
            forceArmed := false;
            OnFinishAfterFallback();
          }
      }
    }

    /** Any sequence of events, in place. A promise that has settled stays as it is; one that has not
        settles with its process alive exactly when the timers run out on it. */
    method HandleAll(events: seq<Event>)
      requires Sound(Snapshot())
      modifies this
      ensures Snapshot() == Run(old(Snapshot()), events) && Sound(Snapshot())
      ensures resolved == (if settled then 1 else 0) && (settled ==> !fallbackArmed && !forceArmed)
      ensures old(settled) ==> settled && resolved == old(resolved) && reports == old(reports)
      ensures !old(settled) && old(alive) ==> (outlived <==> GivenUp(old(hasChild), events, old(forceArmed)))
    {
      RunIsSound(Snapshot(), events);
      if !settled && alive {
        GivenUpIsOutlived(Snapshot(), events);
      }
      for k := 0 to |events|
        invariant Run(Snapshot(), events[k..]) == Run(old(Snapshot()), events)
      {
        assert events[k..][1..] == events[k + 1..];
        Handle(events[k]);
      }
    }
  }
}
