/** The queue that makes the last requested Dock icon win.

Each request takes a new generation number and queues one work. A work that is no longer the newest when
its turn comes does nothing; otherwise it starts a command, which applies its icon at some moment or fails.
A command's promise may settle before its process has ended, when the last-resort timer gives up on it; the
process can then still apply its icon. The results: works run one at a time in request order; and from any
state that can be reached, icons are sure to be applied in request order exactly when no process is left over
from a command that was given up.
 */
module DockIconQueue {
  import opened CliText
  import C = DockIconCommand

  datatype Icon = Classic | Watercolor | Blue
  datatype Work = Work(generation: nat, icon: Icon)

  /** Icons are persisted on macOS only, not in development, and only for an app bundle. */
  datatype Host = Host(isMac: bool, isDevApp: bool, hasBundle: bool) {
    predicate Persists() {
      isMac && !isDevApp && hasBundle
    }
  }

  const MAC_APP := Host(true, false, true)

  /** `requests`, `started`, `finished` and `applied` record the history; `alive` the works whose process may
      still apply its icon. */
  datatype Queue = Queue(
    generation: nat,
    pending: seq<Work>,
    running: Option<Work>,
    alive: set<Work>,
    requests: seq<Icon>,
    started: seq<Work>,
    finished: seq<Work>,
    applied: seq<Work>)

  const EMPTY := Queue(0, [], None, {}, [], [], [], [])

  /** `Settle` reports what the running work's command has seen: how its process was started, and its events
      since. */
  datatype Event =
    | Request(icon: Icon, host: Host)
    | Next
    | Apply(work: Work)
    | Settle(launch: C.Launch, log: seq<C.Event>)
    | ProcessEnds(work: Work)

  /** An event that cannot happen now changes nothing. */
  function Step(q: Queue, event: Event): Queue {
    match event
    case Request(icon, host) =>
      if !host.Persists() then q
      else q.(generation := q.generation + 1,
              pending := q.pending + [Work(q.generation + 1, icon)],
              requests := q.requests + [icon])
    case Next =>
      if q.running.Some? || q.pending == [] then q
      else
        var work := q.pending[0];
        var popped := q.(pending := q.pending[1..]);
        if work.generation != q.generation then popped
        else popped.(running := Some(work), alive := q.alive + {work}, started := q.started + [work])
    case Apply(work) =>
      if work in q.alive then q.(alive := q.alive - {work}, applied := q.applied + [work]) else q
    case Settle(launch, log) =>
      var command := C.Run(C.Launched(launch), log);
      if q.running.None? || !command.settled then q
      else
        q.(running := None, finished := q.finished + [q.running.value],
           alive := if command.outlived then q.alive else q.alive - {q.running.value})
    case ProcessEnds(work) =>
      q.(alive := q.alive - {work})
  }

  function Run(q: Queue, events: seq<Event>): Queue
    decreases events
  {
    if events == [] then q else Run(Step(q, events[0]), events[1..])
  }

  predicate Drained(q: Queue) {
    q.pending == [] && q.running.None?
  }

  // ----- what every run keeps -----

  predicate IsRequest(q: Queue, work: Work) {
    1 <= work.generation <= |q.requests| && q.requests[work.generation - 1] == work.icon
  }

  predicate Ascending(works: seq<Work>) {
    forall i, j | 0 <= i < j < |works| :: works[i].generation < works[j].generation
  }

  /** Pending works are the newest requests, all of them and in order; started ones are older requests in
      order, all finished except the running one; and unless something is pending, the newest request has
      been started. */
  predicate Sound(q: Queue) {
    && q.generation == |q.requests|
    && |q.pending| <= q.generation
    && (forall i | 0 <= i < |q.pending| ::
          q.pending[i].generation == q.generation - |q.pending| + 1 + i && IsRequest(q, q.pending[i]))
    && Ascending(q.started)
    && (forall w | w in q.started :: IsRequest(q, w) && w.generation <= q.generation - |q.pending|)
    && (q.pending == [] && q.requests != [] ==>
          q.started != [] && q.started[|q.started| - 1].generation == q.generation)
    && q.started == q.finished + (if q.running.Some? then [q.running.value] else [])
    && (forall w | w in q.alive :: w in q.started && w !in q.applied)
    && (forall w | w in q.applied :: w in q.started)
  }

  lemma RequestIsSound(q: Queue, icon: Icon, host: Host)
    requires Sound(q)
    ensures Sound(Step(q, Request(icon, host)))
  {
    var r := Step(q, Request(icon, host));
    assert forall w :: IsRequest(q, w) ==> IsRequest(r, w);
  }

  lemma NextIsSound(q: Queue)
    requires Sound(q)
    ensures Sound(Step(q, Next))
  {
    var r := Step(q, Next);
    if r != q {
      var work := q.pending[0];
      assert forall i | 0 <= i < |r.pending| :: r.pending[i] == q.pending[i + 1];
      forall w ensures IsRequest(q, w) <==> IsRequest(r, w) {
      }
      assert forall w | w in r.started :: w in q.started || w == work;
    }
  }

  lemma SettleIsSound(q: Queue, launch: C.Launch, log: seq<C.Event>)
    requires Sound(q)
    ensures Sound(Step(q, Settle(launch, log)))
  {
  }

  lemma StepIsSound(q: Queue, event: Event)
    requires Sound(q)
    ensures Sound(Step(q, event))
  {
    match event {
      case Request(icon, host) => RequestIsSound(q, icon, host);
      case Next => NextIsSound(q);
      case Apply(work) =>
      case Settle(launch, log) => SettleIsSound(q, launch, log);
      case ProcessEnds(work) =>
    }
  }

  lemma {:induction false} RunIsSound(q: Queue, events: seq<Event>)
    requires Sound(q)
    ensures Sound(Run(q, events))
    decreases events
  {
    if events != [] {
      StepIsSound(q, events[0]);
      RunIsSound(Step(q, events[0]), events[1..]);
    }
  }

  /** Works start one at a time: all that have started have finished, except the running one, and in the
      same order. They start in request order, each with its own request's icon, and a drained queue has
      started the latest request. */
  ghost predicate StartsInOrder(q: Queue) {
    && q.started == q.finished + (if q.running.Some? then [q.running.value] else [])
    && Ascending(q.started)
    && (forall w | w in q.started :: IsRequest(q, w))
    && (Drained(q) && q.requests != [] ==> q.started != [] && q.started[|q.started| - 1] == Latest(q))
  }

  /** The work of the latest request. */
  function Latest(q: Queue): Work
    requires q.requests != []
  {
    Work(|q.requests|, q.requests[|q.requests| - 1])
  }

  lemma SoundStartsInOrder(q: Queue)
    requires Sound(q)
    ensures StartsInOrder(q)
  {
    if Drained(q) && q.requests != [] {
      assert q.started[|q.started| - 1] in q.started;
    }
  }

  /** In every run. */
  lemma StartedInOrder(events: seq<Event>)
    ensures StartsInOrder(Run(EMPTY, events))
  {
    RunIsSound(EMPTY, events);
    SoundStartsInOrder(Run(EMPTY, events));
  }

  // ----- when every process has ended by the time it settles -----

  /** No command in the events settles by giving its process up. */
  predicate NoneGivenUp(events: seq<Event>) {
    forall e | e in events && e.Settle? :: !C.OutlivesPromise(e.launch, e.log)
  }

  /** No process is left over from a work that is no longer running. */
  ghost predicate NoneLate(q: Queue) {
    forall w | w in q.alive :: q.running == Some(w)
  }

  /** A process is left over exactly when a command that is given up settles while its process may still
      apply its icon. */
  lemma LateExactly(q: Queue, event: Event)
    requires NoneLate(q)
    ensures !NoneLate(Step(q, event))
       <==> && event.Settle? && q.running.Some? && q.running.value in q.alive
            && C.OutlivesPromise(event.launch, event.log)
  {
    if event.Settle? {
      C.OutlivedExactly(event.launch, event.log);
      C.RunIsSound(C.Launched(event.launch), event.log);
    }
  }

  /** Only the running work can still apply its icon, so icons are applied in request order. */
  ghost predicate Orderly(q: Queue) {
    Sound(q) && NoneLate(q) && Ascending(q.applied)
  }

  lemma ApplyIsOrderly(q: Queue, work: Work)
    requires Orderly(q)
    ensures Orderly(Step(q, Apply(work)))
  {
    StepIsSound(q, Apply(work));
    if work in q.alive {
      assert q.running == Some(work);
      var applied := q.applied + [work];
      forall i, j | 0 <= i < j < |applied| ensures applied[i].generation < applied[j].generation {
        if j == |q.applied| {
          OlderThanRunning(q, q.applied[i]);
        }
      }
    }
  }

  lemma OlderThanRunning(q: Queue, work: Work)
    requires Sound(q) && q.running.Some? && q.running.value in q.alive && work in q.applied
    ensures work.generation < q.running.value.generation
  {
    assert work in q.started && work != q.running.value;
    assert q.started[|q.started| - 1] == q.running.value;
  }

  lemma StepIsOrderly(q: Queue, event: Event)
    requires Orderly(q)
    requires event.Settle? ==> !C.OutlivesPromise(event.launch, event.log)
    ensures Orderly(Step(q, event))
  {
    StepIsSound(q, event);
    LateExactly(q, event);
    if event.Apply? {
      ApplyIsOrderly(q, event.work);
    }
  }

  lemma {:induction false} RunIsOrderly(q: Queue, events: seq<Event>)
    requires Orderly(q) && NoneGivenUp(events)
    ensures Orderly(Run(q, events))
    decreases events
  {
    if events != [] {
      assert events[0] in events && forall e | e in events[1..] :: e in events;
      StepIsOrderly(q, events[0]);
      RunIsOrderly(Step(q, events[0]), events[1..]);
    }
  }

  /** Icons have been applied in request order, each that of its request; and once the queue is drained the
      last icon applied is the last one requested, exactly when that command applied anything at all. */
  ghost predicate LastWins(q: Queue) {
    && Ascending(q.applied)
    && (forall w | w in q.applied :: IsRequest(q, w))
    && (Drained(q) && q.requests != [] ==>
          (Latest(q) in q.applied <==> q.applied != [] && q.applied[|q.applied| - 1] == Latest(q)))
  }

  lemma OrderlyLastWins(q: Queue)
    requires Orderly(q)
    ensures LastWins(q)
  {
    forall w | w in q.applied ensures IsRequest(q, w) {
      assert w in q.started;
    }
    if Drained(q) && q.requests != [] {
      if i :| 0 <= i < |q.applied| && q.applied[i] == Latest(q) {
        var last := q.applied[|q.applied| - 1];
        assert last in q.applied && IsRequest(q, last);
      }
    }
  }

  /** If no command is given up while its process is alive, the last request wins. */
  lemma LastRequestWins(events: seq<Event>)
    requires NoneGivenUp(events)
    ensures LastWins(Run(EMPTY, events))
  {
    RunIsOrderly(EMPTY, events);
    OrderlyLastWins(Run(EMPTY, events));
  }

  // ----- when a late process is left -----

  function Nexts(n: nat): seq<Event> {
    if n == 0 then [] else [Next] + Nexts(n - 1)
  }

  lemma {:induction false} NextsGiveNothingUp(n: nat)
    ensures forall e | e in Nexts(n) :: e == Next
  {
    if n > 0 {
      NextsGiveNothingUp(n - 1);
    }
  }

  /** Run dry, the queue skips every work but the newest, and starts that. */
  lemma {:induction false} NewestStarts(q: Queue)
    requires Sound(q) && q.running.None? && q.pending != []
    ensures var newest := q.pending[|q.pending| - 1];
            Run(q, Nexts(|q.pending|))
            == q.(pending := [], running := Some(newest), alive := q.alive + {newest}, started := q.started + [newest])
    decreases |q.pending|
  {
    var n := |q.pending|;
    RunCons(q, Next, Nexts(n - 1));
    if n == 1 {
      OnlyOneStarts(q);
    } else {
      StaleIsSkipped(q);
      NewestStarts(Step(q, Next));
    }
  }

  lemma OnlyOneStarts(q: Queue)
    requires Sound(q) && q.running.None? && |q.pending| == 1
    ensures var work := q.pending[0];
            Step(q, Next)
            == q.(pending := [], running := Some(work), alive := q.alive + {work}, started := q.started + [work])
  {
    assert q.pending[1..] == [];
  }

  lemma StaleIsSkipped(q: Queue)
    requires Sound(q) && q.running.None? && |q.pending| > 1
    ensures Step(q, Next) == q.(pending := q.pending[1..]) && Sound(Step(q, Next))
  {
    NextIsSound(q);
  }

  /** The running command, if any, ends by its callback. */
  const CALLED_BACK := Settle(C.Starts(true, true, false), [])

  /** Finish what runs, ask for another icon, let it be applied, and then let `late` apply its own. */
  function Overtaken(q: Queue, late: Work): seq<Event> {
    [CALLED_BACK, Request(Classic, MAC_APP)]
    + (Nexts(|q.pending| + 1) + [Apply(Work(q.generation + 1, Classic)), Apply(late)])
  }

  lemma OvertakenIsOutOfOrder(q: Queue, late: Work)
    requires Sound(q) && late in q.alive && q.running != Some(late)
    ensures NoneGivenUp(Overtaken(q, late)) && !Ascending(Run(q, Overtaken(q, late)).applied)
  {
    var newest := Work(q.generation + 1, Classic);
    var asked := AskedAgain(q, late);
    OvertakenRun(q, newest, late);
    LateComesLast(asked, newest, late, [Apply(newest), Apply(late)]);
    OvertakenGivesNothingUp(q, late);
  }

  lemma OvertakenRun(q: Queue, newest: Work, late: Work)
    requires newest == Work(q.generation + 1, Classic)
    ensures Run(q, Overtaken(q, late))
         == Run(Step(Step(q, CALLED_BACK), Request(Classic, MAC_APP)),
                Nexts(|q.pending| + 1) + [Apply(newest), Apply(late)])
  {
    RunTwo(q, CALLED_BACK, Request(Classic, MAC_APP), Nexts(|q.pending| + 1) + [Apply(newest), Apply(late)]);
  }

  lemma LateComesLast(q: Queue, newest: Work, late: Work, ends: seq<Event>)
    requires Sound(q) && q.running.None? && late in q.alive
    requires q.pending != [] && q.pending[|q.pending| - 1] == newest && late.generation < newest.generation
    requires ends == [Apply(newest), Apply(late)]
    ensures !Ascending(Run(q, Nexts(|q.pending|) + ends).applied)
  {
    RunConcat(q, Nexts(|q.pending|), ends);
    NewestStarts(q);
    var running := Run(q, Nexts(|q.pending|));
    RunTwo(running, Apply(newest), Apply(late), []);
    assert ends + [] == ends;
    OutOfOrder(running, newest, late);
  }

  lemma AskedAgain(q: Queue, late: Work) returns (asked: Queue)
    requires Sound(q) && late in q.alive && q.running != Some(late)
    ensures asked == Step(Step(q, CALLED_BACK), Request(Classic, MAC_APP)) && Sound(asked)
    ensures asked.running.None? && asked.pending == q.pending + [Work(q.generation + 1, Classic)]
    ensures late in asked.alive && late.generation < q.generation + 1
  {
    IdleAgain(q, late);
    asked := Step(Step(q, CALLED_BACK), Request(Classic, MAC_APP));
    RequestIsSound(Step(q, CALLED_BACK), Classic, MAC_APP);
  }

  lemma IdleAgain(q: Queue, late: Work)
    requires Sound(q) && late in q.alive && q.running != Some(late)
    ensures var idle := Step(q, CALLED_BACK);
            && Sound(idle) && idle.running.None? && idle.pending == q.pending && idle.generation == q.generation
            && late in idle.alive && late.generation < q.generation + 1
  {
    SettleIsSound(q, CALLED_BACK.launch, CALLED_BACK.log);
    assert late in q.started;
    CallbackSettles();
  }

  lemma CallbackSettles()
    ensures var c := C.Run(C.Launched(CALLED_BACK.launch), CALLED_BACK.log);
            c.settled && !C.OutlivesPromise(CALLED_BACK.launch, CALLED_BACK.log) && !c.outlived
  {
  }

  lemma OvertakenGivesNothingUp(q: Queue, late: Work)
    ensures NoneGivenUp(Overtaken(q, late))
  {
    NextsGiveNothingUp(|q.pending| + 1);
    CallbackSettles();
    forall e | e in Overtaken(q, late) && e.Settle? ensures e == CALLED_BACK {
      if e in Nexts(|q.pending| + 1) {
      }
    }
  }

  lemma OutOfOrder(q: Queue, newest: Work, late: Work)
    requires newest in q.alive && late in q.alive && late.generation < newest.generation
    ensures !Ascending(Step(Step(q, Apply(newest)), Apply(late)).applied)
  {
    var r := Step(Step(q, Apply(newest)), Apply(late));
    assert r.applied == q.applied + [newest] + [late];
    assert r.applied[|q.applied|] == newest && r.applied[|q.applied| + 1] == late;
  }

  lemma OrderIsSafe(q: Queue)
    requires Sound(q)
    ensures (forall after | NoneGivenUp(after) :: Ascending(Run(q, after).applied))
       <==> Ascending(q.applied) && NoneLate(q)
  {
    if Ascending(q.applied) && NoneLate(q) {
      forall after | NoneGivenUp(after) ensures Ascending(Run(q, after).applied) {
        RunIsOrderly(q, after);
      }
    } else if !NoneLate(q) {
      var late :| late in q.alive && q.running != Some(late);
      OvertakenIsOutOfOrder(q, late);
    } else {
      assert NoneGivenUp([]) && Run(q, []) == q;
    }
  }

  /** In every state that can be reached, even by giving commands up: from here on icons are sure to be
      applied in request order, whatever comes that gives no further command up, if and only if they have
      been so far and no process is left over from a work that no longer runs. */
  lemma OrderHoldsExactly(before: seq<Event>)
    ensures var q := Run(EMPTY, before);
            (forall after | NoneGivenUp(after) :: Ascending(Run(q, after).applied))
            <==> Ascending(q.applied) && NoneLate(q)
  {
    RunIsSound(EMPTY, before);
    OrderIsSafe(Run(EMPTY, before));
  }

  // ----- a concrete run -----

  /** The first command's timers run out on it, and its process applies its icon after the second command has
      finished. */
  lemma LateProcessCanWin(first: Work, second: Work, givenUp: seq<C.Event>)
    requires first == Work(1, Blue) && second == Work(2, Watercolor)
    requires givenUp == [C.FallbackFires, C.ForceFires]
    ensures var events := [Request(Blue, MAC_APP), Next, Settle(C.Starts(true, false, false), givenUp)] +
                          ([Request(Watercolor, MAC_APP), Next] + [Apply(second), CALLED_BACK, Apply(first)]);
            var q := Run(EMPTY, events);
            Drained(q) && q.requests == [Blue, Watercolor] && q.applied == [second, first]
  {
    var giveUp := Settle(C.Starts(true, false, false), givenUp);
    var finish := [Apply(second), CALLED_BACK, Apply(first)];
    var q1 := Queue(1, [], None, {first}, [Blue], [first], [first], []);
    var q2 := Queue(2, [], Some(second), {first, second}, [Blue, Watercolor], [first, second], [first], []);
    RunThree(EMPTY, Request(Blue, MAC_APP), Next, giveUp, [Request(Watercolor, MAC_APP), Next] + finish);
    FirstIsGivenUp(first, givenUp);
    RunTwo(q1, Request(Watercolor, MAC_APP), Next, finish);
    SecondRuns(first, second);
    RunThree(q2, Apply(second), CALLED_BACK, Apply(first), []);
    assert finish + [] == finish;
  }

  lemma FirstIsGivenUp(first: Work, givenUp: seq<C.Event>)
    requires first == Work(1, Blue) && givenUp == [C.FallbackFires, C.ForceFires]
    ensures Step(Step(Step(EMPTY, Request(Blue, MAC_APP)), Next), Settle(C.Starts(true, false, false), givenUp))
         == Queue(1, [], None, {first}, [Blue], [first], [first], [])
  {
    var launch := C.Starts(true, false, false);
    TimersRunOut(givenUp);
    C.OutlivedExactly(launch, givenUp);
    C.RunIsSound(C.Launched(launch), givenUp);
    var q := Queue(1, [], Some(first), {first}, [Blue], [first], [], []);
    assert Step(Step(EMPTY, Request(Blue, MAC_APP)), Next) == q;
  }

  lemma TimersRunOut(givenUp: seq<C.Event>)
    requires givenUp == [C.FallbackFires, C.ForceFires]
    ensures C.GivenUp(true, givenUp, false)
  {
    assert givenUp[1..] == [C.ForceFires];
    assert C.GivenUp(true, givenUp[1..], true);
  }

  lemma SecondRuns(first: Work, second: Work)
    requires first == Work(1, Blue) && second == Work(2, Watercolor)
    ensures Step(Step(Queue(1, [], None, {first}, [Blue], [first], [first], []), Request(Watercolor, MAC_APP)), Next)
         == Queue(2, [], Some(second), {first, second}, [Blue, Watercolor], [first, second], [first], [])
  {
  }

  lemma RunThree(q: Queue, a: Event, b: Event, c: Event, rest: seq<Event>)
    ensures Run(q, [a, b, c] + rest) == Run(Step(Step(Step(q, a), b), c), rest)
  {
    assert [a, b, c] + rest == [a] + ([b, c] + rest);
    RunCons(q, a, [b, c] + rest);
    RunTwo(Step(q, a), b, c, rest);
  }

  lemma RunTwo(q: Queue, a: Event, b: Event, rest: seq<Event>)
    ensures Run(q, [a, b] + rest) == Run(Step(Step(q, a), b), rest)
  {
    assert [a, b] + rest == [a] + ([b] + rest);
    RunCons(q, a, [b] + rest);
    RunCons(Step(q, a), b, rest);
  }

  lemma {:induction false} RunConcat(q: Queue, a: seq<Event>, b: seq<Event>)
    ensures Run(q, a + b) == Run(Run(q, a), b)
    decreases a
  {
    if a == [] {
      assert a + b == b;
    } else {
      assert (a + b)[1..] == a[1..] + b;
      RunConcat(Step(q, a[0]), a[1..], b);
    }
  }

  lemma RunCons(q: Queue, event: Event, rest: seq<Event>)
    ensures Run(q, [event] + rest) == Run(Step(q, event), rest)
  {
    assert ([event] + rest)[1..] == rest;
  }

  // ----- the queue in place -----

  class PersistenceQueue {
    var generation: nat
    var pending: seq<Work>
    var running: Option<Work>
    ghost var alive: set<Work>
    ghost var requests: seq<Icon>
    ghost var started: seq<Work>
    ghost var finished: seq<Work>
    ghost var applied: seq<Work>

    ghost function Snapshot(): Queue
      reads this
    {
      Queue(generation, pending, running, alive, requests, started, finished, applied)
    }

    constructor ()
      ensures Snapshot() == EMPTY
    {
      generation, pending, running := 0, [], None;
      alive, requests, started, finished, applied := {}, [], [], [], [];
    }

    method PersistMacDockIcon(icon: Icon, host: Host)
      modifies this
      ensures Snapshot() == Step(old(Snapshot()), Request(icon, host))
      ensures if host.isMac && !host.isDevApp && host.hasBundle then
                && generation == old(generation) + 1 && running == old(running)
                && pending == old(pending) + [Work(generation, icon)] && requests == old(requests) + [icon]
              else Snapshot() == old(Snapshot())
    {
      if !host.isMac || host.isDevApp {
        return;
      }
      if !host.hasBundle {
        return;
      }
      generation := generation + 1;
      pending := pending + [Work(generation, icon)];
      requests := requests + [icon];
    }

    /** The head of the promise chain runs once the work before it has settled. */
    method RunNext()
      modifies this
      ensures Snapshot() == Step(old(Snapshot()), Next)
      ensures if old(running).Some? || old(pending) == [] then Snapshot() == old(Snapshot())
              else
                var work := old(pending)[0];
                && pending == old(pending)[1..] && generation == old(generation)
                && running == (if work.generation == generation then Some(work) else None)
                && started == old(started) + if work.generation == generation then [work] else []
    {
      if running.Some? || |pending| == 0 {
        return;
      }
      var work := pending[0];
      pending := pending[1..];
      if work.generation != generation {
        return;
      }
      running := Some(work);
      alive := alive + {work};
      started := started + [work];
    }

    method OnSettled(launch: C.Launch, log: seq<C.Event>)
      modifies this
      ensures Snapshot() == Step(old(Snapshot()), Settle(launch, log))
      ensures old(running).Some? && C.Run(C.Launched(launch), log).resolved == 1 ==>
                running.None? && finished == old(finished) + [old(running).value]
      ensures C.Run(C.Launched(launch), log).resolved == 0 ==> Snapshot() == old(Snapshot())
    {
      C.RunIsSound(C.Launched(launch), log);
      var command := C.Run(C.Launched(launch), log);
      if running.None? || !command.settled {
        return;
      }
      alive := if command.outlived then alive else alive - {running.value};
      finished := finished + [running.value];
      running := None;
    }

    /** Outside the queue: the process of a work applies its icon, or ends. */
    ghost method OnProcess(event: Event)
      requires event.Apply? || event.ProcessEnds?
      modifies `alive, `applied
      ensures Snapshot() == Step(old(Snapshot()), event)
    {
      if event.Apply? && event.work in alive {
        applied := applied + [event.work];
      }
      alive := alive - {event.work};
    }

    method Handle(event: Event)
      modifies this
      ensures Snapshot() == Step(old(Snapshot()), event)
    {
      match event {
        case Request(icon, host) => PersistMacDockIcon(icon, host);
        case Next => RunNext();
        case Settle(launch, log) => OnSettled(launch, log);
        case Apply(_) => OnProcess(event);
        case ProcessEnds(_) => OnProcess(event);
      }
    }

    /** Any sequence of events, in place: works start one at a time and in order; and from an orderly state,
        if no command is given up, the last request wins and the state stays orderly. */
    method HandleAll(events: seq<Event>)
      requires Sound(Snapshot())
      modifies this
      ensures Snapshot() == Run(old(Snapshot()), events) && Sound(Snapshot())
      ensures StartsInOrder(Snapshot())
      ensures old(Orderly(Snapshot())) && NoneGivenUp(events) ==> Orderly(Snapshot()) && LastWins(Snapshot())
    {
      RunIsSound(Snapshot(), events);
      SoundStartsInOrder(Run(Snapshot(), events));
      if Orderly(Snapshot()) && NoneGivenUp(events) {
        RunIsOrderly(Snapshot(), events);
        OrderlyLastWins(Run(Snapshot(), events));
      }
      for k := 0 to |events|
        invariant Run(Snapshot(), events[k..]) == Run(old(Snapshot()), events)
      {
        assert events[k..][1..] == events[k + 1..];
        Handle(events[k]);
      }
    }
  }
}
