/** Job scheduling as steps: what the runner knows, every event that can reach it, and a trace of
    what happened to each run. Disabled events change nothing, so any list of events is a run. */
module JobRunnerSpec {
  import opened Prelude

  datatype Outcome = Ok | Failed | TimedOut | Aborted

  datatype Reason = Timeout | Shutdown

  /** A run in flight: its signal carries the first abort only. */
  datatype ActiveRun = ActiveRun(id: nat, startedAt: int, aborted: Option<Reason>)

  datatype RunHistory = RunHistory(lastStartedAt: Option<int>, lastFinishedAt: Option<int>, lastOutcome: Option<Outcome>)

  /** What a poller's last tick is still waiting for. */
  datatype InFlight = Idle | Skipped | Awaiting(run: nat)

  datatype Poller = Poller(inFlight: InFlight, halted: bool)

  datatype StopPhase = NotStopping | Draining(hasDeadline: bool) | Aborting | Returned(unfinished: set<string>)

  datatype Happening =
    | Started(job: string, run: nat)
    | TimedOutAt(job: string, run: nat)
    | ShutdownFired                      // every run's signal at once
    | Settled(job: string, run: nat, outcome: Outcome)
    | StopBegan

  datatype State = State(
    stopping: bool, shutdown: bool,
    active: map<string, ActiveRun>, history: map<string, RunHistory>, pollers: map<string, Poller>,
    phase: StopPhase, awaited: set<nat>, nextRun: nat, trace: seq<Happening>)

  const Fresh := State(false, false, map[], map[], map[], NotStopping, {}, 0, [])

  datatype Event =
    | Boot(job: string)                  // start(): the boot run, then the poller
    | PollerFires(job: string)
    | PollerClears(job: string)          // the tick's promise has settled
    | TimeoutFires(job: string)
    | RunSettles(job: string, resolved: bool)
    | StopCalled(hasDeadline: bool)
    | AllSettled
    | DeadlinePasses
    | SettleWindowPasses

  function HistoryOf(s: State, job: string): RunHistory {
    if job in s.history then s.history[job] else RunHistory(None, None, None)
  }

  /** Single flight: nothing starts once scheduling is aborted or while a run is in flight. */
  function Tick(s: State, job: string, now: int): State {
    if s.stopping || job in s.active then s
    else
      s.(active := s.active[job := ActiveRun(s.nextRun, now, None)],
         history := s.history[job := HistoryOf(s, job).(lastStartedAt := Some(now))],
         nextRun := s.nextRun + 1,
         trace := s.trace + [Started(job, s.nextRun)])
  }

  function Fire(s: State, job: string, now: int): State {
    if job !in s.pollers || s.pollers[job].halted || s.pollers[job].inFlight != Idle then s
    else
      var started := !s.stopping && job !in s.active;
      var waits := if started then Awaiting(s.nextRun) else Skipped;
      Tick(s, job, now).(pollers := s.pollers[job := Poller(waits, false)])
  }

  predicate InFlightDone(s: State, p: Poller) {
    p.inFlight.Awaiting? ==> forall j :: j in s.active ==> s.active[j].id != p.inFlight.run
  }

  function Signal(run: ActiveRun, reason: Reason): ActiveRun {
    if run.aborted.None? then run.(aborted := Some(reason)) else run
  }

  function Expire(s: State, job: string): State {
    if job !in s.active then s
    else s.(active := s.active[job := Signal(s.active[job], Timeout)],
            trace := s.trace + [TimedOutAt(job, s.active[job].id)])
  }

  function AllSignalled(active: map<string, ActiveRun>, reason: Reason): map<string, ActiveRun> {
    map j | j in active :: Signal(active[j], reason)
  }

  function ShutDown(s: State): State {
    s.(shutdown := true, phase := Aborting, active := AllSignalled(s.active, Shutdown),
       trace := s.trace + [ShutdownFired])
  }

  /** A run that outlived its abort counts as timed out or aborted, however it ended. */
  function OutcomeOf(aborted: Option<Reason>, resolved: bool): Outcome {
    match aborted
    case Some(Timeout) => TimedOut
    case Some(Shutdown) => Aborted
    case None => if resolved then Ok else Failed
  }

  function Settle(s: State, job: string, resolved: bool, now: int): State {
    if job !in s.active then s
    else
      var run := s.active[job];
      var outcome := OutcomeOf(run.aborted, resolved);
      s.(active := s.active - {job},
         history := s.history[job := RunHistory(Some(run.startedAt), Some(now), Some(outcome))],
         trace := s.trace + [Settled(job, run.id, outcome)])
  }

  function Halted(pollers: map<string, Poller>): map<string, Poller> {
    map j | j in pollers :: pollers[j].(halted := true)
  }

  function Ids(active: map<string, ActiveRun>): set<nat> {
    set j | j in active :: active[j].id
  }

  function BeginStop(s: State, hasDeadline: bool): State {
    if s.phase != NotStopping then s
    else s.(stopping := true, pollers := Halted(s.pollers), phase := Draining(hasDeadline),
            awaited := Ids(s.active), trace := s.trace + [StopBegan])
  }

  /** Everything stop() waits for: the pollers' ticks and the runs active when it was called. */
  predicate NothingAwaited(s: State) {
    && (forall j :: j in s.active ==> s.active[j].id !in s.awaited)
    && forall j :: j in s.pollers ==> s.pollers[j].inFlight == Idle
  }

  predicate Stopping(s: State) {
    s.phase.Draining? || s.phase.Aborting?
  }

  function Next(s: State, e: Event, now: int): State {
    match e
    case Boot(job) =>
      var t := Tick(s, job, now);
      t.(pollers := t.pollers[job := Poller(Idle, t.stopping)])
    case PollerFires(job) => Fire(s, job, now)
    case PollerClears(job) =>
      if job in s.pollers && InFlightDone(s, s.pollers[job])
      then s.(pollers := s.pollers[job := s.pollers[job].(inFlight := Idle)]) else s
    case TimeoutFires(job) => Expire(s, job)
    case RunSettles(job, resolved) => Settle(s, job, resolved, now)
    case StopCalled(hasDeadline) => BeginStop(s, hasDeadline)
    case AllSettled => if Stopping(s) && NothingAwaited(s) then s.(phase := Returned({})) else s
    case DeadlinePasses => if s.phase == Draining(true) then ShutDown(s) else s
    case SettleWindowPasses => if s.phase.Aborting? then s.(phase := Returned(s.active.Keys)) else s
  }

  /** The state after a list of events, each with the clock it saw. */
  function Run(events: seq<(Event, int)>): State {
    if events == [] then Fresh
    else Next(Run(events[..|events| - 1]), events[|events| - 1].0, events[|events| - 1].1)
  }

  lemma RunSnoc(events: seq<(Event, int)>, k: nat)
    requires k < |events|
    ensures Run(events[..k + 1]) == Next(Run(events[..k]), events[k].0, events[k].1)
  {
    assert events[..k + 1][..k] == events[..k];
  }

  // ---------------------------------------------------------------------------
  // Reading the trace
  // ---------------------------------------------------------------------------

  /** Runs started and not yet settled, by job. */
  function Unsettled(trace: seq<Happening>): set<(string, nat)> {
    if trace == [] then {}
    else
      var before := Unsettled(trace[..|trace| - 1]);
      match trace[|trace| - 1]
      case Started(job, run) => before + {(job, run)}
      case Settled(job, run, _) => before - {(job, run)}
      case _ => before
  }

  /** The first abort of a run. */
  function AbortOf(trace: seq<Happening>, run: nat): Option<Reason> {
    if trace == [] then None
    else
      var before := AbortOf(trace[..|trace| - 1], run);
      match trace[|trace| - 1]
      case TimedOutAt(_, r) => if before.None? && r == run then Some(Timeout) else before
      case ShutdownFired => if before.None? then Some(Shutdown) else before
      case _ => before
  }

  predicate OutcomeFits(outcome: Outcome, aborted: Option<Reason>) {
    match outcome
    case TimedOut => aborted == Some(Timeout)
    case Aborted => aborted == Some(Shutdown)
    case _ => aborted == None
  }

  ghost predicate OutcomesFit(trace: seq<Happening>) {
    forall k :: 0 <= k < |trace| && trace[k].Settled? ==> OutcomeFits(trace[k].outcome, AbortOf(trace[..k], trace[k].run))
  }

  ghost predicate NoStartAfterStop(trace: seq<Happening>) {
    forall i, j :: 0 <= i < j < |trace| && trace[i].StopBegan? ==> !trace[j].Started?
  }

  ghost predicate StopSeen(trace: seq<Happening>) {
    exists i :: 0 <= i < |trace| && trace[i].StopBegan?
  }

  lemma StopSeenGrows(trace: seq<Happening>, h: Happening)
    ensures StopSeen(trace + [h]) <==> StopSeen(trace) || h.StopBegan?
  {
    var more := trace + [h];
    if StopSeen(trace) {
      var i :| 0 <= i < |trace| && trace[i].StopBegan?;
      assert more[i].StopBegan?;
    }
    if h.StopBegan? { assert more[|trace|].StopBegan?; }
  }

  /** What every reachable state satisfies. Histories and pollers play no part in it. */
  ghost predicate Sound(stopping: bool, shutdown: bool, active: map<string, ActiveRun>, phase: StopPhase,
                        awaited: set<nat>, nextRun: nat, trace: seq<Happening>) {
    && (forall j, r :: (j, r) in Unsettled(trace) <==> j in active && active[j].id == r)
    && (forall j :: j in active ==> active[j].id < nextRun && AbortOf(trace, active[j].id) == active[j].aborted)
    && (forall i, j :: i in active && j in active && i != j ==> active[i].id != active[j].id)
    && (forall r :: r >= nextRun && !shutdown ==> AbortOf(trace, r) == None)
    && OutcomesFit(trace) && NoStartAfterStop(trace)
    && (stopping <==> phase != NotStopping) && (shutdown ==> stopping)
    && (StopSeen(trace) <==> stopping)
    && (stopping ==> forall j :: j in active ==> active[j].id in awaited)
    && (phase == Returned({}) ==> active == map[])
  }

  ghost predicate Inv(s: State) {
    Sound(s.stopping, s.shutdown, s.active, s.phase, s.awaited, s.nextRun, s.trace)
  }

  lemma TraceGrows(trace: seq<Happening>, h: Happening)
    ensures (trace + [h])[..|trace|] == trace && (trace + [h])[|trace|] == h
    ensures StopSeen(trace + [h]) <==> StopSeen(trace) || h.StopBegan?
  {
    StopSeenGrows(trace, h);
  }

  lemma OutcomesGrow(trace: seq<Happening>, h: Happening)
    requires OutcomesFit(trace) && (h.Settled? ==> OutcomeFits(h.outcome, AbortOf(trace, h.run)))
    ensures OutcomesFit(trace + [h])
  {
    var more := trace + [h];
    forall k | 0 <= k < |more| && more[k].Settled? ensures OutcomeFits(more[k].outcome, AbortOf(more[..k], more[k].run)) {
      assert more[..k] == trace[..k];
      assert k == |trace| ==> more[..k] == trace;
    }
  }

  lemma TickKeepsInv(s: State, job: string, now: int)
    requires Inv(s)
    ensures Inv(Tick(s, job, now))
  {
    if !s.stopping && job !in s.active {
      TraceGrows(s.trace, Started(job, s.nextRun));
      OutcomesGrow(s.trace, Started(job, s.nextRun));
    }
  }

  lemma ExpireKeepsInv(s: State, job: string)
    requires Inv(s)
    ensures Inv(Expire(s, job))
  {
    if job in s.active {
      TraceGrows(s.trace, TimedOutAt(job, s.active[job].id));
      OutcomesGrow(s.trace, TimedOutAt(job, s.active[job].id));
    }
  }

  lemma ShutDownKeepsInv(s: State)
    requires Inv(s) && s.phase.Draining?
    ensures Inv(ShutDown(s))
  {
    TraceGrows(s.trace, ShutdownFired);
    OutcomesGrow(s.trace, ShutdownFired);
  }

  lemma SettledTrace(trace: seq<Happening>, h: Happening)
    requires h.Settled? && OutcomesFit(trace) && NoStartAfterStop(trace) && OutcomeFits(h.outcome, AbortOf(trace, h.run))
    ensures Unsettled(trace + [h]) == Unsettled(trace) - {(h.job, h.run)}
    ensures forall r: nat :: AbortOf(trace + [h], r) == AbortOf(trace, r)
    ensures OutcomesFit(trace + [h]) && NoStartAfterStop(trace + [h]) && (StopSeen(trace + [h]) <==> StopSeen(trace))
  {
    TraceGrows(trace, h);
    OutcomesGrow(trace, h);
  }

  lemma SettleKeepsInv(s: State, job: string, resolved: bool, now: int)
    requires Inv(s)
    ensures Inv(Settle(s, job, resolved, now))
  {
    if job in s.active {
      var run := s.active[job];
      SettledTrace(s.trace, Settled(job, run.id, OutcomeOf(run.aborted, resolved)));
    }
  }

  lemma StopKeepsInv(s: State, hasDeadline: bool)
    requires Inv(s)
    ensures Inv(BeginStop(s, hasDeadline))
  {
    if s.phase == NotStopping {
      TraceGrows(s.trace, StopBegan);
      OutcomesGrow(s.trace, StopBegan);
    }
  }

  lemma AllSettledKeepsInv(s: State)
    requires Inv(s) && Stopping(s) && NothingAwaited(s)
    ensures Inv(s.(phase := Returned({})))
  {
    AllSettledKeepsActive(s);
  }

  lemma NextKeepsInv(s: State, e: Event, now: int)
    requires Inv(s)
    ensures Inv(Next(s, e, now))
  {
    match e {
      case Boot(job) => TickKeepsInv(s, job, now);
      case PollerFires(job) => TickKeepsInv(s, job, now);
      case PollerClears(_) =>
      case TimeoutFires(job) => ExpireKeepsInv(s, job);
      case RunSettles(job, resolved) => SettleKeepsInv(s, job, resolved, now);
      case StopCalled(hasDeadline) => StopKeepsInv(s, hasDeadline);
      case AllSettled => if Stopping(s) && NothingAwaited(s) { AllSettledKeepsInv(s); }
      case DeadlinePasses => if s.phase == Draining(true) { ShutDownKeepsInv(s); }
      case SettleWindowPasses =>
    }
  }

  lemma {:induction false} RunInv(events: seq<(Event, int)>)
    ensures Inv(Run(events))
  {
    if events != [] {
      var last := events[|events| - 1];
      RunInv(events[..|events| - 1]);
      NextKeepsInv(Run(events[..|events| - 1]), last.0, last.1);
    }
  }

  // ---------------------------------------------------------------------------
  // Safety, whatever happens in whatever order
  // ---------------------------------------------------------------------------

  /** Single flight: a job never has two unsettled runs, and no two jobs share one. */
  lemma OneRunPerJob(events: seq<(Event, int)>, i: string, r: nat, j: string, q: nat)
    requires (i, r) in Unsettled(Run(events).trace) && (j, q) in Unsettled(Run(events).trace)
    ensures i == j <==> r == q
  {
    RunInv(events);
  }

  /** After stop() is called no run starts. */
  lemma StopEndsStarting(events: seq<(Event, int)>, i: nat, j: nat)
    requires i < j < |Run(events).trace| && Run(events).trace[i].StopBegan?
    ensures !Run(events).trace[j].Started?
  {
    RunInv(events);
  }

  /** An outcome tells the first abort that fired before the run settled: none for ok and failed. */
  lemma OutcomeTellsAbort(events: seq<(Event, int)>, i: nat)
    requires i < |Run(events).trace| && Run(events).trace[i].Settled?
    ensures var trace := Run(events).trace;
            OutcomeFits(trace[i].outcome, AbortOf(trace[..i], trace[i].run))
  {
    RunInv(events);
  }

  lemma {:induction false} AbortSeen(trace: seq<Happening>, run: nat, i: nat)
    requires i < |trace| && (trace[i].ShutdownFired? || (trace[i].TimedOutAt? && trace[i].run == run))
    ensures AbortOf(trace, run).Some?
  {
    if i < |trace| - 1 { AbortSeen(trace[..|trace| - 1], run, i); }
  }

  /** "ok" and "failed" mean that no abort of the run had fired, neither its timeout nor shutdown. */
  lemma OkMeansNoAbort(events: seq<(Event, int)>, i: nat, a: nat)
    requires a < i < |Run(events).trace| && Run(events).trace[i].Settled?
    requires Run(events).trace[i].outcome in {Ok, Failed}
    ensures var h := Run(events).trace[a];
            !h.ShutdownFired? && !(h.TimedOutAt? && h.run == Run(events).trace[i].run)
  {
    var trace := Run(events).trace;
    OutcomeTellsAbort(events, i);
    assert trace[..i][a] == trace[a];
    if trace[a].ShutdownFired? || (trace[a].TimedOutAt? && trace[a].run == trace[i].run) {
      AbortSeen(trace[..i], trace[i].run, a);
    }
  }

  /** The job has a run that has not settled. */
  ghost predicate Busy(trace: seq<Happening>, job: string) {
    exists r :: (job, r) in Unsettled(trace)
  }

  /** When stop() returns, its list is exactly the jobs with an unsettled run. */
  lemma UnfinishedExactly(events: seq<(Event, int)>, e: Event, now: int, job: string)
    requires !Run(events).phase.Returned? && Next(Run(events), e, now).phase.Returned?
    ensures var t := Next(Run(events), e, now); job in t.phase.unfinished <==> Busy(t.trace, job)
  {
    var s, t := Run(events), Next(Run(events), e, now);
    RunInv(events);
    NextKeepsInv(s, e, now);
    ReturnsKeys(s, e, now);
    if job in t.active { assert (job, t.active[job].id) in Unsettled(t.trace); }
  }

  lemma ReturnsKeys(s: State, e: Event, now: int)
    requires Inv(Next(s, e, now)) && !s.phase.Returned? && Next(s, e, now).phase.Returned?
    ensures Next(s, e, now).phase.unfinished == Next(s, e, now).active.Keys
  {}

  /** Once stopping, the jobs in flight only become fewer, and a returned list never changes. */
  lemma OnlyShrinks(s: State, e: Event, now: int)
    requires s.stopping
    ensures Next(s, e, now).stopping && Next(s, e, now).active.Keys <= s.active.Keys
    ensures s.phase.Returned? ==> Next(s, e, now).phase == s.phase
  {}

  lemma ReturnedIsStopping(events: seq<(Event, int)>)
    requires Run(events).phase.Returned?
    ensures Run(events).stopping
  {
    RunInv(events);
  }

  lemma {:induction false} ReturnIsFinal(events: seq<(Event, int)>, more: seq<(Event, int)>)
    requires Run(events).phase.Returned?
    ensures Run(events + more).phase == Run(events).phase
    decreases |more|
  {
    if more == [] {
      assert events + more == events;
    } else {
      var init, last := more[..|more| - 1], more[|more| - 1];
      ReturnIsFinal(events, init);
      ReturnedIsStopping(events + init);
      assert (events + more)[..|events + more| - 1] == events + init;
      OnlyShrinks(Run(events + init), last.0, last.1);
    }
  }

  /** An empty list is final: no job is running then or ever after. */
  lemma EmptyListIsFinal(events: seq<(Event, int)>, more: seq<(Event, int)>, job: string)
    requires Run(events).phase == Returned({})
    ensures Run(events + more).active == map[] && !Busy(Run(events + more).trace, job)
  {
    ReturnIsFinal(events, more);
    RunInv(events + more);
  }

  /** The run a poller's tick waits for is its own job's. */
  ghost predicate PollersWaitForOwn(s: State) {
    && (forall j :: j in s.active ==> s.active[j].id < s.nextRun)
    && (forall j :: j in s.pollers && s.pollers[j].inFlight.Awaiting? ==> s.pollers[j].inFlight.run < s.nextRun)
    && (forall j, k :: j in s.pollers && k in s.active && s.pollers[j].inFlight == Awaiting(s.active[k].id) ==> k == j)
  }

  lemma TickKeepsWaiting(s: State, job: string, now: int)
    requires PollersWaitForOwn(s)
    ensures PollersWaitForOwn(Tick(s, job, now))
  {}

  lemma FireKeepsWaiting(s: State, job: string, now: int)
    requires PollersWaitForOwn(s)
    ensures PollersWaitForOwn(Fire(s, job, now))
  {
    TickKeepsWaiting(s, job, now);
  }

  lemma SettleKeepsWaiting(s: State, job: string, resolved: bool, now: int)
    requires PollersWaitForOwn(s)
    ensures PollersWaitForOwn(Settle(s, job, resolved, now))
  {}

  lemma ExpireKeepsWaiting(s: State, job: string)
    requires PollersWaitForOwn(s)
    ensures PollersWaitForOwn(Expire(s, job))
  {}

  lemma ShutDownKeepsWaiting(s: State)
    requires PollersWaitForOwn(s)
    ensures PollersWaitForOwn(ShutDown(s))
  {}

  lemma StopKeepsWaiting(s: State, hasDeadline: bool)
    requires PollersWaitForOwn(s)
    ensures PollersWaitForOwn(BeginStop(s, hasDeadline))
  {}

  lemma NextKeepsWaiting(s: State, e: Event, now: int)
    requires PollersWaitForOwn(s)
    ensures PollersWaitForOwn(Next(s, e, now))
  {
    match e {
      case Boot(job) => TickKeepsWaiting(s, job, now);
      case PollerFires(job) => FireKeepsWaiting(s, job, now);
      case RunSettles(job, resolved) => SettleKeepsWaiting(s, job, resolved, now);
      case StopCalled(hasDeadline) => StopKeepsWaiting(s, hasDeadline);
      case TimeoutFires(job) => ExpireKeepsWaiting(s, job);
      case DeadlinePasses => ShutDownKeepsWaiting(s);
      case _ =>
    }
  }

  /** Pollers are halted once stop was called, and not before. */
  ghost predicate HaltedWhenStopping(s: State) {
    forall j :: j in s.pollers ==> (s.pollers[j].halted <==> s.stopping)
  }

  /** The history knows when the run in flight started. */
  ghost predicate HistoryFits(s: State) {
    forall j :: j in s.active ==> j in s.history && s.history[j].lastStartedAt == Some(s.active[j].startedAt)
  }

  /** Everything the runner keeps true. */
  ghost predicate Good(s: State) {
    Inv(s) && PollersWaitForOwn(s) && HaltedWhenStopping(s) && HistoryFits(s)
  }

  /** What a good state says of its trace. */
  lemma GoodTells(s: State)
    requires Good(s)
    ensures forall j, r, q :: (j, r) in Unsettled(s.trace) && (j, q) in Unsettled(s.trace) ==> r == q
    ensures NoStartAfterStop(s.trace) && OutcomesFit(s.trace)
  {}

  lemma NextKeepsGood(s: State, e: Event, now: int)
    requires Good(s)
    ensures Good(Next(s, e, now))
  {
    NextKeepsInv(s, e, now);
    NextKeepsWaiting(s, e, now);
    NextKeepsHalted(s, e, now);
    NextKeepsHistory(s, e, now);
  }

  lemma NextKeepsHistory(s: State, e: Event, now: int)
    requires HistoryFits(s)
    ensures HistoryFits(Next(s, e, now))
  {}

  lemma NextKeepsHalted(s: State, e: Event, now: int)
    requires Inv(s) && HaltedWhenStopping(s)
    ensures HaltedWhenStopping(Next(s, e, now))
  {}

  lemma TickKeepsGood(s: State, job: string, now: int)
    requires Good(s)
    ensures Good(Tick(s, job, now))
  {
    TickKeepsInv(s, job, now);
    TickKeepsWaiting(s, job, now);
  }

  lemma {:induction false} RunGood(events: seq<(Event, int)>)
    ensures Good(Run(events))
  {
    if events != [] {
      var last := events[|events| - 1];
      RunGood(events[..|events| - 1]);
      NextKeepsGood(Run(events[..|events| - 1]), last.0, last.1);
    }
  }

  /** The job was booted somewhere in these events. */
  ghost predicate WasBooted(events: seq<(Event, int)>, job: string) {
    exists k :: 0 <= k < |events| && events[k].0 == Boot(job)
  }

  lemma PollersAfter(s: State, e: Event, now: int)
    ensures Next(s, e, now).pollers.Keys == s.pollers.Keys + (if e.Boot? then {e.job} else {})
  {}

  lemma BootedSnoc(events: seq<(Event, int)>, last: (Event, int), job: string)
    ensures WasBooted(events + [last], job) <==> WasBooted(events, job) || last.0 == Boot(job)
  {
    var more := events + [last];
    assert more[|events|] == last && forall k :: 0 <= k < |events| ==> more[k] == events[k];
  }

  lemma {:induction false} BootedHasPoller(events: seq<(Event, int)>, job: string)
    ensures job in Run(events).pollers <==> WasBooted(events, job)
  {
    if events != [] {
      var init, last := events[..|events| - 1], events[|events| - 1];
      BootedHasPoller(init, job);
      PollersAfter(Run(init), last.0, last.1);
      BootedSnoc(init, last, job);
      assert events == init + [last];
    }
  }

  /** Exactly the booted jobs have a poller, and it is halted exactly if stop was called. */
  lemma PollersExactly(events: seq<(Event, int)>, job: string)
    ensures job in Run(events).pollers <==> WasBooted(events, job)
    ensures job in Run(events).pollers ==> (Run(events).pollers[job].halted <==> StopSeen(Run(events).trace))
  {
    BootedHasPoller(events, job);
    RunGood(events);
  }

  /** Whatever happened before, without stop the idle timer of a booted job starts a run exactly when
      the job has no unsettled one; and the poller then waits for that run. */
  lemma TimerStartsExactly(events: seq<(Event, int)>, job: string, now: int)
    requires WasBooted(events, job) && job in Run(events).pollers && Run(events).pollers[job].inFlight == Idle
    requires !StopSeen(Run(events).trace)
    ensures var s, t := Run(events), Next(Run(events), PollerFires(job), now);
            if Busy(s.trace, job) then t.trace == s.trace
            else t.trace == s.trace + [Started(job, s.nextRun)] && t.pollers[job].inFlight == Awaiting(s.nextRun)
                 && (job, s.nextRun) in Unsettled(t.trace)
  {
    var s := Run(events);
    RunGood(events);
    PollersExactly(events, job);
    ActiveIsBusy(s, job);
    if !Busy(s.trace, job) { TickStarts(s, job, now); }
  }

  lemma NothingUnsettled(s: State)
    requires Inv(s)
    ensures Unsettled(s.trace) == {} <==> s.active == map[]
  {
    if s.active == map[] {
      forall p | p in Unsettled(s.trace) ensures p.0 in s.active {}
    }
    if Unsettled(s.trace) == {} {
      forall j ensures j !in s.active { ActiveIsBusy(s, j); }
    }
  }

  /** What stop() waits for is gone exactly when no run is unsettled and no poller's tick is pending. */
  lemma DrainedExactly(s: State)
    requires Inv(s) && s.stopping
    ensures NothingAwaited(s) <==> Unsettled(s.trace) == {} && forall j :: j in s.pollers ==> s.pollers[j].inFlight == Idle
  {
    NothingUnsettled(s);
    if NothingAwaited(s) { AllSettledKeepsActive(s); }
  }

  lemma AllSettledKeepsActive(s: State)
    requires Inv(s) && s.stopping && NothingAwaited(s)
    ensures s.active == map[]
  {
    assert s.active == map[] by { if j :| j in s.active { assert false; } }
  }

  /** What a started run adds to the trace. */
  lemma TickStarts(s: State, job: string, now: int)
    requires Inv(s) && !s.stopping && job !in s.active
    ensures var t := Tick(s, job, now).trace;
            && Unsettled(t) == Unsettled(s.trace) + {(job, s.nextRun)} && (job, s.nextRun) !in Unsettled(s.trace)
            && StopSeen(t) == StopSeen(s.trace) && Busy(t, job)
  {
    TraceGrows(s.trace, Started(job, s.nextRun));
    assert (job, s.nextRun) in Unsettled(Tick(s, job, now).trace);
  }

  /** What a timeout adds to the trace. */
  lemma ExpireTells(s: State, job: string)
    requires Inv(s)
    ensures var t := Expire(s, job).trace;
            && Unsettled(t) == Unsettled(s.trace)
            && forall r: nat :: AbortOf(t, r) == if (job, r) in Unsettled(s.trace) then FirstOf(AbortOf(s.trace, r), Timeout) else AbortOf(s.trace, r)
  {
    ActiveIsBusy(s, job);
    if job in s.active { TraceGrows(s.trace, TimedOutAt(job, s.active[job].id)); }
  }

  /** What the deadline adds to the trace. */
  lemma ShutDownTells(s: State)
    ensures var t := ShutDown(s).trace;
            Unsettled(t) == Unsettled(s.trace) && forall r: nat :: AbortOf(t, r) == FirstOf(AbortOf(s.trace, r), Shutdown)
  {
    TraceGrows(s.trace, ShutdownFired);
  }

  /** What an abort makes of the first abort of a run. */
  function FirstOf(before: Option<Reason>, reason: Reason): Option<Reason> {
    if before.Some? then before else Some(reason)
  }

  /** What a settled run adds to the trace. */
  lemma SettleEnds(s: State, job: string, resolved: bool, now: int)
    requires Inv(s)
    ensures job in s.active <==> Busy(s.trace, job)
    ensures Unsettled(Settle(s, job, resolved, now).trace) == set p | p in Unsettled(s.trace) && p.0 != job
    ensures job in s.active ==>
              forall r :: (job, r) in Unsettled(s.trace) ==>
                            OutcomeFits(OutcomeOf(s.active[job].aborted, resolved), AbortOf(s.trace, r))
  {
    ActiveIsBusy(s, job);
    if job in s.active {
      var run := s.active[job];
      TraceGrows(s.trace, Settled(job, run.id, OutcomeOf(run.aborted, resolved)));
      assert forall p :: p in Unsettled(s.trace) && p.0 == job ==> p == (job, run.id);
    }
  }

  lemma BusyStays(before: seq<Happening>, after: seq<Happening>, job: string)
    requires Unsettled(before) <= Unsettled(after) && Busy(before, job)
    ensures Busy(after, job)
  {
    var r :| (job, r) in Unsettled(before);
    assert (job, r) in Unsettled(after);
  }

  /** The job's entry tells its last start, this end and its outcome; the others' are as before. */
  predicate Recorded(before: map<string, RunHistory>, after: map<string, RunHistory>, job: string, now: int, outcome: Option<Outcome>) {
    job in before && after == before[job := RunHistory(before[job].lastStartedAt, Some(now), outcome)]
  }

  lemma SettleRecords(s: State, job: string, resolved: bool, now: int)
    requires HistoryFits(s) && job in s.active
    ensures Recorded(s.history, Settle(s, job, resolved, now).history, job, now, Some(OutcomeOf(s.active[job].aborted, resolved)))
  {}

  /** What the beginning of stop() brings about. */
  lemma StopAwaits(s: State, hasDeadline: bool)
    requires Good(s)
    ensures var t := BeginStop(s, hasDeadline);
            && StopSeen(t.trace) && Unsettled(t.trace) == Unsettled(s.trace)
            && (forall r: nat :: AbortOf(t.trace, r) == AbortOf(s.trace, r))
            && (forall j :: j in t.pollers ==> t.pollers[j].halted)
            && forall j, r :: (j, r) in Unsettled(t.trace) ==> r in t.awaited
  {
    NextKeepsGood(s, StopCalled(hasDeadline), 0);
    TraceGrows(s.trace, StopBegan);
  }

  /** A poller's tick has nothing left to wait for. */
  ghost predicate TickOver(p: Poller, job: string, trace: seq<Happening>) {
    p.inFlight.Awaiting? ==> (job, p.inFlight.run) !in Unsettled(trace)
  }

  lemma TickOverExactly(s: State, job: string)
    requires Inv(s) && PollersWaitForOwn(s)
    ensures job in s.pollers ==> (InFlightDone(s, s.pollers[job]) <==> TickOver(s.pollers[job], job, s.trace))
  {
    ActiveIsBusy(s, job);
  }

  /** The fields answer to the trace: what is active is what has not settled. */
  lemma ActiveIsBusy(s: State, job: string)
    requires Inv(s)
    ensures job in s.active <==> Busy(s.trace, job)
    ensures job in s.active ==> (job, s.active[job].id) in Unsettled(s.trace)
    ensures forall r :: (job, r) in Unsettled(s.trace) ==> job in s.active && s.active[job].id == r
  {
    if job in s.active { assert (job, s.active[job].id) in Unsettled(s.trace); }
  }

  lemma {:induction false} PollersWait(events: seq<(Event, int)>)
    ensures PollersWaitForOwn(Run(events))
  {
    if events != [] {
      var last := events[|events| - 1];
      PollersWait(events[..|events| - 1]);
      NextKeepsWaiting(Run(events[..|events| - 1]), last.0, last.1);
    }
  }

  /** While the run its tick started is unsettled, a poller starts nothing. */
  lemma PollerNeverOverlaps(events: seq<(Event, int)>, job: string, now: int)
    requires job in Run(events).pollers && Run(events).pollers[job].inFlight.Awaiting?
    requires (job, Run(events).pollers[job].inFlight.run) in Unsettled(Run(events).trace)
    ensures Next(Run(events), PollerFires(job), now) == Run(events)
    ensures Next(Run(events), PollerClears(job), now) == Run(events)
  {
    RunInv(events);
  }
}
