/** The job runner as the program runs it: fields updated by each callback. Its contracts speak of
    the trace, of what happened to each run, and not of the fields. */
module JobRunner {
  import opened Prelude
  import opened JobRunnerSpec

  function BootAll(s: State, jobs: seq<string>, now: int): State {
    if jobs == [] then s
    else Next(BootAll(s, jobs[..|jobs| - 1], now), Boot(jobs[|jobs| - 1]), now)
  }

  /** Booting leaves every job with an idle poller, and unless stopping busy. */
  ghost predicate Booted(before: State, after: State, jobs: seq<string>) {
    && Good(after) && StopSeen(after.trace) == StopSeen(before.trace)
    && (forall k :: 0 <= k < |jobs| ==> jobs[k] in after.pollers && after.pollers[jobs[k]].inFlight == Idle)
    && if StopSeen(before.trace) then after.trace == before.trace else forall k :: 0 <= k < |jobs| ==> Busy(after.trace, jobs[k])
  }

  lemma BootOne(s: State, job: string, now: int)
    requires Good(s)
    ensures var t := Next(s, Boot(job), now);
            && Good(t) && Unsettled(s.trace) <= Unsettled(t.trace) && StopSeen(t.trace) == StopSeen(s.trace)
            && if StopSeen(s.trace) then t.trace == s.trace else Busy(t.trace, job)
  {
    NextKeepsGood(s, Boot(job), now);
    ActiveIsBusy(s, job);
    if !s.stopping && job !in s.active { TickStarts(s, job, now); }
  }

  lemma {:induction false} BootsAll(s: State, jobs: seq<string>, now: int)
    requires Good(s)
    ensures Booted(s, BootAll(s, jobs, now), jobs)
  {
    if jobs != [] {
      var init, last := jobs[..|jobs| - 1], jobs[|jobs| - 1];
      BootsAll(s, init, now);
      BootsNext(s, BootAll(s, init, now), init, last, jobs, now);
    }
  }

  lemma BootsNext(s: State, before: State, init: seq<string>, last: string, jobs: seq<string>, now: int)
    requires Booted(s, before, init) && jobs == init + [last]
    ensures Booted(s, Next(before, Boot(last), now), jobs)
  {
    BootOne(before, last, now);
    forall k | 0 <= k < |jobs| ensures jobs[k] in Next(before, Boot(last), now).pollers && Next(before, Boot(last), now).pollers[jobs[k]].inFlight == Idle {
      if k < |init| { assert jobs[k] == init[k]; }
    }
    if !StopSeen(s.trace) { AllStayBusy(before.trace, Next(before, Boot(last), now).trace, init, last, jobs); }
  }

  lemma AllStayBusy(before: seq<Happening>, after: seq<Happening>, init: seq<string>, last: string, jobs: seq<string>)
    requires Unsettled(before) <= Unsettled(after) && Busy(after, last) && jobs == init + [last]
    requires forall k :: 0 <= k < |init| ==> Busy(before, init[k])
    ensures forall k :: 0 <= k < |jobs| ==> Busy(after, jobs[k])
  {
    forall k | 0 <= k < |jobs| ensures Busy(after, jobs[k]) {
      if k < |init| { BusyStays(before, after, init[k]); }
    }
  }

  class Runner {
    const jobs: seq<string>
    /** The scheduling controller is aborted. */
    var stopping: bool
    /** The shutdown controller is aborted. */
    var shutdown: bool
    var active: map<string, ActiveRun>
    var history: map<string, RunHistory>
    var pollers: map<string, Poller>
    var phase: StopPhase
    var awaited: set<nat>
    /** Tells one run's promise from another's. */
    var nextRun: nat
    ghost var trace: seq<Happening>

    ghost function View(): State
      reads this
    {
      State(stopping, shutdown, active, history, pollers, phase, awaited, nextRun, trace)
    }

    ghost predicate Valid()
      reads this
    {
      Good(View())
    }

    constructor (jobs: seq<string>)
      ensures this.jobs == jobs && View() == Fresh && Valid()
    {
      this.jobs := jobs;
      stopping, shutdown := false, false;
      active, history, pollers := map[], map[], map[];
      phase, awaited, nextRun, trace := NotStopping, {}, 0, [];
    }

    /** One boot run per job, then its poller: every job then has an idle poller, and unless stopping
        an unsettled run. */
    method Start(now: int)
      requires Valid()
      modifies this
      ensures Valid() && View() == BootAll(old(View()), jobs, now)
      ensures Booted(old(View()), View(), jobs)
    {
      for k := 0 to |jobs|
        invariant Valid() && View() == BootAll(old(View()), jobs[..k], now)
      {
        assert jobs[..k + 1][..k] == jobs[..k];
        BootJob(jobs[k], now);
      }
      assert jobs[..|jobs|] == jobs;
      BootsAll(old(View()), jobs, now);
    }

    method BootJob(job: string, now: int)
      requires Valid()
      modifies this
      ensures Valid() && View() == Next(old(View()), Boot(job), now)
    {
      ghost var before := View();
      var ticked := RunTick(job, now);
      pollers := pollers[job := Poller(Idle, stopping)];
      NextKeepsGood(before, Boot(job), now);
    }

    /** A run starts exactly when stop has not begun and the job has no unsettled run. */
    method RunTick(job: string, now: int) returns (waits: InFlight)
      requires Valid()
      modifies this
      ensures Valid() && View() == Tick(old(View()), job, now)
      ensures waits.Awaiting? <==> !old(StopSeen(trace)) && !old(Busy(trace, job))
      ensures waits.Awaiting? ==> Unsettled(trace) == old(Unsettled(trace)) + {(job, waits.run)}
                                  && (job, waits.run) !in old(Unsettled(trace))
      ensures waits.Awaiting? ==> job in history && history[job].lastStartedAt == Some(now)
                                  && (job in old(history) ==> history[job].lastOutcome == old(history)[job].lastOutcome)
      ensures !waits.Awaiting? ==> waits == Skipped && trace == old(trace)
    {
      ghost var before := View();
      ActiveIsBusy(before, job);
      if stopping { return Skipped; }
      if job in active { return Skipped; }
      waits := Awaiting(nextRun);
      active := active[job := ActiveRun(nextRun, now, None)];
      var known := if job in history then history[job] else RunHistory(None, None, None);
      history := history[job := known.(lastStartedAt := Some(now))];
      trace := trace + [Started(job, nextRun)];
      nextRun := nextRun + 1;
      assert View() == Tick(before, job, now);
      TickKeepsGood(before, job, now);
      TickStarts(before, job, now);
    }

    /** The interval timer of a poller starts a run exactly when the poller is idle, stop has not begun
        and the job has no unsettled run; it never does anything else to runs. */
    method PollerTimer(job: string, now: int)
      requires Valid()
      modifies this
      ensures Valid() && View() == Next(old(View()), PollerFires(job), now)
      ensures trace == old(trace) || trace == old(trace) + [Started(job, old(nextRun))]
      ensures trace != old(trace) <==>
              && job in old(pollers) && old(pollers)[job].inFlight == Idle
              && !old(StopSeen(trace)) && !old(Busy(trace, job))
    {
      ghost var before := View();
      NextKeepsGood(before, PollerFires(job), now);
      if job !in pollers { return; }
      var poller := pollers[job];
      if poller.halted || poller.inFlight != Idle { return; }
      ActiveIsBusy(before, job);
      var waits := RunTick(job, now);
      pollers := pollers[job := Poller(waits, false)];
      assert View() == Fire(before, job, now);
    }

    /** A poller's tick is over exactly when the run it waits for, if any, has settled. */
    method PollerTickDone(job: string, now: int)
      requires Valid()
      modifies this
      ensures Valid() && View() == Next(old(View()), PollerClears(job), now)
      ensures trace == old(trace)
      ensures job in old(pollers) ==> job in pollers && (pollers[job].inFlight == Idle <==> TickOver(old(pollers)[job], job, trace))
    {
      ghost var before := View();
      NextKeepsGood(before, PollerClears(job), now);
      TickOverExactly(before, job);
      if job in pollers {
        var poller := pollers[job];
        if poller.inFlight.Awaiting? && exists j :: j in active && active[j].id == poller.inFlight.run { return; }
        pollers := pollers[job := poller.(inFlight := Idle)];
      }
      assert View() == Next(before, PollerClears(job), now);
    }

    /** A timeout is the first abort of the job's unsettled run, if it had none, and touches no other. */
    method TimeoutTimer(job: string, now: int)
      requires Valid()
      modifies this
      ensures Valid() && View() == Next(old(View()), TimeoutFires(job), now)
      ensures Unsettled(trace) == old(Unsettled(trace))
      ensures forall r: nat :: AbortOf(trace, r) == if (job, r) in old(Unsettled(trace)) then FirstOf(old(AbortOf(trace, r)), Timeout)
                                                    else old(AbortOf(trace, r))
    {
      ghost var before := View();
      if job in active {
        var run := active[job];
        active := active[job := Signal(run, Timeout)];
        trace := trace + [TimedOutAt(job, run.id)];
      }
      assert View() == Expire(before, job);
      NextKeepsGood(before, TimeoutFires(job), now);
      ExpireTells(before, job);
    }

    /** The job's unsettled run settles: its outcome tells the first abort it had, and without one
        whether its promise was kept. No other run is touched. */
    method RunSettled(job: string, resolved: bool, now: int) returns (outcome: Option<Outcome>)
      requires Valid()
      modifies this
      ensures Valid() && View() == Next(old(View()), RunSettles(job, resolved), now)
      ensures outcome.Some? <==> old(Busy(trace, job))
      ensures Unsettled(trace) == set p | p in old(Unsettled(trace)) && p.0 != job
      ensures outcome.Some? ==> forall r :: (job, r) in old(Unsettled(trace)) ==> OutcomeFits(outcome.value, old(AbortOf(trace, r)))
      ensures outcome.Some? && outcome.value in {Ok, Failed} ==> (outcome.value == Ok <==> resolved)
      ensures outcome.Some? ==> job in history && history[job].lastOutcome == outcome
    {
      ghost var before := View();
      outcome := None;
      if job in active {
        var run := active[job];
        outcome := Some(OutcomeOf(run.aborted, resolved));
        active := active - {job};
        history := history[job := RunHistory(Some(run.startedAt), Some(now), outcome)];
        trace := trace + [Settled(job, run.id, outcome.value)];
      }
      assert View() == Settle(before, job, resolved, now);
      NextKeepsGood(before, RunSettles(job, resolved), now);
      SettleEnds(before, job, resolved, now);
    }

    /** stop(), up to its first wait: nothing starts any more, every poller is halted and every
        unsettled run is waited for. */
    method StopBegins(hasDeadline: bool, now: int)
      requires Valid()
      modifies this
      ensures Valid() && View() == Next(old(View()), StopCalled(hasDeadline), now)
      ensures StopSeen(trace) && Unsettled(trace) == old(Unsettled(trace))
      ensures forall r: nat :: AbortOf(trace, r) == old(AbortOf(trace, r))
      ensures forall j :: j in pollers ==> pollers[j].halted
      ensures forall j, r :: (j, r) in Unsettled(trace) ==> r in awaited
    {
      ghost var before := View();
      if phase == NotStopping {
        stopping := true;
        pollers := Halted(pollers);
        awaited := Ids(active);
        phase := Draining(hasDeadline);
        trace := trace + [StopBegan];
      }
      assert View() == BeginStop(before, hasDeadline);
      NextKeepsGood(before, StopCalled(hasDeadline), now);
      StopAwaits(before, hasDeadline);
    }

    /** stop() returns the empty list exactly when it is under way, no run is unsettled and no
        poller's tick is pending. */
    method StopDrained(now: int) returns (unfinished: Option<set<string>>)
      requires Valid()
      modifies this
      ensures Valid() && View() == Next(old(View()), AllSettled, now) && trace == old(trace)
      ensures unfinished == None || unfinished == Some({})
      ensures unfinished.Some? <==> (old(phase).Draining? || old(phase).Aborting?) && Unsettled(trace) == {}
                                    && forall j :: j in pollers ==> pollers[j].inFlight == Idle
    {
      ghost var before := View();
      ghost var drained := Stopping(before) && NothingAwaited(before);
      unfinished := None;
      if (phase.Draining? || phase.Aborting?)
         && (forall j :: j in active ==> active[j].id !in awaited)
         && (forall j :: j in pollers ==> pollers[j].inFlight == Idle)
      {
        phase := Returned({});
        unfinished := Some({});
      }
      assert unfinished.Some? == drained && View() == Next(before, AllSettled, now);
      NextKeepsGood(before, AllSettled, now);
      if Stopping(before) { DrainedExactly(before); }
    }

    /** stop(), when its deadline passes first: shutdown is the first abort of every run without one. */
    method StopDeadline(now: int)
      requires Valid()
      modifies this
      ensures Valid() && View() == Next(old(View()), DeadlinePasses, now)
      ensures Unsettled(trace) == old(Unsettled(trace))
      ensures if old(phase) == Draining(true) then forall r: nat :: AbortOf(trace, r) == FirstOf(old(AbortOf(trace, r)), Shutdown)
              else trace == old(trace)
    {
      ghost var before := View();
      if phase == Draining(true) {
        shutdown := true;
        active := AllSignalled(active, Shutdown);
        trace := trace + [ShutdownFired];
        phase := Aborting;
      }
      assert View() == Next(before, DeadlinePasses, now);
      NextKeepsGood(before, DeadlinePasses, now);
      ShutDownTells(before);
    }

    /** stop(), when the time to wind down is over, returns exactly the jobs with an unsettled run. */
    method StopGivesUp(now: int) returns (unfinished: Option<set<string>>)
      requires Valid()
      modifies this
      ensures Valid() && View() == Next(old(View()), SettleWindowPasses, now) && trace == old(trace)
      ensures unfinished.Some? <==> old(phase).Aborting?
      ensures unfinished.Some? ==> forall j :: j in unfinished.value <==> Busy(trace, j)
    {
      NextKeepsGood(View(), SettleWindowPasses, now);
      unfinished := None;
      if phase.Aborting? {
        forall j ensures j in active <==> Busy(trace, j) { ActiveIsBusy(View(), j); }
        unfinished := Some(active.Keys);
        phase := Returned(active.Keys);
      }
    }

    method Handle(e: Event, now: int)
      requires Valid()
      modifies this
      ensures Valid() && View() == Next(old(View()), e, now)
    {
      match e {
        case Boot(job) => BootJob(job, now);
        case PollerFires(job) => PollerTimer(job, now);
        case PollerClears(job) => PollerTickDone(job, now);
        case TimeoutFires(job) => TimeoutTimer(job, now);
        case RunSettles(job, resolved) => var _ := RunSettled(job, resolved, now);
        case StopCalled(hasDeadline) => StopBegins(hasDeadline, now);
        case AllSettled => var _ := StopDrained(now);
        case DeadlinePasses => StopDeadline(now);
        case SettleWindowPasses => var _ := StopGivesUp(now);
      }
    }
  }

  /** Whatever callbacks reach a runner, in whatever order, it is in the state of that run of events,
      and all that is proved of such runs holds of it. */
  method Replay(jobs: seq<string>, events: seq<(Event, int)>) returns (runner: Runner)
    ensures fresh(runner) && runner.Valid() && runner.View() == Run(events)
    ensures forall j, r, q :: (j, r) in Unsettled(runner.trace) && (j, q) in Unsettled(runner.trace) ==> r == q
    ensures NoStartAfterStop(runner.trace) && OutcomesFit(runner.trace)
  {
    runner := new Runner(jobs);
    for k := 0 to |events|
      invariant fresh(runner) && runner.Valid() && runner.View() == Run(events[..k])
    {
      RunSnoc(events, k);
      runner.Handle(events[k].0, events[k].1);
    }
    assert events[..|events|] == events;
    GoodTells(runner.View());
  }
}
