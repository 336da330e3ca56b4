/** What the scheduler promises: over every interleaving of a freshly loaded route. */
module SchedulerResults {
  import opened Engine
  import opened Options
  import opened Scheduler
  import opened SchedulerInvariant

  function Unanswered(s: State, p: Priority): int {
    |LedgerOf(s, p).accepted| - |LedgerOf(s, p).replies|
  }

  /**
    Each class is answered in acceptance order, job by job and once each; a translated reply
    is the translation of the whole job, however it was cut into chunks; an error has its
    cause; and no submit through a live handle is refused.
   */
  lemma AnsweredOnceInOrder(t: Translator, s: State, p: Priority, i: nat)
    requires Reachable(t, s) && i < |LedgerOf(s, p).replies|
    ensures i < |LedgerOf(s, p).accepted|
    ensures LedgerOf(s, p).replies[i].id == LedgerOf(s, p).accepted[i].id == i
    ensures Justified(t, s, p, LedgerOf(s, p).replies[i])
    ensures s.rejected == 0
  {
    ReachableHasInv(t, s);
    assert InOrder(s, p) && RepliesJustified(t, s, p);
  }

  /** `active` is the number of jobs not yet answered; a reply about to be sent no longer counts. */
  lemma ActiveCountsUnanswered(t: Translator, s: State)
    requires Reachable(t, s)
    ensures s.active == Unanswered(s, Interactive) + Unanswered(s, Batch) - if s.pc.Answering? then 1 else 0
  {
    ReachableHasInv(t, s);
  }

  /** Whoever holds a handle finds the route open: its job is accepted, and pins the route, in every reachable state. */
  lemma HandleKeepsOpen(t: Translator, s: State, h: nat, segments: seq<string>, html: bool, priority: Priority)
    requires Reachable(t, s) && h in s.holders && h !in s.notifying
    ensures Enabled(s, Submit(h, segments, html, priority)) && !s.q.closed
    ensures var s' := Apply(t, s, Submit(h, segments, html, priority)); var l := LedgerOf(s, priority);
      && s'.rejected == 0
      && LedgerOf(s', priority).accepted == l.accepted + [Job(|l.accepted|, segments, [], html, priority)]
      && s'.active == s.active + 1
  {
    ReachableHasInv(t, s);
  }

  /**
    Callers are not held back: flags can be raised at any time, handles taken while the registry has
    its own, and dropped whenever no submit is under way; and a call can succeed or fail.
   */
  lemma CallersAreFree(t: Translator, s: State, h: nat, job: JobName, ok: bool)
    requires Reachable(t, s)
    ensures Enabled(s, RaiseFlag(job)) && job in Apply(t, s, RaiseFlag(job)).flags
    ensures REGISTRY in s.holders && h !in s.holders ==> Enabled(s, Acquire(h)) && h in Apply(t, s, Acquire(h)).holders
    ensures h in s.holders && h !in s.notifying ==> Enabled(s, DropHandle(h)) && h !in Apply(t, s, DropHandle(h)).holders
    ensures s.pc.Awaiting? && s.link.answer.None? ==> Enabled(s, Serve(ok))
    ensures REGISTRY in Fresh(h).holders && h in Fresh(h).holders && !Fresh(h).q.closed
  {
    ReachableHasInv(t, s);
  }

  /** Once the scheduler has left its loop every accepted job is answered and nothing pins the route. */
  lemma ExitLosesNothing(t: Translator, s: State)
    requires Reachable(t, s) && Gone(s.pc)
    ensures s.holders == {} && s.active == 0
    ensures |s.interactive.replies| == |s.interactive.accepted| && |s.batch.replies| == |s.batch.accepted|
  {
    ReachableHasInv(t, s);
  }

  /** The pass over leftovers never finds a job. */
  lemma NoLeftovers(t: Translator, s: State)
    requires Reachable(t, s) && s.pc.Leftover?
    ensures s.pc.jobs == []
  {
    ReachableHasInv(t, s);
  }

  lemma NoLostWakeup(t: Translator, s: State)
    requires Reachable(t, s) && s.pc == Parked(false) && (!Empty(s.q) || s.q.closed)
    ensures !s.permit
    ensures (exists h :: h in s.notifying) || s.closing
  {
    ReachableHasInv(t, s);
    assert s.notifying != {} ==> exists h :: h in s.notifying;
  }

  // ----- Progress: nothing is stuck, and nothing runs forever by itself

  /** Waiting with no notification on its way, or gone together with the engine thread. */
  predicate AtRest(s: State) {
    || (s.pc.Parked? && !s.pc.woken && s.notifying == {} && !s.closing)
    || (s.pc.Exited? && !s.link.up)
  }

  /** A step that is due in a state that is not at rest. */
  ghost function Due(s: State): Event {
    match s.pc
    case Top => Pop
    case Enter => Poll
    case Parked(woken) =>
      if woken then Wake
      else if s.notifying == {} then NotifyClosed
      else var h :| h in s.notifying; NotifySubmitted(h)
    case Checking(_) => Check
    case Awaiting(_, _) => if s.link.answer.Some? then Receive else Serve(true)
    case Requeueing(_) => Requeue
    case Accounting(_, _) => Account
    case Answering(_, _) => Answer
    case Leaving => TakeLeftovers
    case Leftover(_) => AnswerLeftover
    case Exited => StopEngine
  }

  /** A route that is not at rest can always move by itself. */
  lemma NeverStuck(t: Translator, s: State)
    requires Inv(t, s) && !AtRest(s)
    ensures Internal(Due(s)) && Enabled(s, Due(s))
  {
  }

  /**
    A route with no step of its own left has answered every accepted job. The scheduler is
    then waiting, or gone with the engine thread because no handle is left.
   */
  lemma QuietMeansAnswered(t: Translator, s: State)
    requires Reachable(t, s) && forall e :: Internal(e) ==> !Enabled(s, e)
    ensures |s.interactive.replies| == |s.interactive.accepted| && |s.batch.replies| == |s.batch.accepted|
    ensures s.active == 0
    ensures if s.holders == {} then s.pc.Exited? && !s.link.up else s.pc == Parked(false)
  {
    ReachableHasInv(t, s);
    if !AtRest(s) {
      NeverStuck(t, s);
    }
    assert AtRest(s);
  }

  function Chunks(job: Job): nat {
    if job.priority.Interactive? || |job.remaining| == 0 then 1 else (|job.remaining| + BATCH_CHUNK - 1) / BATCH_CHUNK
  }

  function Load(jobs: seq<Job>): nat {
    if |jobs| == 0 then 0 else Chunks(jobs[0]) + Load(jobs[1..])
  }

  /** Steps the scheduler still owes for where it stands, at eight per engine call. */
  function PcWork(s: State): nat {
    match s.pc
    case Top => 4
    case Enter => 1
    case Parked(woken) => if woken then 5 else 0
    case Checking(job) => 8 * Chunks(job) + 3
    case Awaiting(job, _) =>
      (if |job.remaining| == 0 then 0 else 8 * Chunks(job)) + if s.link.answer.Some? then 8 else 9
    case Requeueing(job) => 8 * Chunks(job) + 5
    case Accounting(_, _) => 6
    case Answering(_, _) => 5
    case Leaving => 2
    case Leftover(_) => 1
    case Exited => 0
  }

  /** The steps the route has left to take by itself, at most. */
  function Work(s: State): nat {
    8 * (Load(s.q.interactive) + Load(s.q.batch)) + PcWork(s) + 6 * |s.notifying|
    + (if s.closing then 6 else 0) + (if s.permit then 4 else 0) + if s.link.up then 1 else 0
  }

  /** An engine call takes a chunk off the job. */
  lemma ChunkTaken(job: Job)
    requires ChunkSize(job) < |job.remaining|
    ensures Chunks(job.(remaining := job.remaining[ChunkSize(job)..])) == Chunks(job) - 1
  {
  }

  lemma CheckEnds(t: Translator, s: State)
    requires Enabled(s, Check) && EngineInStep(t, s)
    ensures Work(Apply(t, s, Check)) < Work(s)
  {
    var job := s.pc.job;
    if ChunkSize(job) < |job.remaining| {
      ChunkTaken(job);
    }
    assert s.link.answer.None?;
  }

  lemma PopEnds(t: Translator, s: State)
    requires Enabled(s, Pop)
    ensures Work(Apply(t, s, Pop)) < Work(s)
  {
  }

  lemma RequeueEnds(t: Translator, s: State)
    requires Enabled(s, Requeue)
    ensures Work(Apply(t, s, Requeue)) < Work(s)
  {
    assert PushFront(s.q, s.pc.job).batch[1..] == s.q.batch;
  }

  lemma ServeEnds(t: Translator, s: State, ok: bool)
    requires EngineInStep(t, s) && Enabled(s, Serve(ok))
    ensures Work(Apply(t, s, Serve(ok))) < Work(s)
  {
    assert s.pc.Awaiting?;
  }

  lemma ReceiveEnds(t: Translator, s: State)
    requires Enabled(s, Receive)
    ensures Work(Apply(t, s, Receive)) < Work(s)
  {
    var s' := Apply(t, s, Receive);
    assert s'.q == s.q && s'.link.up == s.link.up;
    if s'.pc.Requeueing? {
      assert Chunks(s'.pc.job) == Chunks(s.pc.job);
    }
  }

  lemma NotifyEnds(t: Translator, s: State, e: Event)
    requires Enabled(s, e) && (e.NotifySubmitted? || e.NotifyClosed?)
    ensures Work(Apply(t, s, e)) < Work(s)
  {
  }

  lemma InternalStepsEnd(t: Translator, s: State, e: Event)
    requires Inv(t, s) && Internal(e) && Enabled(s, e)
    ensures Work(Apply(t, s, e)) < Work(s)
  {
    match e
    case Check => CheckEnds(t, s);
    case Pop => PopEnds(t, s);
    case Requeue => RequeueEnds(t, s);
    case Serve(ok) => ServeEnds(t, s, ok);
    case Receive => ReceiveEnds(t, s);
    case NotifySubmitted(_) => NotifyEnds(t, s, e);
    case NotifyClosed => NotifyEnds(t, s, e);
    case _ =>
  }

  /** Without handles only the cancel flags can still be touched from outside. */
  lemma ClosedStep(t: Translator, s: State, e: Event)
    requires Inv(t, s) && s.q.closed && Enabled(s, e)
    ensures Apply(t, s, e).q.closed
    ensures if Internal(e) then Work(Apply(t, s, e)) < Work(s) else Work(Apply(t, s, e)) == Work(s)
  {
    if Internal(e) {
      InternalStepsEnd(t, s, e);
    }
  }

  function InternalSteps(events: seq<Event>): nat {
    if |events| == 0 then 0 else (if Internal(events[0]) then 1 else 0) + InternalSteps(events[1..])
  }

  /** A closed queue drains: whatever the interleaving, only so many steps are left. */
  lemma {:induction false} ClosedQueueDrains(t: Translator, s: State, events: seq<Event>)
    requires Inv(t, s) && s.q.closed && Run(t, s, events).Some?
    ensures InternalSteps(events) + Work(Run(t, s, events).value) <= Work(s)
    ensures Run(t, s, events).value.q.closed
    decreases |events|
  {
    if |events| > 0 {
      var s' := Apply(t, s, events[0]);
      StepKeepsInv(t, s, events[0]);
      ClosedStep(t, s, events[0]);
      ClosedQueueDrains(t, s', events[1..]);
    }
  }

  // ----- Interactive before batch

  /** Interactive jobs taken from the queue so far. */
  function Taken(s: State): nat {
    |s.interactive.replies| + HandCount(s.pc, Interactive)
  }

  /** Segments of batch jobs handed to the engine during a run. */
  function BatchSegments(t: Translator, s: State, events: seq<Event>): nat
    requires Run(t, s, events).Some?
    decreases |events|
  {
    if |events| == 0 then 0
    else
      var s' := Apply(t, s, events[0]);
      (if events[0].Check? && s'.pc.Awaiting? && s.pc.job.priority.Batch? then |s'.pc.chunk| else 0)
      + BatchSegments(t, s', events[1..])
  }

  /** Interactive jobs handed to the engine during a run. */
  function InteractiveCalls(t: Translator, s: State, events: seq<Event>): nat
    requires Run(t, s, events).Some?
    decreases |events|
  {
    if |events| == 0 then 0
    else
      var s' := Apply(t, s, events[0]);
      (if events[0].Check? && s'.pc.Awaiting? && s.pc.job.priority.Interactive? then 1 else 0)
      + InteractiveCalls(t, s', events[1..])
  }

  lemma TakenGrows(t: Translator, s: State, e: Event)
    requires Inv(t, s) && Enabled(s, e)
    ensures Taken(s) <= Taken(Apply(t, s, e))
    ensures |s.interactive.accepted| <= |Apply(t, s, e).interactive.accepted|
  {
  }

  lemma {:induction false} TakenGrowsOverRun(t: Translator, s: State, events: seq<Event>)
    requires Inv(t, s) && Run(t, s, events).Some?
    ensures Taken(s) <= Taken(Run(t, s, events).value)
    decreases |events|
  {
    if |events| > 0 {
      TakenGrows(t, s, events[0]);
      StepKeepsInv(t, s, events[0]);
      TakenGrowsOverRun(t, Apply(t, s, events[0]), events[1..]);
    }
  }

  /** While interactive job `id` waits, the next job taken is interactive. */
  lemma InteractiveFirst(t: Translator, s: State, id: nat)
    requires Inv(t, s) && s.pc.Top? && Taken(s) <= id < |s.interactive.accepted|
    ensures Apply(t, s, Pop).pc.Checking? && Apply(t, s, Pop).pc.job.priority.Interactive?
    ensures Taken(Apply(t, s, Pop)) == Taken(s) + 1
  {
    assert QueueOf(s.q, Interactive)[0].priority == Interactive;
  }

  /** What one step can hand to the engine while interactive job `id` waits. */
  function BatchBudget(s: State): nat {
    if s.pc.Checking? && s.pc.job.priority.Batch? then BATCH_CHUNK else 0
  }

  function InteractiveBudget(s: State, id: nat): int {
    id - Taken(s) + if s.pc.Checking? && s.pc.job.priority.Interactive? then 1 else 0
  }

  lemma WaitStep(t: Translator, s: State, e: Event, id: nat)
    requires Inv(t, s) && Enabled(s, e)
    requires id < |s.interactive.accepted| && Taken(s) <= id && Taken(Apply(t, s, e)) <= id
    ensures var s' := Apply(t, s, e);
      && (if e.Check? && s'.pc.Awaiting? && s.pc.job.priority.Batch? then |s'.pc.chunk| else 0) + BatchBudget(s')
           <= BatchBudget(s)
      && (if e.Check? && s'.pc.Awaiting? && s.pc.job.priority.Interactive? then 1 else 0) + InteractiveBudget(s', id)
           <= InteractiveBudget(s, id)
  {
    TakenGrows(t, s, e);
    if e.Pop? {
      InteractiveFirst(t, s, id);
    }
  }

  /**
    While an accepted interactive job waits in the queue, the engine is handed at most one
    more batch chunk of 16 segments, and then only one that was already taken from the queue,
    plus the interactive jobs before it.
   */
  lemma {:induction false} InteractiveWait(t: Translator, s: State, events: seq<Event>, id: nat)
    requires Inv(t, s) && Run(t, s, events).Some?
    requires id < |s.interactive.accepted| && Taken(Run(t, s, events).value) <= id
    ensures BatchSegments(t, s, events) <= BatchBudget(s) <= BATCH_CHUNK
    ensures InteractiveCalls(t, s, events) <= InteractiveBudget(s, id)
    decreases |events|
  {
    TakenGrowsOverRun(t, s, events);
    if |events| > 0 {
      var e, s' := events[0], Apply(t, s, events[0]);
      StepKeepsInv(t, s, e);
      TakenGrows(t, s, e);
      TakenGrowsOverRun(t, s', events[1..]);
      WaitStep(t, s, e, id);
      InteractiveWait(t, s', events[1..], id);
    }
  }

  // ----- Cancel flags

  /** Job `id` of class `p` waits in the queue, for the first time or between two chunks. */
  predicate Queued(s: State, p: Priority, id: nat) {
    |LedgerOf(s, p).replies| + HandCount(s.pc, p) <= id < |LedgerOf(s, p).accepted|
  }

  /** A flagged job that can only end as cancelled. */
  predicate Doomed(s: State, p: Priority, id: nat) {
    && JobName(p, id) in s.flags
    && var replies := LedgerOf(s, p).replies;
    && id < |LedgerOf(s, p).accepted|
    && (id < |replies| ==> replies[id].outcome == Failed(Cancelled))
    && (id == |replies| && HandCount(s.pc, p) == 1 ==>
          || s.pc.Checking?
          || (s.pc.Accounting? && s.pc.outcome == Failed(Cancelled))
          || (s.pc.Answering? && s.pc.outcome == Failed(Cancelled)))
  }

  lemma DoomedOnAnswer(t: Translator, s: State, e: Event, p: Priority, id: nat)
    requires Inv(t, s) && Doomed(s, p, id) && Enabled(s, e) && (e.Answer? || e.TakeLeftovers? || e.AnswerLeftover?)
    ensures Doomed(Apply(t, s, e), p, id)
  {
  }

  lemma DoomedOnQueue(t: Translator, s: State, e: Event, p: Priority, id: nat)
    requires Inv(t, s) && Doomed(s, p, id) && Enabled(s, e) && (e.Pop? || e.Requeue?)
    ensures Doomed(Apply(t, s, e), p, id)
  {
    assert LedgerOf(Apply(t, s, e), p) == LedgerOf(s, p);
  }

  lemma DoomedOnProgress(t: Translator, s: State, e: Event, p: Priority, id: nat)
    requires InOrder(s, p) && Doomed(s, p, id) && Enabled(s, e) && (e.Check? || e.Receive? || e.Account?)
    ensures Doomed(Apply(t, s, e), p, id)
  {
    var s' := Apply(t, s, e);
    assert LedgerOf(s', p) == LedgerOf(s, p);
    assert InHand(s'.pc).value.priority == InHand(s.pc).value.priority;
    assert InHand(s'.pc).value.id == InHand(s.pc).value.id;
  }

  lemma DoomedUntouched(t: Translator, s: State, e: Event, p: Priority, id: nat)
    requires Inv(t, s) && Doomed(s, p, id) && Enabled(s, e)
    requires !e.Answer? && !e.TakeLeftovers? && !e.AnswerLeftover?
    requires !e.Pop? && !e.Check? && !e.Receive? && !e.Requeue? && !e.Account?
    ensures Doomed(Apply(t, s, e), p, id)
  {
    var s' := Apply(t, s, e);
    assert LedgerOf(s', p).replies == LedgerOf(s, p).replies;
    assert InHand(s'.pc) == InHand(s.pc);
  }

  lemma DoomedStays(t: Translator, s: State, e: Event, p: Priority, id: nat)
    requires Inv(t, s) && Doomed(s, p, id) && Enabled(s, e)
    ensures Doomed(Apply(t, s, e), p, id)
  {
    if e.Answer? || e.TakeLeftovers? || e.AnswerLeftover? {
      DoomedOnAnswer(t, s, e, p, id);
    } else if e.Pop? || e.Requeue? {
      DoomedOnQueue(t, s, e, p, id);
    } else if e.Check? || e.Receive? || e.Account? {
      DoomedOnProgress(t, s, e, p, id);
    } else {
      DoomedUntouched(t, s, e, p, id);
    }
  }

  lemma {:induction false} DoomedOverRun(t: Translator, s: State, events: seq<Event>, p: Priority, id: nat)
    requires Inv(t, s) && Doomed(s, p, id) && Run(t, s, events).Some?
    ensures Doomed(Run(t, s, events).value, p, id)
    decreases |events|
  {
    if |events| > 0 {
      StepKeepsInv(t, s, events[0]);
      DoomedStays(t, s, events[0], p, id);
      DoomedOverRun(t, Apply(t, s, events[0]), events[1..], p, id);
    }
  }

  /**
    A flag raised while its job is queued, be it between two chunks, is honoured: whatever
    happens from there on, if the job is answered at all it is answered as cancelled.
   */
  lemma FlagWins(t: Translator, s: State, events: seq<Event>, p: Priority, id: nat)
    requires Reachable(t, s) && Queued(s, p, id) && JobName(p, id) in s.flags
    requires Run(t, s, events).Some? && id < |LedgerOf(Run(t, s, events).value, p).replies|
    ensures LedgerOf(Run(t, s, events).value, p).replies[id].outcome == Failed(Cancelled)
  {
    ReachableHasInv(t, s);
    DoomedOverRun(t, s, events, p, id);
  }

  // ----- Errors and their causes

  /** The step is the engine failing in a call for job `id` of class `p`. */
  predicate FailsFor(s: State, e: Event, job: JobName) {
    e == Serve(false) && s.pc.Awaiting? && JobName(s.pc.job.priority, s.pc.job.id) == job
  }

  /** The engine failed in a call for the job somewhere in the run. */
  predicate FailedIn(t: Translator, s: State, events: seq<Event>, job: JobName)
    decreases |events|
  {
    && |events| > 0 && Enabled(s, events[0])
    && (FailsFor(s, events[0], job) || FailedIn(t, Apply(t, s, events[0]), events[1..], job))
  }

  /** The job's flag was raised somewhere in the run. */
  predicate FlaggedIn(events: seq<Event>, job: JobName) {
    RaiseFlag(job) in events
  }

  /** What the machine has on record against a job: raised flags, failed calls, and a failure not yet received. */
  predicate OnRecord(s: State, job: JobName) {
    job in s.faults || (s.pc.Awaiting? && s.link.answer == Some(Failure) && JobName(s.pc.job.priority, s.pc.job.id) == job)
  }

  lemma RecordHasCause(t: Translator, s: State, e: Event, job: JobName)
    requires EngineInStep(t, s) && Enabled(s, e)
    ensures OnRecord(Apply(t, s, e), job) ==> OnRecord(s, job) || FailsFor(s, e, job)
    ensures job in Apply(t, s, e).flags ==> job in s.flags || e == RaiseFlag(job)
  {
    var s' := Apply(t, s, e);
    if e.Receive? {
      assert OnRecord(s', job) ==> OnRecord(s, job);
    } else {
      assert s'.faults == s.faults;
    }
  }

  lemma {:induction false} RecordsHaveCauses(t: Translator, s: State, events: seq<Event>, job: JobName)
    requires Inv(t, s) && Run(t, s, events).Some?
    ensures OnRecord(Run(t, s, events).value, job) ==> OnRecord(s, job) || FailedIn(t, s, events, job)
    ensures job in Run(t, s, events).value.flags ==> job in s.flags || FlaggedIn(events, job)
    decreases |events|
  {
    if |events| > 0 {
      var e, s' := events[0], Apply(t, s, events[0]);
      RecordHasCause(t, s, e, job);
      StepKeepsInv(t, s, e);
      RecordsHaveCauses(t, s', events[1..], job);
      assert RaiseFlag(job) in events[1..] ==> RaiseFlag(job) in events;
    }
  }

  /**
    An error has its cause in the run: a job is answered "engine failed" only if the engine failed
    in a call made for it, and "cancelled" only if its flag was raised.
   */
  lemma ErrorsHaveCauses(t: Translator, loader: nat, events: seq<Event>, p: Priority, i: nat)
    requires Run(t, Fresh(loader), events).Some?
    requires i < |LedgerOf(Run(t, Fresh(loader), events).value, p).replies|
    ensures var outcome := LedgerOf(Run(t, Fresh(loader), events).value, p).replies[i].outcome;
      && (outcome == Failed(EngineFailed) ==> FailedIn(t, Fresh(loader), events, JobName(p, i)))
      && (outcome == Failed(Cancelled) ==> FlaggedIn(events, JobName(p, i)))
  {
    var s := Run(t, Fresh(loader), events).value;
    assert Reachable(t, s);
    AnsweredOnceInOrder(t, s, p, i);
    FreshHolds(t, loader);
    RecordsHaveCauses(t, Fresh(loader), events, JobName(p, i));
  }

  lemma {:induction false} NoFailureIn(t: Translator, s: State, events: seq<Event>, job: JobName)
    requires Serve(false) !in events
    ensures !FailedIn(t, s, events, job)
    decreases |events|
  {
    if |events| > 0 && Enabled(s, events[0]) {
      assert events[0] in events;
      NoFailureIn(t, Apply(t, s, events[0]), events[1..], job);
    }
  }

  /** Where no call fails and no flag is raised, every answer is the translation of the whole job. */
  lemma FairWeather(t: Translator, loader: nat, events: seq<Event>, p: Priority, i: nat)
    requires Run(t, Fresh(loader), events).Some?
    requires Serve(false) !in events && RaiseFlag(JobName(p, i)) !in events
    requires i < |LedgerOf(Run(t, Fresh(loader), events).value, p).replies|
    ensures var l := LedgerOf(Run(t, Fresh(loader), events).value, p);
      && i < |l.accepted|
      && l.replies[i] == Reply(i, Translated(Each(t, l.accepted[i].html, l.accepted[i].remaining)))
  {
    var s := Run(t, Fresh(loader), events).value;
    assert Reachable(t, s);
    AnsweredOnceInOrder(t, s, p, i);
    ErrorsHaveCauses(t, loader, events, p, i);
    NoFailureIn(t, Fresh(loader), events, JobName(p, i));
  }

  // ----- A failed call decides

  /** A job whose call has failed can only be answered so. */
  predicate Broken(s: State, p: Priority, id: nat) {
    var replies := LedgerOf(s, p).replies;
    && id < |replies| + HandCount(s.pc, p)
    && (id < |replies| ==> replies[id].outcome == Failed(EngineFailed))
    && (id >= |replies| ==>
          || (s.pc.Awaiting? && s.link.answer == Some(Failure))
          || (s.pc.Accounting? && s.pc.outcome == Failed(EngineFailed))
          || (s.pc.Answering? && s.pc.outcome == Failed(EngineFailed)))
  }

  lemma BrokenInHand(t: Translator, s: State, e: Event, p: Priority, id: nat)
    requires Inv(t, s) && Broken(s, p, id) && Enabled(s, e)
    requires e.Answer? || e.Receive? || e.Account? || e.Check? || e.Requeue?
    ensures Broken(Apply(t, s, e), p, id)
  {
  }

  lemma BrokenOtherwise(t: Translator, s: State, e: Event, p: Priority, id: nat)
    requires Inv(t, s) && Broken(s, p, id) && Enabled(s, e)
    requires !e.Answer? && !e.Receive? && !e.Account? && !e.Check? && !e.Requeue?
    ensures Broken(Apply(t, s, e), p, id)
  {
    assert LedgerOf(s, p).replies <= LedgerOf(Apply(t, s, e), p).replies;
  }

  lemma {:induction false} BrokenOverRun(t: Translator, s: State, events: seq<Event>, p: Priority, id: nat)
    requires Inv(t, s) && Broken(s, p, id) && Run(t, s, events).Some?
    ensures Broken(Run(t, s, events).value, p, id)
    decreases |events|
  {
    if |events| > 0 {
      var e := events[0];
      StepKeepsInv(t, s, e);
      if e.Answer? || e.Receive? || e.Account? || e.Check? || e.Requeue? {
        BrokenInHand(t, s, e, p, id);
      } else {
        BrokenOtherwise(t, s, e, p, id);
      }
      BrokenOverRun(t, Apply(t, s, e), events[1..], p, id);
    }
  }

  /** A call that fails decides its job: whatever happens from there on, its only possible answer is "engine failed". */
  lemma FailureDecides(t: Translator, s: State, events: seq<Event>, job: JobName)
    requires Reachable(t, s) && |events| > 0 && FailsFor(s, events[0], job) && Run(t, s, events).Some?
    requires job.id < |LedgerOf(Run(t, s, events).value, job.priority).replies|
    ensures LedgerOf(Run(t, s, events).value, job.priority).replies[job.id].outcome == Failed(EngineFailed)
  {
    ReachableHasInv(t, s);
    StepKeepsInv(t, s, events[0]);
    assert Broken(Apply(t, s, events[0]), job.priority, job.id);
    BrokenOverRun(t, Apply(t, s, events[0]), events[1..], job.priority, job.id);
  }
}
