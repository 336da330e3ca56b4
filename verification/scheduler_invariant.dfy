/** Every step of every party keeps the scheduler invariant, so every reachable state has it. */
module SchedulerInvariant {
  import opened Engine
  import opened Options
  import opened Scheduler

  lemma FreshHolds(t: Translator, loader: nat)
    ensures Inv(t, Fresh(loader))
  {
  }

  // ----- Conservation and order

  lemma InOrderOnSubmit(s: State, h: nat, segments: seq<string>, html: bool, priority: Priority, p: Priority)
    requires InOrder(s, p)
    ensures InOrder(Submitted(s, h, segments, html, priority), p)
  {
    if !s.q.closed && priority == p {
      var s' := Submitted(s, h, segments, html, priority);
      assert QueueOf(s'.q, p) == QueueOf(s.q, p) + [LedgerOf(s', p).accepted[|LedgerOf(s, p).accepted|]];
      assert LedgerOf(s', p).replies == LedgerOf(s, p).replies;
    }
  }

  lemma InOrderOnPop(t: Translator, s: State, p: Priority)
    requires InOrder(s, Interactive) && InOrder(s, Batch) && Enabled(s, Pop)
    ensures InOrder(Apply(t, s, Pop), p)
  {
    if |s.q.interactive| > 0 {
      assert QueueOf(s.q, Interactive)[0].priority == Interactive;
    } else if |s.q.batch| > 0 {
      assert QueueOf(s.q, Batch)[0].priority == Batch;
    }
  }

  lemma InOrderOnRequeue(t: Translator, s: State, p: Priority)
    requires InOrder(s, p) && HandOnCourse(t, s) && Enabled(s, Requeue)
    ensures InOrder(Apply(t, s, Requeue), p)
  {
  }

  lemma InOrderOnAnswer(t: Translator, s: State, p: Priority)
    requires InOrder(s, p) && Enabled(s, Answer)
    ensures InOrder(Apply(t, s, Answer), p)
  {
  }

  lemma InOrderOnExit(t: Translator, s: State, e: Event, p: Priority)
    requires InOrder(s, p) && CleanExit(s) && Enabled(s, e) && (e.TakeLeftovers? || e.AnswerLeftover?)
    ensures InOrder(Apply(t, s, e), p)
  {
  }

  lemma InOrderOnProgress(t: Translator, s: State, e: Event, p: Priority)
    requires InOrder(s, p) && Enabled(s, e) && (e.Check? || e.Receive? || e.Account?)
    ensures InOrder(Apply(t, s, e), p)
  {
    var s' := Apply(t, s, e);
    assert InHand(s'.pc).value.priority == InHand(s.pc).value.priority;
    assert InHand(s'.pc).value.id == InHand(s.pc).value.id;
    assert s'.q == s.q;
  }

  /** Steps that touch no job at all. */
  lemma InOrderUntouched(t: Translator, s: State, e: Event, p: Priority)
    requires InOrder(s, p) && Enabled(s, e)
    requires !e.Submit? && !e.Pop? && !e.Requeue? && !e.Answer? && !e.TakeLeftovers? && !e.AnswerLeftover?
    requires !e.Check? && !e.Receive? && !e.Account?
    ensures InOrder(Apply(t, s, e), p)
  {
    assert HandCount(Apply(t, s, e).pc, p) == HandCount(s.pc, p);
  }

  lemma InOrderKept(t: Translator, s: State, e: Event, p: Priority)
    requires InOrder(s, Interactive) && InOrder(s, Batch) && CleanExit(s) && HandOnCourse(t, s) && Enabled(s, e)
    ensures InOrder(Apply(t, s, e), p)
  {
    assert InOrder(s, p);
    match e
    case Submit(h, segments, html, priority) => InOrderOnSubmit(s, h, segments, html, priority, p);
    case Pop => InOrderOnPop(t, s, p);
    case Requeue => InOrderOnRequeue(t, s, p);
    case Answer => InOrderOnAnswer(t, s, p);
    case TakeLeftovers => InOrderOnExit(t, s, e, p);
    case AnswerLeftover => InOrderOnExit(t, s, e, p);
    case Check => InOrderOnProgress(t, s, e, p);
    case Receive => InOrderOnProgress(t, s, e, p);
    case Account => InOrderOnProgress(t, s, e, p);
    case _ => InOrderUntouched(t, s, e, p);
  }

  // ----- Counting, handles, exit, engine and wakeup

  lemma CountedKept(t: Translator, s: State, e: Event)
    requires Counted(s) && CleanExit(s) && Enabled(s, e)
    ensures Counted(Apply(t, s, e))
  {
  }

  lemma HeldKept(t: Translator, s: State, e: Event)
    requires Held(s) && Enabled(s, e)
    ensures Held(Apply(t, s, e))
  {
  }

  lemma CleanExitKept(t: Translator, s: State, e: Event)
    requires CleanExit(s) && Held(s) && Enabled(s, e)
    ensures CleanExit(Apply(t, s, e))
  {
  }

  lemma EngineInStepKept(t: Translator, s: State, e: Event)
    requires EngineInStep(t, s) && Enabled(s, e)
    ensures EngineInStep(t, Apply(t, s, e))
  {
  }

  lemma WakeupKept(t: Translator, s: State, e: Event)
    requires WakeupComing(s) && NoIdlePermit(s) && Enabled(s, e)
    ensures WakeupComing(Apply(t, s, e)) && NoIdlePermit(Apply(t, s, e))
  {
  }

  // ----- What the jobs carry

  /** Growing the books of a class takes nothing away from a job's promise. */
  lemma OnCourseGrows(t: Translator, l: Ledger, l': Ledger, job: Job, rest: seq<string>)
    requires OnCourse(t, l, job, rest) && l.accepted <= l'.accepted
    ensures OnCourse(t, l', job, rest)
  {
  }

  predicate Grows(s: State, s': State) {
    && s.interactive.accepted <= s'.interactive.accepted
    && s.batch.accepted <= s'.batch.accepted
    && s.flags <= s'.flags && s.faults <= s'.faults
  }

  lemma StepGrows(t: Translator, s: State, e: Event)
    requires Enabled(s, e)
    ensures Grows(s, Apply(t, s, e))
  {
  }

  lemma JustifiedGrows(t: Translator, s: State, s': State, p: Priority, reply: Reply)
    requires Justified(t, s, p, reply) && Grows(s, s')
    ensures Justified(t, s', p, reply)
  {
  }

  lemma NewJobOnCourse(t: Translator, l: Ledger, job: Job)
    requires job.id < |l.accepted| && l.accepted[job.id] == job && |job.done| == 0
    ensures OnCourse(t, l, job, job.remaining)
  {
    assert job.done + Each(t, job.html, job.remaining) == Each(t, job.html, job.remaining);
  }

  lemma QueueOnSubmit(t: Translator, s: State, h: nat, segments: seq<string>, html: bool, priority: Priority, p: Priority)
    requires QueueOnCourse(t, s, p)
    ensures QueueOnCourse(t, Submitted(s, h, segments, html, priority), p)
  {
    var s' := Submitted(s, h, segments, html, priority);
    forall job | job in QueueOf(s'.q, p)
      ensures OnCourse(t, LedgerOf(s', p), job, job.remaining)
    {
      if job in QueueOf(s.q, p) {
        OnCourseGrows(t, LedgerOf(s, p), LedgerOf(s', p), job, job.remaining);
      } else {
        NewJobOnCourse(t, LedgerOf(s', p), job);
      }
    }
  }

  lemma QueueOnRequeue(t: Translator, s: State, p: Priority)
    requires QueueOnCourse(t, s, p) && HandOnCourse(t, s) && Enabled(s, Requeue)
    ensures QueueOnCourse(t, Apply(t, s, Requeue), p)
  {
  }

  lemma QueueOnOther(t: Translator, s: State, e: Event, p: Priority)
    requires QueueOnCourse(t, s, p) && Enabled(s, e) && !e.Submit? && !e.Requeue?
    ensures QueueOnCourse(t, Apply(t, s, e), p)
  {
    var s' := Apply(t, s, e);
    assert LedgerOf(s', p).accepted == LedgerOf(s, p).accepted;
  }

  lemma QueueOnCourseKept(t: Translator, s: State, e: Event, p: Priority)
    requires QueueOnCourse(t, s, p) && HandOnCourse(t, s) && Enabled(s, e)
    ensures QueueOnCourse(t, Apply(t, s, e), p)
  {
    match e
    case Submit(h, segments, html, priority) => QueueOnSubmit(t, s, h, segments, html, priority, p);
    case Requeue => QueueOnRequeue(t, s, p);
    case _ => QueueOnOther(t, s, e, p);
  }

  /** The chunk leaves the job's remaining segments and is translated on its own. */
  lemma HandOnCheck(t: Translator, s: State)
    requires HandOnCourse(t, s) && Enabled(s, Check)
    ensures HandOnCourse(t, Apply(t, s, Check))
  {
    var job := s.pc.job;
    var n := ChunkSize(job);
    assert job.remaining[..n] + job.remaining[n..] == job.remaining;
  }

  lemma HandOnReceive(t: Translator, s: State)
    requires HandOnCourse(t, s) && EngineInStep(t, s) && Enabled(s, Receive)
    ensures HandOnCourse(t, Apply(t, s, Receive))
  {
    var job, chunk := s.pc.job, s.pc.chunk;
    if s.link.answer.value.Output? {
      var before, now, later := job.done, Each(t, job.html, chunk), Each(t, job.html, job.remaining);
      EachSplits(t, job.html, chunk, job.remaining);
      assert before + (now + later) == before + now + later;
      assert |job.remaining| == 0 ==> before + now + later == before + now;
    }
  }

  lemma HandOnPop(t: Translator, s: State)
    requires InOrder(s, Interactive) && InOrder(s, Batch)
    requires QueueOnCourse(t, s, Interactive) && QueueOnCourse(t, s, Batch) && Enabled(s, Pop)
    ensures HandOnCourse(t, Apply(t, s, Pop))
  {
    if |s.q.interactive| > 0 {
      assert s.q.interactive[0] == QueueOf(s.q, Interactive)[0];
    } else if |s.q.batch| > 0 {
      assert s.q.batch[0] == QueueOf(s.q, Batch)[0];
    }
  }

  lemma HandStays(t: Translator, s: State, s': State)
    requires HandOnCourse(t, s) && Grows(s, s') && s'.pc == s.pc
    ensures HandOnCourse(t, s')
  {
    match s.pc
    case Checking(job) => OnCourseGrows(t, LedgerOf(s, job.priority), LedgerOf(s', job.priority), job, job.remaining);
    case Awaiting(job, chunk) =>
      OnCourseGrows(t, LedgerOf(s, job.priority), LedgerOf(s', job.priority), job, chunk + job.remaining);
    case Requeueing(job) =>
      OnCourseGrows(t, LedgerOf(s, job.priority), LedgerOf(s', job.priority), job, job.remaining);
    case Accounting(job, outcome) => JustifiedGrows(t, s, s', job.priority, Reply(job.id, outcome));
    case Answering(job, outcome) => JustifiedGrows(t, s, s', job.priority, Reply(job.id, outcome));
    case _ =>
  }

  lemma HandOnOther(t: Translator, s: State, e: Event)
    requires HandOnCourse(t, s) && Enabled(s, e) && !e.Check? && !e.Receive? && !e.Pop?
    ensures HandOnCourse(t, Apply(t, s, e))
  {
    var s' := Apply(t, s, e);
    StepGrows(t, s, e);
    if InHand(s'.pc).Some? && !e.Account? {
      HandStays(t, s, s');
    }
  }

  lemma HandOnCourseKept(t: Translator, s: State, e: Event)
    requires Inv(t, s) && Enabled(s, e)
    ensures HandOnCourse(t, Apply(t, s, e))
  {
    match e
    case Check => HandOnCheck(t, s);
    case Receive => HandOnReceive(t, s);
    case Pop => HandOnPop(t, s);
    case _ => HandOnOther(t, s, e);
  }

  lemma RepliesKept(t: Translator, s: State, e: Event, p: Priority)
    requires RepliesJustified(t, s, p) && HandOnCourse(t, s) && CleanExit(s) && Enabled(s, e)
    ensures RepliesJustified(t, Apply(t, s, e), p)
  {
    StepGrows(t, s, e);
    var s' := Apply(t, s, e);
    forall i | 0 <= i < |LedgerOf(s', p).replies|
      ensures Justified(t, s', p, LedgerOf(s', p).replies[i])
    {
      if i < |LedgerOf(s, p).replies| {
        JustifiedGrows(t, s, s', p, LedgerOf(s, p).replies[i]);
      }
    }
  }

  // ----- Whole runs

  lemma StepKeepsInv(t: Translator, s: State, e: Event)
    requires Inv(t, s) && Enabled(s, e)
    ensures Inv(t, Apply(t, s, e))
  {
    InOrderKept(t, s, e, Interactive);
    InOrderKept(t, s, e, Batch);
    QueueOnCourseKept(t, s, e, Interactive);
    QueueOnCourseKept(t, s, e, Batch);
    HandOnCourseKept(t, s, e);
    RepliesKept(t, s, e, Interactive);
    RepliesKept(t, s, e, Batch);
    CountedKept(t, s, e);
    HeldKept(t, s, e);
    CleanExitKept(t, s, e);
    EngineInStepKept(t, s, e);
    WakeupKept(t, s, e);
  }

  lemma {:induction false} RunKeepsInv(t: Translator, s: State, events: seq<Event>)
    requires Inv(t, s) && Run(t, s, events).Some?
    ensures Inv(t, Run(t, s, events).value)
    decreases |events|
  {
    if |events| > 0 {
      StepKeepsInv(t, s, events[0]);
      RunKeepsInv(t, Apply(t, s, events[0]), events[1..]);
    }
  }

  /** `s` can come about on a freshly loaded route. */
  ghost predicate Reachable(t: Translator, s: State) {
    exists loader: nat, events: seq<Event> :: Run(t, Fresh(loader), events) == Some(s)
  }

  lemma ReachableHasInv(t: Translator, s: State)
    requires Reachable(t, s)
    ensures Inv(t, s)
  {
    var loader: nat, events: seq<Event> :| Run(t, Fresh(loader), events) == Some(s);
    FreshHolds(t, loader);
    RunKeepsInv(t, Fresh(loader), events);
  }
}
