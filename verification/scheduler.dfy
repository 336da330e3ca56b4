/**
  One loaded route as a step machine. Its parties are the clients that hold a handle, the
  registry (which holds one more), the scheduler task, the engine thread and an environment
  that may raise cancel flags. Each event below is one atomic action of one party, so a list
  of events is an interleaving.
 */
module Scheduler {
  import opened Engine
  import opened Options

  /** Batch jobs go to the engine at most this many segments at a time. */
  const BATCH_CHUNK: nat := 16

  /** The registry is a holder like any other; evicting the route drops its handle. */
  const REGISTRY: nat := 0

  datatype Priority = Interactive | Batch

  datatype JobError = Cancelled | EngineFailed

  datatype Outcome = Translated(translations: seq<Translation>) | Failed(error: JobError)

  /** `id` stands for the reply channel: the place of the job among those accepted in its class. */
  datatype Job = Job(id: nat, remaining: seq<string>, done: seq<Translation>, html: bool, priority: Priority)

  datatype Reply = Reply(id: nat, outcome: Outcome)

  /** What the queue lock guards. */
  datatype Queues = Queues(interactive: seq<Job>, batch: seq<Job>, closed: bool)

  predicate Empty(q: Queues) {
    |q.interactive| == 0 && |q.batch| == 0
  }

  function QueueOf(q: Queues, p: Priority): seq<Job> {
    if p.Interactive? then q.interactive else q.batch
  }

  /** The job goes to the back of the queue of its class. */
  function PushBack(q: Queues, job: Job): Queues {
    if job.priority.Interactive? then q.(interactive := q.interactive + [job])
    else q.(batch := q.batch + [job])
  }

  /** A batch job with work left goes back to the front, behind any interactive arrivals. */
  function PushFront(q: Queues, job: Job): Queues {
    q.(batch := [job] + q.batch)
  }

  /** The next job: the oldest interactive one, else the batch job in front. */
  function Front(q: Queues): Job
    requires !Empty(q)
  {
    if |q.interactive| > 0 then q.interactive[0] else q.batch[0]
  }

  function PopFront(q: Queues): Queues
    requires !Empty(q)
  {
    if |q.interactive| > 0 then q.(interactive := q.interactive[1..]) else q.(batch := q.batch[1..])
  }

  /** How many of the remaining segments the next engine call takes. */
  function ChunkSize(job: Job): (n: nat)
    ensures n <= |job.remaining|
    ensures job.priority.Batch? ==> n <= 16
    ensures n < |job.remaining| ==> job.priority.Batch? && n == 16
  {
    if job.priority.Batch? && |job.remaining| > BATCH_CHUNK then BATCH_CHUNK else |job.remaining|
  }

  /** Where the scheduler task stands. */
  datatype Pc =
    | Top                                        // about to lock the queue
    | Enter                                      // found it empty, about to poll the wakeup
    | Parked(woken: bool)                        // registered as waiter
    | Checking(job: Job)                         // about to read the job's cancel flag
    | Awaiting(job: Job, chunk: seq<string>)     // the chunk is with the engine
    | Requeueing(job: Job)                       // about to put the job back in front
    | Accounting(job: Job, outcome: Outcome)     // about to decrement `active`
    | Answering(job: Job, outcome: Outcome)      // about to send the reply
    | Leaving                                    // left the loop
    | Leftover(jobs: seq<Job>)                   // answering what was left behind
    | Exited                                     // the worker handle is dropped

  /** What happened so far in one class: the jobs accepted, as submitted, and the replies sent. */
  datatype Ledger = Ledger(accepted: seq<Job>, replies: seq<Reply>)

  datatype Call = Call(segments: seq<string>, html: bool)

  datatype EngineAnswer = Output(translations: seq<Translation>) | Failure

  /** The channel to the engine thread, its pending answer, and whether the thread runs. */
  datatype EngineLink = EngineLink(inbox: seq<Call>, answer: Option<EngineAnswer>, up: bool)

  datatype JobName = JobName(priority: Priority, id: nat)

  datatype State = State(
    q: Queues,
    active: int,
    permit: bool,
    pc: Pc,
    link: EngineLink,
    holders: set<nat>,          // live handles
    notifying: set<nat>,        // holders between their push and their notify
    closing: bool,              // the last drop is between its close and its notify
    flags: set<JobName>,        // jobs whose cancel flag is raised
    faults: set<JobName>,       // jobs for which an engine call failed
    rejected: nat,              // submits refused
    interactive: Ledger,
    batch: Ledger)

  datatype Event =
    | Acquire(h: nat)
    | Submit(h: nat, segments: seq<string>, html: bool, priority: Priority)
    | NotifySubmitted(h: nat)
    | DropHandle(h: nat)
    | NotifyClosed
    | RaiseFlag(job: JobName)
    | Pop
    | Poll
    | Wake
    | Check
    | Serve(ok: bool)
    | Receive
    | Requeue
    | Account
    | Answer
    | TakeLeftovers
    | AnswerLeftover
    | StopEngine

  function LedgerOf(s: State, p: Priority): Ledger {
    if p.Interactive? then s.interactive else s.batch
  }

  function WithLedger(s: State, p: Priority, l: Ledger): State {
    if p.Interactive? then s.(interactive := l) else s.(batch := l)
  }

  /** A freshly loaded route: the registry and the loader each hold a handle. */
  function Fresh(loader: nat): State {
    State(Queues([], [], false), 0, false, Top, EngineLink([], None, true),
          {REGISTRY, loader}, {}, false, {}, {}, 0, Ledger([], []), Ledger([], []))
  }

  /** `notify_one`: wakes the waiter if there is one, else leaves a permit. */
  function Notified(s: State): State {
    if s.pc.Parked? && !s.pc.woken then s.(pc := Parked(true)) else s.(permit := true)
  }

  /** The locked half of `submit`. */
  function Submitted(s: State, h: nat, segments: seq<string>, html: bool, priority: Priority): State {
    if s.q.closed then
      s.(rejected := s.rejected + 1)
    else
      var l := LedgerOf(s, priority);
      var job := Job(|l.accepted|, segments, [], html, priority);
      WithLedger(s, priority, l.(accepted := l.accepted + [job]))
        .(q := PushBack(s.q, job), active := s.active + 1, notifying := s.notifying + {h})
  }

  /** Dropping a handle; the last one closes the queue. */
  function Dropped(s: State, h: nat): State {
    if s.holders - {h} == {} then
      s.(holders := {}, q := s.q.(closed := true), closing := true)
    else
      s.(holders := s.holders - {h})
  }

  function Popped(s: State): State {
    if !Empty(s.q) then s.(q := PopFront(s.q), pc := Checking(Front(s.q)))
    else if s.q.closed then s.(pc := Leaving)
    else s.(pc := Enter)
  }

  /** A job with a raised flag is given up; any other sends its next chunk to the engine. */
  function Checked(s: State, job: Job): State {
    if JobName(job.priority, job.id) in s.flags then
      s.(pc := Accounting(job, Failed(Cancelled)))
    else
      var n := ChunkSize(job);
      s.(pc := Awaiting(job.(remaining := job.remaining[n..]), job.remaining[..n]),
         link := s.link.(inbox := s.link.inbox + [Call(job.remaining[..n], job.html)]))
  }

  /** The engine thread takes one call and answers it. */
  function Served(t: Translator, link: EngineLink, ok: bool): EngineLink
    requires |link.inbox| > 0
  {
    var call := link.inbox[0];
    link.(inbox := link.inbox[1..],
          answer := Some(if ok then Output(Each(t, call.html, call.segments)) else Failure))
  }

  function Received(s: State, job: Job, answer: EngineAnswer): State {
    var link := s.link.(answer := None);
    match answer
    case Failure =>
      s.(link := link, pc := Accounting(job, Failed(EngineFailed)),
         faults := s.faults + {JobName(job.priority, job.id)})
    case Output(translations) =>
      var done := job.done + translations;
      s.(link := link,
         pc := if |job.remaining| == 0 then Accounting(job, Translated(done)) else Requeueing(job.(done := done)))
  }

  function Send(s: State, job: Job, outcome: Outcome): State {
    var l := LedgerOf(s, job.priority);
    WithLedger(s, job.priority, l.(replies := l.replies + [Reply(job.id, outcome)]))
  }

  /** Whether the party in question can take the step. */
  predicate Enabled(s: State, e: Event) {
    match e
    case Acquire(h) => REGISTRY in s.holders && h !in s.holders
    case Submit(h, _, _, _) => h in s.holders && h !in s.notifying
    case NotifySubmitted(h) => h in s.notifying
    case DropHandle(h) => h in s.holders && h !in s.notifying
    case NotifyClosed => s.closing
    case RaiseFlag(_) => true
    case Pop => s.pc.Top?
    case Poll => s.pc.Enter?
    case Wake => s.pc.Parked? && s.pc.woken
    case Check => s.pc.Checking?
    case Serve(_) => s.link.up && |s.link.inbox| > 0 && s.link.answer.None?
    case Receive => s.pc.Awaiting? && s.link.answer.Some?
    case Requeue => s.pc.Requeueing?
    case Account => s.pc.Accounting?
    case Answer => s.pc.Answering?
    case TakeLeftovers => s.pc.Leaving?
    case AnswerLeftover => s.pc.Leftover?
    case StopEngine => s.link.up && s.pc.Exited? && |s.link.inbox| == 0
  }

  function Apply(t: Translator, s: State, e: Event): State
    requires Enabled(s, e)
  {
    match e
    case Acquire(h) => s.(holders := s.holders + {h})
    case Submit(h, segments, html, priority) => Submitted(s, h, segments, html, priority)
    case NotifySubmitted(h) => Notified(s.(notifying := s.notifying - {h}))
    case DropHandle(h) => Dropped(s, h)
    case NotifyClosed => Notified(s.(closing := false))
    case RaiseFlag(job) => s.(flags := s.flags + {job})
    case Pop => Popped(s)
    case Poll => if s.permit then s.(permit := false, pc := Top) else s.(pc := Parked(false))
    case Wake => s.(pc := Top)
    case Check => Checked(s, s.pc.job)
    case Serve(ok) => s.(link := Served(t, s.link, ok))
    case Receive => Received(s, s.pc.job, s.link.answer.value)
    case Requeue => s.(q := PushFront(s.q, s.pc.job), pc := Top)
    case Account => s.(active := s.active - 1, pc := Answering(s.pc.job, s.pc.outcome))
    case Answer => Send(s, s.pc.job, s.pc.outcome).(pc := Top)
    case TakeLeftovers =>
      s.(q := s.q.(interactive := [], batch := []), pc := Leftover(s.q.interactive + s.q.batch))
    case AnswerLeftover =>
      if |s.pc.jobs| == 0 then s.(pc := Exited)
      else
        Send(s, s.pc.jobs[0], Failed(Cancelled)).(active := s.active - 1, pc := Leftover(s.pc.jobs[1..]))
    case StopEngine => s.(link := s.link.(up := false))
  }

  /** The state after a whole interleaving, or None if some step of it is impossible. */
  function Run(t: Translator, s: State, events: seq<Event>): Option<State>
    decreases |events|
  {
    if |events| == 0 then Some(s)
    else if !Enabled(s, events[0]) then None
    else Run(t, Apply(t, s, events[0]), events[1..])
  }

  /** Steps that happen by themselves, without a client or the environment acting. */
  predicate Internal(e: Event) {
    !e.Acquire? && !e.Submit? && !e.DropHandle? && !e.RaiseFlag?
  }

  // ----- What every reachable state satisfies

  /** The job in the scheduler's hands. */
  function InHand(pc: Pc): Option<Job> {
    match pc
    case Checking(job) => Some(job)
    case Awaiting(job, _) => Some(job)
    case Requeueing(job) => Some(job)
    case Accounting(job, _) => Some(job)
    case Answering(job, _) => Some(job)
    case _ => None
  }

  /** Whether the job in hand, if any, belongs to class `p`. */
  function HandCount(pc: Pc, p: Priority): nat {
    if InHand(pc).Some? && InHand(pc).value.priority == p then 1 else 0
  }

  /**
    Conservation and order at once: the jobs accepted in a class are those answered, then
    the one in hand, then those queued, each in acceptance order and each exactly once.
   */
  predicate InOrder(s: State, p: Priority) {
    var l, queue := LedgerOf(s, p), QueueOf(s.q, p);
    && |l.accepted| == |l.replies| + HandCount(s.pc, p) + |queue|
    && (forall i :: 0 <= i < |l.accepted| ==> l.accepted[i].id == i && |l.accepted[i].done| == 0)
    && (forall i :: 0 <= i < |l.replies| ==> l.replies[i].id == i)
    && (HandCount(s.pc, p) == 1 ==> InHand(s.pc).value.id == |l.replies|)
    && (forall i :: 0 <= i < |queue| ==>
          queue[i].priority == p && queue[i].id == |l.replies| + HandCount(s.pc, p) + i)
  }

  /** A job that is still to translate `rest` will end with the translation of the whole job. */
  predicate OnCourse(t: Translator, l: Ledger, job: Job, rest: seq<string>) {
    && job.id < |l.accepted|
    && var origin := l.accepted[job.id];
    && job.html == origin.html
    && job.done + Each(t, job.html, rest) == Each(t, origin.html, origin.remaining)
  }

  /** A reply is the translation of the whole job, or an error with its cause. */
  predicate Justified(t: Translator, s: State, p: Priority, reply: Reply) {
    && reply.id < |LedgerOf(s, p).accepted|
    && var origin := LedgerOf(s, p).accepted[reply.id];
    match reply.outcome
    case Translated(translations) => translations == Each(t, origin.html, origin.remaining)
    case Failed(Cancelled) => JobName(p, reply.id) in s.flags
    case Failed(EngineFailed) => JobName(p, reply.id) in s.faults
  }

  predicate QueueOnCourse(t: Translator, s: State, p: Priority) {
    forall job :: job in QueueOf(s.q, p) ==> OnCourse(t, LedgerOf(s, p), job, job.remaining)
  }

  predicate HandOnCourse(t: Translator, s: State) {
    match s.pc
    case Checking(job) => OnCourse(t, LedgerOf(s, job.priority), job, job.remaining)
    case Awaiting(job, chunk) =>
      && OnCourse(t, LedgerOf(s, job.priority), job, chunk + job.remaining)
      && (job.priority.Interactive? ==> |job.remaining| == 0)
    case Requeueing(job) => OnCourse(t, LedgerOf(s, job.priority), job, job.remaining) && job.priority.Batch?
    case Accounting(job, outcome) => Justified(t, s, job.priority, Reply(job.id, outcome))
    case Answering(job, outcome) => Justified(t, s, job.priority, Reply(job.id, outcome))
    case _ => true
  }

  predicate RepliesJustified(t: Translator, s: State, p: Priority) {
    forall i :: 0 <= i < |LedgerOf(s, p).replies| ==> Justified(t, s, p, LedgerOf(s, p).replies[i])
  }

  /** `active` counts the queued jobs and the one in hand until it is accounted for. */
  predicate Counted(s: State) {
    s.active == |s.q.interactive| + |s.q.batch| + if InHand(s.pc).Some? && !s.pc.Answering? then 1 else 0
  }

  /** The queue is closed exactly when no handle is left, so no submit is refused. */
  predicate Held(s: State) {
    && (s.q.closed <==> s.holders == {})
    && s.notifying <= s.holders
    && (s.closing ==> s.q.closed)
    && s.rejected == 0
  }

  predicate Gone(pc: Pc) {
    pc.Leaving? || pc.Leftover? || pc.Exited?
  }

  /** The loop ends only on a closed, empty queue, so nothing is ever left over. */
  predicate CleanExit(s: State) {
    Gone(s.pc) ==> s.q.closed && Empty(s.q) && (s.pc.Leftover? ==> |s.pc.jobs| == 0)
  }

  /** The engine has the chunk in hand, or its answer is there, or there is nothing to do. */
  predicate EngineInStep(t: Translator, s: State) {
    && (!s.link.up ==> s.pc.Exited?)
    && |s.link.inbox| + (if s.link.answer.Some? then 1 else 0) == (if s.pc.Awaiting? then 1 else 0)
    && (s.pc.Awaiting? && |s.link.inbox| == 1 ==> s.link.inbox[0] == Call(s.pc.chunk, s.pc.job.html))
    && (s.pc.Awaiting? && s.link.answer.Some? && s.link.answer.value.Output? ==>
          s.link.answer.value.translations == Each(t, s.pc.job.html, s.pc.chunk))
  }

  /** A task about to wait, or waiting without having been woken. */
  predicate Sleeping(pc: Pc) {
    pc.Enter? || (pc.Parked? && !pc.woken)
  }

  /**
    No lost wakeup: if the scheduler goes to sleep without a permit while the queue is
    non-empty or closed, some submitter or dropper has its `notify_one` still to do.
   */
  predicate WakeupComing(s: State) {
    Sleeping(s.pc) && !s.permit && (!Empty(s.q) || s.q.closed) ==> s.notifying != {} || s.closing
  }

  /** A task that waits has found no permit. */
  predicate NoIdlePermit(s: State) {
    s.pc.Parked? && !s.pc.woken ==> !s.permit
  }

  predicate Inv(t: Translator, s: State) {
    && InOrder(s, Interactive) && InOrder(s, Batch)
    && QueueOnCourse(t, s, Interactive) && QueueOnCourse(t, s, Batch)
    && HandOnCourse(t, s)
    && RepliesJustified(t, s, Interactive) && RepliesJustified(t, s, Batch)
    && Counted(s)
    && Held(s)
    && CleanExit(s)
    && EngineInStep(t, s)
    && WakeupComing(s)
    && NoIdlePermit(s)
  }
}
