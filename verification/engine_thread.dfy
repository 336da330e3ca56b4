/**
  The thread that owns the engine of one route: it loads one or two models, answers every job of
  its channel in order, and ends when the channel is closed and empty. Jobs come from callers that
  hold the handle; dropping the handle closes the channel and waits for the thread.
 */
module EngineThread {
  import opened Engine

  datatype Job = Job(segments: seq<string>, html: bool)

  datatype Reply = Output(translations: seq<Translation>) | EngineFailed | WorkerGone

  datatype Answered = Answered(job: Job, reply: Reply)

  /** `Refusing`: a model did not load. `Gone`: the thread has ended. */
  datatype Phase = Loading | Serving | Refusing | Gone

  datatype Drop = Held | Closed | Returned

  datatype State = State(
    phase: Phase,
    models: nat,               // models in memory
    handle: Drop,
    inbox: seq<Job>,
    sent: seq<Job>,            // every job a caller handed in, in order
    answers: seq<Answered>,    // what the callers got, in order
    panicked: bool)

  datatype Event =
    | Translate(job: Job)
    | Load(first: bool, second: bool)
    | Serve(ok: bool)
    | Refuse
    | Panic
    | Close
    | Exit
    | Join

  function Fresh(): State {
    State(Loading, 0, Held, [], [], [], false)
  }

  predicate Enabled(pivot: bool, s: State, e: Event) {
    match e
    case Translate(_) => s.handle.Held?
    case Load(_, _) => s.phase.Loading?
    case Serve(_) => s.phase.Serving? && |s.inbox| > 0
    case Refuse => s.phase.Refusing? && |s.inbox| > 0
    case Panic => s.phase.Loading? || (s.phase.Serving? && |s.inbox| > 0)
    case Close => s.handle.Held?
    case Exit => (s.phase.Serving? || s.phase.Refusing?) && s.handle.Closed? && |s.inbox| == 0
    case Join => s.phase.Gone? && s.handle.Closed?
  }

  /** The first job leaves the inbox with a reply; a caller that no longer listens changes nothing. */
  function AnswerFirst(s: State, reply: Reply): State
    requires |s.inbox| > 0
  {
    s.(inbox := s.inbox[1..], answers := s.answers + [Answered(s.inbox[0], reply)])
  }

  /** What callers see of jobs whose reply channel was dropped unanswered. */
  function Lost(jobs: seq<Job>): (r: seq<Answered>)
    ensures |r| == |jobs|
    ensures forall i :: 0 <= i < |r| ==> r[i] == Answered(jobs[i], WorkerGone)
  {
    seq(|jobs|, i requires 0 <= i < |jobs| => Answered(jobs[i], WorkerGone))
  }

  function Apply(t: Translator, pivot: bool, s: State, e: Event): State
    requires Enabled(pivot, s, e)
  {
    match e
    case Translate(job) =>
      if s.phase.Gone? then s.(sent := s.sent + [job], answers := s.answers + [Answered(job, WorkerGone)])
      else s.(sent := s.sent + [job], inbox := s.inbox + [job])
    case Load(first, second) =>
      if first && (second || !pivot) then s.(phase := Serving, models := if pivot then 2 else 1)
      else s.(phase := Refusing, models := 0)
    case Serve(ok) =>
      AnswerFirst(s, if ok then Output(Each(t, s.inbox[0].html, s.inbox[0].segments)) else EngineFailed)
    case Refuse => AnswerFirst(s, WorkerGone)
    case Panic =>
      s.(phase := Gone, models := 0, inbox := [], answers := s.answers + Lost(s.inbox), panicked := true)
    case Close => s.(handle := Closed)
    case Exit => s.(phase := Gone, models := 0)
    case Join => s.(handle := Returned)
  }

  ghost predicate Run(t: Translator, pivot: bool, states: seq<State>, events: seq<Event>) {
    && |states| == |events| + 1 && states[0] == Fresh()
    && forall i :: 0 <= i < |events| ==>
         Enabled(pivot, states[i], events[i]) && states[i + 1] == Apply(t, pivot, states[i], events[i])
  }

  // ----- What every step keeps

  function JobsOf(answers: seq<Answered>): (r: seq<Job>)
    ensures |r| == |answers|
    ensures forall i :: 0 <= i < |r| ==> r[i] == answers[i].job
  {
    seq(|answers|, i requires 0 <= i < |answers| => answers[i].job)
  }

  /** A reply the caller could have expected of its own job. */
  predicate Right(t: Translator, a: Answered) {
    a.reply.Output? ==> a.reply.translations == Each(t, a.job.html, a.job.segments)
  }

  ghost predicate Inv(t: Translator, s: State) {
    && s.sent == JobsOf(s.answers) + s.inbox
    && (forall i :: 0 <= i < |s.answers| ==> Right(t, s.answers[i]))
    && (s.phase.Loading? ==> |s.answers| == 0)
    && (s.phase.Gone? ==> |s.inbox| == 0 && s.models == 0 && (s.panicked || !s.handle.Held?))
    && (s.phase.Serving? ==> s.models > 0 && forall i :: 0 <= i < |s.answers| ==> !s.answers[i].reply.WorkerGone?)
    && (s.phase.Refusing? ==> s.models == 0 && forall i :: 0 <= i < |s.answers| ==> s.answers[i].reply.WorkerGone?)
    && (s.handle.Returned? ==> s.phase.Gone?)
    && (s.panicked ==> s.phase.Gone?)
  }

  lemma StepKeepsInv(t: Translator, pivot: bool, s: State, e: Event)
    requires Inv(t, s) && Enabled(pivot, s, e)
    ensures Inv(t, Apply(t, pivot, s, e))
  {
    var n := Apply(t, pivot, s, e);
    match e {
      case Translate(job) =>
        assert JobsOf(s.answers + [Answered(job, WorkerGone)]) == JobsOf(s.answers) + [job];
        assert JobsOf(s.answers) + s.inbox + [job] == JobsOf(s.answers) + (s.inbox + [job]);
      case Serve(_) =>
        assert JobsOf(n.answers) == JobsOf(s.answers) + [s.inbox[0]];
        assert s.inbox == [s.inbox[0]] + s.inbox[1..];
      case Refuse =>
        assert JobsOf(n.answers) == JobsOf(s.answers) + [s.inbox[0]];
        assert s.inbox == [s.inbox[0]] + s.inbox[1..];
      case Panic =>
        assert JobsOf(n.answers) == JobsOf(s.answers) + s.inbox;
      case _ =>
    }
  }

  lemma {:induction false} RunKeepsInv(t: Translator, pivot: bool, states: seq<State>, events: seq<Event>, k: nat)
    requires Run(t, pivot, states, events) && k < |states|
    ensures Inv(t, states[k])
  {
    if k > 0 {
      RunKeepsInv(t, pivot, states, events, k - 1);
      StepKeepsInv(t, pivot, states[k - 1], events[k - 1]);
    }
  }

  // ----- What a caller may rely on

  /** Jobs are answered in the order they came, each once, and with their own translation. */
  lemma AnsweredInOrder(t: Translator, pivot: bool, states: seq<State>, events: seq<Event>, k: nat)
    requires Run(t, pivot, states, events) && k < |states|
    ensures var s := states[k];
            && |s.answers| <= |s.sent|
            && forall i :: 0 <= i < |s.answers| ==> s.answers[i].job == s.sent[i] && Right(t, s.answers[i])
  {
    RunKeepsInv(t, pivot, states, events, k);
  }

  /** When the drop returns, every job ever sent has its answer and no model is in memory. */
  lemma DropWaitsForAll(t: Translator, pivot: bool, states: seq<State>, events: seq<Event>, k: nat)
    requires Run(t, pivot, states, events) && k < |states| && states[k].handle.Returned?
    ensures |states[k].answers| == |states[k].sent| && states[k].models == 0
  {
    RunKeepsInv(t, pivot, states, events, k);
  }

  lemma {:induction false} LoadedOnce(t: Translator, pivot: bool, states: seq<State>, events: seq<Event>, k: nat)
    requires Run(t, pivot, states, events) && k < |states|
    ensures states[k].phase.Refusing? ==> exists i :: 0 <= i < k && LoadFails(pivot, events[i])
    ensures forall i :: 0 <= i < |states[k].answers| && states[k].answers[i].reply.WorkerGone? ==>
              states[k].panicked || exists j :: 0 <= j < k && LoadFails(pivot, events[j])
  {
    if k > 0 {
      LoadedOnce(t, pivot, states, events, k - 1);
      RunKeepsInv(t, pivot, states, events, k - 1);
      var s, e := states[k - 1], events[k - 1];
      assert s.phase.Loading? && states[k].phase.Refusing? ==> LoadFails(pivot, e);
    }
  }

  predicate LoadFails(pivot: bool, e: Event) {
    e.Load? && !(e.first && (e.second || !pivot))
  }

  /** The thread serves exactly after a load in which every model of the route was read, and has them all in memory. */
  lemma {:induction false} ServesOnlyLoaded(t: Translator, pivot: bool, states: seq<State>, events: seq<Event>, k: nat)
    requires Run(t, pivot, states, events) && k < |states|
    ensures states[k].phase.Serving? ==> states[k].models == if pivot then 2 else 1
    ensures states[k].phase.Serving? <==> (exists first, second :: LoadedAt(events, k, first, second) && first && (pivot ==> second))
                                          && !states[k].phase.Gone?
    ensures states[k].phase.Refusing? <==> (exists first, second :: LoadedAt(events, k, first, second) && !(first && (pivot ==> second)))
                                           && !states[k].phase.Gone?
  {
    if k > 0 {
      ServesOnlyLoaded(t, pivot, states, events, k - 1);
      var s, e := states[k - 1], events[k - 1];
      LoadedNext(events, k);
      if s.phase.Loading? {
        LoadsOnce(t, pivot, states, events, k - 1);
        assert !LoadedAt(events, k - 1, true, true);
        assert e.Load? ==> LoadedAt(events, k, e.first, e.second);
      }
    }
  }

  /** One of the first `k` steps is a load with this outcome for the two models. */
  predicate LoadedAt(events: seq<Event>, k: nat, first: bool, second: bool) {
    k <= |events| && Load(first, second) in events[..k]
  }

  lemma LoadedNext(events: seq<Event>, k: nat)
    requires 0 < k <= |events|
    ensures forall first, second :: LoadedAt(events, k, first, second) <==>
      LoadedAt(events, k - 1, first, second) || events[k - 1] == Load(first, second)
  {
    assert events[..k] == events[..k - 1] + [events[k - 1]];
  }

  lemma {:induction false} LoadsOnce(t: Translator, pivot: bool, states: seq<State>, events: seq<Event>, k: nat)
    requires Run(t, pivot, states, events) && k < |states| && states[k].phase.Loading?
    ensures forall j :: 0 <= j < k ==> !events[j].Load?
  {
    if k > 0 {
      assert states[k] == Apply(t, pivot, states[k - 1], events[k - 1]);
      LoadsOnce(t, pivot, states, events, k - 1);
    }
  }

  /** Whoever holds the handle can hand in a job: it waits behind the others, or is told at once that the worker is gone. */
  lemma SendIsTaken(t: Translator, pivot: bool, s: State, job: Job)
    requires s.handle.Held?
    ensures Enabled(pivot, s, Translate(job))
    ensures var s' := Apply(t, pivot, s, Translate(job));
      && s'.sent == s.sent + [job]
      && (s.phase.Gone? ==> s'.answers == s.answers + [Answered(job, WorkerGone)] && s'.inbox == s.inbox)
      && (!s.phase.Gone? ==> s'.inbox == s.inbox + [job] && s'.answers == s.answers)
  {
  }

  /** The engine is not trusted: a load may fail for each model, and a load or a call may fail or panic. */
  lemma AnythingCanFail(pivot: bool, s: State, first: bool, second: bool, ok: bool)
    ensures s.phase.Loading? ==> Enabled(pivot, s, Load(first, second)) && Enabled(pivot, s, Panic)
    ensures s.phase.Serving? && |s.inbox| > 0 ==> Enabled(pivot, s, Serve(ok)) && Enabled(pivot, s, Panic)
  {
  }

  /** "Worker gone" has one of two causes: a model failed to load, or the engine panicked in a load or a call. */
  lemma GoneHasCause(t: Translator, pivot: bool, states: seq<State>, events: seq<Event>, k: nat, i: nat)
    requires Run(t, pivot, states, events) && k < |states| && i < |states[k].answers|
    requires states[k].answers[i].reply.WorkerGone?
    ensures states[k].panicked || exists j :: 0 <= j < k && LoadFails(pivot, events[j])
  {
    LoadedOnce(t, pivot, states, events, k);
  }

  lemma {:induction false} AnswersStay(t: Translator, pivot: bool, states: seq<State>, events: seq<Event>, j: nat, k: nat)
    requires Run(t, pivot, states, events) && j <= k < |states|
    ensures states[j].answers <= states[k].answers
    decreases k - j
  {
    if j < k {
      AnswersStay(t, pivot, states, events, j, k - 1);
      assert states[k - 1].answers <= Apply(t, pivot, states[k - 1], events[k - 1]).answers;
    }
  }

  /** The `i`-th answer is given in this step, by a call of the engine that succeeds or fails as `ok` says. */
  predicate Calls(states: seq<State>, events: seq<Event>, j: nat, i: nat, ok: bool) {
    j < |events| && j < |states| && events[j] == Serve(ok) && |states[j].answers| == i
  }

  lemma {:induction false} ReplyHasCall(t: Translator, pivot: bool, states: seq<State>, events: seq<Event>, k: nat, i: nat)
    requires Run(t, pivot, states, events) && k < |states| && i < |states[k].answers|
    ensures states[k].answers[i].reply.Output? ==> exists j: nat :: j < k && Calls(states, events, j, i, true)
    ensures states[k].answers[i].reply.EngineFailed? ==> exists j: nat :: j < k && Calls(states, events, j, i, false)
  {
    var s, e := states[k - 1], events[k - 1];
    if i < |s.answers| {
      AnswersStay(t, pivot, states, events, k - 1, k);
      ReplyHasCall(t, pivot, states, events, k - 1, i);
    } else if e.Serve? {
      assert Calls(states, events, k - 1, i, e.ok);
    }
  }

  /**
    A job is answered with its translation if and only if the engine served its call, and with
    "engine failed" if and only if the engine failed in it.
   */
  lemma ReplyTellsCall(t: Translator, pivot: bool, states: seq<State>, events: seq<Event>, k: nat, i: nat)
    requires Run(t, pivot, states, events) && k < |states| && i < |states[k].answers|
    ensures states[k].answers[i].reply.Output? <==> exists j: nat :: j < k && Calls(states, events, j, i, true)
    ensures states[k].answers[i].reply.EngineFailed? <==> exists j: nat :: j < k && Calls(states, events, j, i, false)
  {
    ReplyHasCall(t, pivot, states, events, k, i);
    forall j: nat, ok | j < k && Calls(states, events, j, i, ok)
      ensures if ok then states[k].answers[i].reply.Output? else states[k].answers[i].reply.EngineFailed?
    {
      AnswersStay(t, pivot, states, events, j + 1, k);
      assert states[k].answers[i] == states[j + 1].answers[i];
    }
  }

  // ----- The end

  predicate Inner(e: Event) {
    !e.Translate? && !e.Close?
  }

  function StepsLeft(s: State): nat {
    |s.inbox| + (match s.phase case Loading => 2 case Gone => 0 case _ => 1) + (if s.handle.Returned? then 0 else 1)
  }

  /** The thread's own steps run out, so a drop does not wait for ever. */
  lemma InnerStepsEnd(t: Translator, pivot: bool, s: State, e: Event)
    requires Enabled(pivot, s, e) && Inner(e)
    ensures StepsLeft(Apply(t, pivot, s, e)) < StepsLeft(s)
  {
  }

  /** After the close some own step is possible until the drop has returned. */
  lemma DropNeverStuck(pivot: bool, s: State)
    requires s.handle.Closed?
    ensures exists e: Event :: Inner(e) && Enabled(pivot, s, e)
  {
    var e := if s.phase.Loading? then Load(true, true)
             else if s.phase.Gone? then Join
             else if |s.inbox| == 0 then Exit
             else if s.phase.Serving? then Serve(true) else Refuse;
    assert Inner(e) && Enabled(pivot, s, e);
  }
}
