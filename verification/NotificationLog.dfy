/** Dispatching one notification log (internal/core/notification/service/notification_service.go,
    internal/core/notification/repository/notification_log_repository.go).

    `createAndDispatch`, `RetryDue` and `Retry` each dispatch from a snapshot they read without a lock; `Cancel` and a
    disabled preference cancel. Every SQL statement touches one log, so one log is enough; one statement, or one answer
    of the provider, is one atomic step, and a dispatch that stops just takes no further step.
    A process whose dispatcher for the channel is not registered skips `MarkProcessing` and marks a failure at once. */
module NotificationLog {
  import opened Traces
  import opened Wrappers

  type ActorId = nat
  type Time = int

  // ---------- the row and the statements on it ----------

  datatype Status = Pending | Processing | Sent | Failed | Cancelled | Dead

  datatype Log = Log(status: Status, attempts: int, maxAttempts: int, nextRetryAt: Option<Time>)

  /** `CreatePending`; the service has replaced a maximum <= 0 by its default. */
  function NewLog(maxAttempts: int): Log {
    Log(Pending, 0, maxAttempts, None)
  }

  /** `FindRetryable`; a log just created satisfies it too. */
  predicate Retryable(log: Log, now: Time) {
    (log.status == Pending || log.status == Failed) && log.attempts < log.maxAttempts
    && (log.nextRetryAt == None || log.nextRetryAt.value <= now)
  }

  /** What `Retry` accepts. */
  predicate RetryAllowed(log: Log) {
    log.status == Failed || log.status == Dead
  }

  function MarkProcessing(log: Log): Option<Log> {
    if log.status == Pending || log.status == Failed || log.status == Dead then Some(log.(status := Processing)) else None
  }

  /** No status guard. */
  function MarkSent(log: Log): Log {
    log.(status := Sent)
  }

  function MarkFailed(log: Log, retryAt: Time): Option<Log> {
    if log.status == Pending || log.status == Processing || log.status == Failed
    then Some(Log(Failed, if log.attempts + 1 < log.maxAttempts then log.attempts + 1 else log.maxAttempts,
                  log.maxAttempts, Some(retryAt)))
    else None
  }

  /** No status guard. */
  function MarkDead(log: Log): Log {
    Log(Dead, log.maxAttempts, log.maxAttempts, None)
  }

  function MarkCancelled(log: Log): Option<Log> {
    if log.status == Pending then Some(log.(status := Cancelled, nextRetryAt := None)) else None
  }

  // ---------- the protocol ----------

  /** `Ready`: read, not yet dispatched. `Sending`, `Accepted`, `Refused`: between `MarkProcessing` and the final mark,
      before the provider answers, and after it accepted or refused. */
  datatype Phase = Ready | Sending | Accepted | Refused | Done

  /** One dispatch: whether its process has the dispatcher, and the snapshot it works from. */
  datatype Actor = Actor(registered: bool, attempts: int, maxAttempts: int, phase: Phase)

  /** `accepted` counts the messages the provider has accepted. */
  datatype State = State(log: Log, actors: map<ActorId, Actor>, accepted: nat)

  /** Which kinds of process there are. */
  datatype Deployment = Deployment(registered: bool, unregistered: bool)

  datatype Step =
    | Read(actor: ActorId, registered: bool, now: Time)
    | Begin(actor: ActorId)
    | Answer(actor: ActorId, ok: bool)
    | Succeed(actor: ActorId)
    | Fail(actor: ActorId, retryAt: Time)
    | Cancel

  predicate InPhase(s: State, actor: ActorId, phase: Phase) {
    actor in s.actors && s.actors[actor].phase == phase
  }

  predicate Enabled(d: Deployment, s: State, step: Step) {
    match step
    case Read(actor, registered, now) =>
      && actor !in s.actors && (if registered then d.registered else d.unregistered)
      && (Retryable(s.log, now) || RetryAllowed(s.log))
    case Begin(actor) => InPhase(s, actor, Ready) && s.actors[actor].registered
    case Answer(actor, _) => InPhase(s, actor, Sending)
    case Succeed(actor) => InPhase(s, actor, Accepted)
    case Fail(actor, _) => InPhase(s, actor, Refused) || (InPhase(s, actor, Ready) && !s.actors[actor].registered)
    case Cancel => true
  }

  function Moved(s: State, actor: ActorId, phase: Phase, log: Log): State
    requires actor in s.actors
  {
    s.(log := log, actors := s.actors[actor := s.actors[actor].(phase := phase)])
  }

  /** `markDispatchFailed`: the snapshot decides between `dead` and `failed`. */
  function FailedLog(log: Log, attempts: int, maxAttempts: int, retryAt: Time): Log {
    if attempts + 1 >= maxAttempts then MarkDead(log)
    else match MarkFailed(log, retryAt)
      case None => log
      case Some(marked) => marked
  }

  function Next(d: Deployment, s: State, step: Step): State
    requires Enabled(d, s, step)
  {
    match step {
      case Read(actor, registered, _) =>
        s.(actors := s.actors[actor := Actor(registered, s.log.attempts, s.log.maxAttempts, Ready)])
      case Begin(actor) =>
        var marked := MarkProcessing(s.log);
        if marked == None then Moved(s, actor, Done, s.log) else Moved(s, actor, Sending, marked.value)
      case Answer(actor, ok) =>
        if ok then Moved(s, actor, Accepted, s.log).(accepted := s.accepted + 1) else Moved(s, actor, Refused, s.log)
      case Succeed(actor) => Moved(s, actor, Done, MarkSent(s.log))
      case Fail(actor, retryAt) =>
        Moved(s, actor, Done, FailedLog(s.log, s.actors[actor].attempts, s.actors[actor].maxAttempts, retryAt))
      case Cancel =>
        var marked := MarkCancelled(s.log);
        if marked == None then s else s.(log := marked.value)
    }
  }

  function Initial(maxAttempts: int): State {
    State(NewLog(maxAttempts), map[], 0)
  }

  /** The state a trace leads to, if every step of it can be taken. */
  ghost function Reach(d: Deployment, maxAttempts: int, trace: seq<Step>): Option<State> {
    if trace == [] then Some(Initial(maxAttempts))
    else
      var before := Reach(d, maxAttempts, trace[..|trace| - 1]);
      var step := trace[|trace| - 1];
      if before.Some? && Enabled(d, before.value, step) then Some(Next(d, before.value, step)) else None
  }

  // ---------- with the dispatcher registered everywhere ----------

  predicate InWindow(s: State, actor: ActorId) {
    InPhase(s, actor, Sending) || InPhase(s, actor, Accepted) || InPhase(s, actor, Refused)
  }

  /** `processing` is the lock: it is set exactly while one dispatch is in the send window. */
  ghost predicate WindowIsLocked(s: State) {
    && (forall a :: InWindow(s, a) ==> s.log.status == Processing)
    && (s.log.status == Processing ==> exists a :: InWindow(s, a))
    && (forall a, b :: InWindow(s, a) && InWindow(s, b) ==> a == b)
  }

  ghost predicate AcceptedOnce(s: State) {
    && s.accepted <= 1
    && (forall a :: InPhase(s, a, Accepted) ==> s.accepted == 1)
    && (s.accepted == 1 ==> s.log.status == Sent || exists a :: InPhase(s, a, Accepted))
  }

  ghost predicate Consistent(s: State) {
    && WindowIsLocked(s) && AcceptedOnce(s)
    && 0 <= s.log.attempts <= s.log.maxAttempts
    && (forall a :: a in s.actors ==> s.actors[a].registered)
  }

  /** Only the actor of a step changes phase. */
  lemma OthersStay(d: Deployment, s: State, step: Step)
    requires Enabled(d, s, step)
    ensures var t := Next(d, s, step);
            forall a :: step.Cancel? || a != step.actor ==>
              (InWindow(t, a) <==> InWindow(s, a)) && (InPhase(t, a, Accepted) <==> InPhase(s, a, Accepted))
  {
  }

  lemma NoneAcceptedYet(s: State, actor: ActorId)
    requires Consistent(s) && InPhase(s, actor, Sending)
    ensures s.accepted == 0
  {
    assert InWindow(s, actor);
    if s.accepted == 1 {
      var a :| InPhase(s, a, Accepted);
      assert InWindow(s, a);
    }
  }

  lemma WindowStaysLocked(d: Deployment, s: State, step: Step)
    requires Consistent(s) && Enabled(d, s, step) && !d.unregistered
    ensures WindowIsLocked(Next(d, s, step))
  {
    var t := Next(d, s, step);
    OthersStay(d, s, step);
    if !step.Cancel? {
      assert InWindow(s, step.actor) ==> forall a :: a != step.actor ==> !InWindow(s, a);
      if t.log.status == Processing && !InWindow(t, step.actor) {
        var a :| InWindow(s, a);
        assert InWindow(t, a);
      }
    } else if t.log.status == Processing {
      var a :| InWindow(s, a);
      assert InWindow(t, a);
    }
  }

  lemma AcceptedStaysOnce(d: Deployment, s: State, step: Step)
    requires Consistent(s) && Enabled(d, s, step) && !d.unregistered
    ensures AcceptedOnce(Next(d, s, step))
  {
    var t := Next(d, s, step);
    OthersStay(d, s, step);
    assert step.Fail? ==> InWindow(s, step.actor);
    if step.Answer? {
      NoneAcceptedYet(s, step.actor);
      assert step.ok ==> InPhase(t, step.actor, Accepted);
    } else if s.accepted == 1 && s.log.status != Sent {
      var a :| InPhase(s, a, Accepted);
      assert InWindow(s, a);
      if !step.Succeed? {
        assert InPhase(t, a, Accepted);
      }
    }
  }

  lemma StepKeeps(d: Deployment, s: State, step: Step)
    requires Consistent(s) && Enabled(d, s, step) && !d.unregistered
    ensures Consistent(Next(d, s, step))
    ensures Next(d, s, step).log.maxAttempts == s.log.maxAttempts
    ensures s.log.status == Sent || s.log.status == Cancelled ==> Next(d, s, step).log == s.log
  {
    WindowStaysLocked(d, s, step);
    AcceptedStaysOnce(d, s, step);
    assert !step.Cancel? ==> InWindow(s, step.actor) || !InWindow(s, step.actor);
  }

  lemma {:induction false} AlwaysConsistent(d: Deployment, maxAttempts: int, trace: seq<Step>)
    requires !d.unregistered && maxAttempts >= 1 && Reach(d, maxAttempts, trace).Some?
    ensures Consistent(Reach(d, maxAttempts, trace).value)
    ensures Reach(d, maxAttempts, trace).value.log.maxAttempts == maxAttempts
    decreases |trace|
  {
    if trace != [] {
      var front := trace[..|trace| - 1];
      AlwaysConsistent(d, maxAttempts, front);
      StepKeeps(d, Reach(d, maxAttempts, front).value, trace[|trace| - 1]);
    }
  }

  /** In every deployment attempts stay within the maximum, in the log and in the snapshots. */
  lemma {:induction false} AttemptsStayBounded(d: Deployment, maxAttempts: int, trace: seq<Step>)
    requires maxAttempts >= 1 && Reach(d, maxAttempts, trace).Some?
    ensures var s := Reach(d, maxAttempts, trace).value;
            && 0 <= s.log.attempts <= s.log.maxAttempts == maxAttempts
            && forall a :: a in s.actors ==> 0 <= s.actors[a].attempts <= s.actors[a].maxAttempts == maxAttempts
    decreases |trace|
  {
    if trace != [] {
      AttemptsStayBounded(d, maxAttempts, trace[..|trace| - 1]);
    }
  }

  /** Over every interleaving: one dispatch in the send window at a time, and one message accepted in all. */
  lemma DispatchIsExclusive(d: Deployment, maxAttempts: int, trace: seq<Step>)
    requires !d.unregistered && maxAttempts >= 1 && Reach(d, maxAttempts, trace).Some?
    ensures var s := Reach(d, maxAttempts, trace).value;
            && s.accepted <= 1
            && (s.log.status == Processing <==> exists a :: InWindow(s, a))
            && (forall a, b :: InWindow(s, a) && InWindow(s, b) ==> a == b)
  {
    AlwaysConsistent(d, maxAttempts, trace);
  }

  /** `sent` and `cancelled` are final, although `MarkSent` and `MarkDead` carry no status guard. */
  lemma {:induction false} SentAndCancelledAreFinal(d: Deployment, maxAttempts: int, trace: seq<Step>, more: seq<Step>)
    requires !d.unregistered && maxAttempts >= 1
    requires Reach(d, maxAttempts, trace).Some? && Reach(d, maxAttempts, trace + more).Some?
    requires var log := Reach(d, maxAttempts, trace).value.log; log.status == Sent || log.status == Cancelled
    ensures Reach(d, maxAttempts, trace + more).value.log == Reach(d, maxAttempts, trace).value.log
    decreases |more|
  {
    if more == [] {
      assert trace + more == trace;
    } else {
      var front := more[..|more| - 1];
      assert (trace + more)[..|trace + more| - 1] == trace + front;
      SentAndCancelledAreFinal(d, maxAttempts, trace, front);
      AlwaysConsistent(d, maxAttempts, trace + front);
      StepKeeps(d, Reach(d, maxAttempts, trace + front).value, more[|more| - 1]);
    }
  }

  // ---------- with some processes lacking the dispatcher ----------

  /** A trace and the state it leads to. */
  ghost predicate Leads(d: Deployment, maxAttempts: int, trace: seq<Step>, s: State) {
    Reach(d, maxAttempts, trace) == Some(s)
  }

  lemma OneMore(d: Deployment, maxAttempts: int, trace: seq<Step>, s: State, step: Step)
    requires Leads(d, maxAttempts, trace, s) && Enabled(d, s, step)
    ensures Leads(d, maxAttempts, trace + [step], Next(d, s, step))
  {
    assert (trace + [step])[..|trace|] == trace;
  }

  /** The log is waiting for a dispatch, after `n` failed ones, the last of them due again at time 0. */
  ghost predicate Waiting(s: State, maxAttempts: int, n: nat) {
    && s.log.attempts == n && s.log.maxAttempts == maxAttempts
    && (s.log.status == Pending || s.log.status == Failed) && (s.log.nextRetryAt == None || s.log.nextRetryAt == Some(0))
    && s.accepted == 0
  }

  /** One dispatch from ready to failed: with the dispatcher the provider refuses, without it the mark comes at once. */
  lemma FailureHappens(d: Deployment, maxAttempts: int, trace: seq<Step>, s: State, actor: ActorId, n: nat)
    returns (more: seq<Step>, t: State)
    requires Leads(d, maxAttempts, trace, s) && actor in s.actors && s.actors[actor].phase == Ready
    requires Waiting(s, maxAttempts, n) && n < maxAttempts
    requires s.actors[actor].maxAttempts == maxAttempts && s.actors[actor].attempts + 1 < maxAttempts
    ensures Leads(d, maxAttempts, more, t) && Waiting(t, maxAttempts, n + 1) && t.log.status == Failed
    ensures t.actors.Keys == s.actors.Keys && forall a :: a in s.actors && a != actor ==> t.actors[a] == s.actors[a]
  {
    more, t := trace, s;
    if s.actors[actor].registered {
      OneMore(d, maxAttempts, more, t, Begin(actor));
      more, t := more + [Begin(actor)], Next(d, t, Begin(actor));
      OneMore(d, maxAttempts, more, t, Answer(actor, false));
      more, t := more + [Answer(actor, false)], Next(d, t, Answer(actor, false));
    }
    OneMore(d, maxAttempts, more, t, Fail(actor, 0));
    more, t := more + [Fail(actor, 0)], Next(d, t, Fail(actor, 0));
  }

  /** A process reads the log. */
  lemma ReadHappens(d: Deployment, maxAttempts: int, trace: seq<Step>, s: State, actor: ActorId, registered: bool, n: nat)
    returns (more: seq<Step>, t: State)
    requires Leads(d, maxAttempts, trace, s) && Waiting(s, maxAttempts, n) && n < maxAttempts && actor !in s.actors
    requires if registered then d.registered else d.unregistered
    ensures Leads(d, maxAttempts, more, t)
    ensures t == s.(actors := s.actors[actor := Actor(registered, n, maxAttempts, Ready)])
  {
    OneMore(d, maxAttempts, trace, s, Read(actor, registered, 0));
    more, t := trace + [Read(actor, registered, 0)], Next(d, s, Read(actor, registered, 0));
  }

  /** Any number of dispatches short of the maximum can fail one after another. */
  lemma {:induction false} FailuresHappen(d: Deployment, maxAttempts: int, registered: bool, n: nat)
    returns (trace: seq<Step>, s: State)
    requires n < maxAttempts && if registered then d.registered else d.unregistered
    ensures Leads(d, maxAttempts, trace, s) && Waiting(s, maxAttempts, n) && forall a :: a in s.actors ==> a < n
    decreases n
  {
    trace, s := [], Initial(maxAttempts);
    if n > 0 {
      trace, s := FailuresHappen(d, maxAttempts, registered, n - 1);
      trace, s := ReadHappens(d, maxAttempts, trace, s, n - 1, registered, n - 1);
      trace, s := FailureHappens(d, maxAttempts, trace, s, n - 1, n - 1);
    }
  }

  /** One dispatch from reading to sent. */
  lemma SendHappens(d: Deployment, maxAttempts: int, trace: seq<Step>, s: State, actor: ActorId) returns (more: seq<Step>, t: State)
    requires Leads(d, maxAttempts, trace, s) && actor in s.actors
    requires s.actors[actor].registered && s.actors[actor].phase == Ready && MarkProcessing(s.log).Some?
    ensures Leads(d, maxAttempts, more, t)
    ensures t.accepted == s.accepted + 1 && t.log.status == Sent && t.log.maxAttempts == s.log.maxAttempts
    ensures t.actors.Keys == s.actors.Keys && forall a :: a in s.actors && a != actor ==> t.actors[a] == s.actors[a]
  {
    OneMore(d, maxAttempts, trace, s, Begin(actor));
    var s1 := Next(d, s, Begin(actor));
    OneMore(d, maxAttempts, trace + [Begin(actor)], s1, Answer(actor, true));
    var s2 := Next(d, s1, Answer(actor, true));
    OneMore(d, maxAttempts, trace + [Begin(actor)] + [Answer(actor, true)], s2, Succeed(actor));
    more, t := trace + [Begin(actor)] + [Answer(actor, true)] + [Succeed(actor)], Next(d, s2, Succeed(actor));
  }

  /** A process without the dispatcher, holding an old snapshot, can overwrite `sent` with `dead`. */
  lemma SentIsOverwritten(d: Deployment, maxAttempts: int) returns (trace: seq<Step>, s: State, step: Step)
    requires d.registered && d.unregistered && maxAttempts >= 1
    ensures Leads(d, maxAttempts, trace, s) && s.log.status == Sent && s.accepted == 1 && Enabled(d, s, step)
    ensures Next(d, s, step).log == MarkDead(s.log) && Next(d, s, step).accepted == 1
    ensures Next(d, s, step).log.maxAttempts == maxAttempts
    ensures forall a :: a in Next(d, s, step).actors ==> a <= maxAttempts
  {
    var n := maxAttempts - 1;
    trace, s := FailuresHappen(d, maxAttempts, false, n);
    trace, s := ReadHappens(d, maxAttempts, trace, s, n, true, n);
    trace, s := ReadHappens(d, maxAttempts, trace, s, n + 1, false, n);
    trace, s := SendHappens(d, maxAttempts, trace, s, n);
    step := Fail(n + 1, 0);
  }

  /** A retry then sends again. */
  lemma MixedDeploymentSendsTwice(d: Deployment, maxAttempts: int) returns (trace: seq<Step>, s: State)
    requires d.registered && d.unregistered && maxAttempts >= 1
    ensures Leads(d, maxAttempts, trace, s) && s.accepted == 2
  {
    var step: Step;
    trace, s, step := SentIsOverwritten(d, maxAttempts);
    OneMore(d, maxAttempts, trace, s, step);
    trace, s := trace + [step], Next(d, s, step);
    var retrier := maxAttempts + 1;
    OneMore(d, maxAttempts, trace, s, Read(retrier, true, 0));
    trace, s := trace + [Read(retrier, true, 0)], Next(d, s, Read(retrier, true, 0));
    trace, s := SendHappens(d, maxAttempts, trace, s, retrier);
  }

  lemma {:induction false} NobodySends(d: Deployment, maxAttempts: int, trace: seq<Step>)
    requires !d.registered && Reach(d, maxAttempts, trace).Some?
    ensures var s := Reach(d, maxAttempts, trace).value;
            s.accepted == 0 && forall a :: a in s.actors ==> !s.actors[a].registered && !InWindow(s, a)
    decreases |trace|
  {
    if trace != [] {
      NobodySends(d, maxAttempts, trace[..|trace| - 1]);
    }
  }

  ghost predicate SendsAtMostOnce(d: Deployment, maxAttempts: int) {
    forall trace :: Reach(d, maxAttempts, trace).Some? ==> Reach(d, maxAttempts, trace).value.accepted <= 1
  }

  /** A log is accepted by its provider at most once, over every interleaving, iff the deployment is not mixed:
      the dispatcher is registered in every process, or in none. */
  lemma SendsAtMostOnceUnlessMixed(d: Deployment, maxAttempts: int)
    requires maxAttempts >= 1
    ensures SendsAtMostOnce(d, maxAttempts) <==> !(d.registered && d.unregistered)
  {
    if d.registered && d.unregistered {
      var trace, s := MixedDeploymentSendsTwice(d, maxAttempts);
    } else {
      forall trace | Reach(d, maxAttempts, trace).Some? ensures Reach(d, maxAttempts, trace).value.accepted <= 1 {
        if d.registered {
          DispatchIsExclusive(d, maxAttempts, trace);
        } else {
          NobodySends(d, maxAttempts, trace);
        }
      }
    }
  }

  // ---------- when failed logs can be retried ----------

  /** Every failed log has an attempt left, so that it will be taken up again. */
  ghost predicate FailedHasAttempts(d: Deployment, maxAttempts: int) {
    forall trace :: Reach(d, maxAttempts, trace).Some? && Reach(d, maxAttempts, trace).value.log.status == Failed ==>
      Reach(d, maxAttempts, trace).value.log.attempts < maxAttempts
  }

  /** With one attempt, or nobody to dispatch, no log is ever failed. */
  lemma {:induction false} NeverFailed(d: Deployment, maxAttempts: int, trace: seq<Step>)
    requires maxAttempts == 1 || (!d.registered && !d.unregistered)
    requires maxAttempts >= 1 && Reach(d, maxAttempts, trace).Some?
    ensures Reach(d, maxAttempts, trace).value.log.status != Failed
    ensures !d.registered && !d.unregistered ==> Reach(d, maxAttempts, trace).value.actors == map[]
    decreases |trace|
  {
    if trace != [] {
      NeverFailed(d, maxAttempts, trace[..|trace| - 1]);
      AttemptsStayBounded(d, maxAttempts, trace[..|trace| - 1]);
    }
  }

  /** Two dispatches that read the same snapshot, one attempt before the last, both fail and use up all attempts. */
  lemma FailedLogGetsStuck(d: Deployment, maxAttempts: int, registered: bool) returns (trace: seq<Step>, s: State)
    requires maxAttempts >= 2 && if registered then d.registered else d.unregistered
    ensures Leads(d, maxAttempts, trace, s) && s.log.status == Failed && s.log.attempts == maxAttempts
    ensures forall now :: !Retryable(s.log, now)
  {
    var n := maxAttempts - 2;
    trace, s := FailuresHappen(d, maxAttempts, registered, n);
    trace, s := ReadHappens(d, maxAttempts, trace, s, n, registered, n);
    trace, s := ReadHappens(d, maxAttempts, trace, s, n + 1, registered, n);
    trace, s := FailureHappens(d, maxAttempts, trace, s, n, n);
    trace, s := FailureHappens(d, maxAttempts, trace, s, n + 1, n + 1);
  }

  /** Snapshots are read without a lock, so a failed log can be out of attempts, and is then never taken up again; it
      cannot iff there is only one attempt, which makes every failure `dead`, or no process at all. */
  lemma FailedHasAttemptsIff(d: Deployment, maxAttempts: int)
    requires maxAttempts >= 1
    ensures FailedHasAttempts(d, maxAttempts) <==> maxAttempts == 1 || (!d.registered && !d.unregistered)
  {
    if maxAttempts == 1 || (!d.registered && !d.unregistered) {
      forall trace | Reach(d, maxAttempts, trace).Some? ensures Reach(d, maxAttempts, trace).value.log.status != Failed {
        NeverFailed(d, maxAttempts, trace);
      }
    } else {
      var trace, s := FailedLogGetsStuck(d, maxAttempts, d.registered);
      assert Reach(d, maxAttempts, trace).value == s;
    }
  }

  // ---------- waiting for the next attempt ----------

  /** A pending log is as it was created. */
  lemma {:induction false} PendingIsNew(d: Deployment, maxAttempts: int, trace: seq<Step>)
    requires Reach(d, maxAttempts, trace).Some? && Reach(d, maxAttempts, trace).value.log.status == Pending
    ensures Reach(d, maxAttempts, trace).value.log == Log(Pending, 0, maxAttempts, None)
    decreases |trace|
  {
    if trace != [] {
      PendingIsNew(d, maxAttempts, trace[..|trace| - 1]);
    }
  }

  /** In every interleaving a log can be read for a dispatch iff it is pending, failed or dead. The retry run takes it iff it is
      pending, or failed with an attempt left and its time come. */
  lemma ReadIff(d: Deployment, maxAttempts: int, trace: seq<Step>, actor: ActorId, registered: bool, now: Time)
    requires maxAttempts >= 1 && Reach(d, maxAttempts, trace).Some?
    ensures var s := Reach(d, maxAttempts, trace).value;
            && (Enabled(d, s, Read(actor, registered, now)) <==>
                  && actor !in s.actors && (if registered then d.registered else d.unregistered)
                  && (s.log.status == Pending || s.log.status == Failed || s.log.status == Dead))
            && (Retryable(s.log, now) <==>
                  || s.log.status == Pending
                  || (s.log.status == Failed && s.log.attempts != maxAttempts
                      && (s.log.nextRetryAt.Some? ==> s.log.nextRetryAt.value <= now)))
  {
    AttemptsStayBounded(d, maxAttempts, trace);
    if Reach(d, maxAttempts, trace).value.log.status == Pending {
      PendingIsNew(d, maxAttempts, trace);
    }
  }

  /** Cancelling stops a pending log before its first attempt, and does nothing to any other. */
  lemma CancelStopsPending(d: Deployment, maxAttempts: int, trace: seq<Step>)
    requires Reach(d, maxAttempts, trace).Some?
    ensures var s := Reach(d, maxAttempts, trace).value;
            Next(d, s, Cancel) == if s.log.status == Pending then s.(log := Log(Cancelled, 0, maxAttempts, None)) else s
  {
    if Reach(d, maxAttempts, trace).value.log.status == Pending {
      PendingIsNew(d, maxAttempts, trace);
    }
  }

  /** How many steps a dispatch has taken, by where it stands. */
  lemma {:induction false} DispatchIsShort(d: Deployment, maxAttempts: int, trace: seq<Step>, actor: ActorId)
    requires Reach(d, maxAttempts, trace).Some?
    ensures var s, n := Reach(d, maxAttempts, trace).value, |Own(trace, Mine(actor))|;
            && (actor !in s.actors ==> n == 0)
            && (InPhase(s, actor, Ready) ==> n == 1) && (InPhase(s, actor, Sending) ==> n == 2)
            && (InPhase(s, actor, Accepted) || InPhase(s, actor, Refused) ==> n == 3)
            && (InPhase(s, actor, Done) ==> 2 <= n <= 4)
    decreases |trace|
  {
    if trace != [] {
      DispatchIsShort(d, maxAttempts, trace[..|trace| - 1], actor);
    }
  }


  /** In every interleaving a mark that fails the log counts one attempt, up to the maximum, and keeps the log from being taken
      up again before the time it sets. */
  lemma FailureWaits(d: Deployment, maxAttempts: int, trace: seq<Step>, actor: ActorId, at: Time)
    requires Reach(d, maxAttempts, trace).Some? && Reach(d, maxAttempts, trace + [Fail(actor, at)]).Some?
    ensures var s, log := Reach(d, maxAttempts, trace).value, Reach(d, maxAttempts, trace + [Fail(actor, at)]).value.log;
            && actor in s.actors
            && if s.actors[actor].attempts + 1 >= s.actors[actor].maxAttempts
               then log.status == Dead && log.attempts == log.maxAttempts && forall now :: !Retryable(log, now)
               else if s.log.status == Pending || s.log.status == Processing || s.log.status == Failed
               then log.status == Failed && log.attempts == (if s.log.attempts < s.log.maxAttempts then s.log.attempts + 1 else s.log.maxAttempts)
                    && forall now :: Retryable(log, now) <==> log.attempts < log.maxAttempts && at <= now
               else log == s.log
  {
    assert (trace + [Fail(actor, at)])[..|trace|] == trace;
  }

  /** A failed log waits for the time that some failure has set. */
  lemma {:induction false} FailedWaits(d: Deployment, maxAttempts: int, trace: seq<Step>)
    requires Reach(d, maxAttempts, trace).Some? && Reach(d, maxAttempts, trace).value.log.status == Failed
    ensures var log := Reach(d, maxAttempts, trace).value.log;
            exists actor, at :: Fail(actor, at) in trace
              && forall now :: Retryable(log, now) <==> log.attempts < log.maxAttempts && at <= now
    decreases |trace|
  {
    var front, step := trace[..|trace| - 1], trace[|trace| - 1];
    var before, log := Reach(d, maxAttempts, front).value, Reach(d, maxAttempts, trace).value.log;
    assert trace == front + [step];
    if before.log == log {
      FailedWaits(d, maxAttempts, front);
    } else {
      assert step.Fail?;
      FailureWaits(d, maxAttempts, front, step.actor, step.retryAt);
      assert Fail(step.actor, step.retryAt) in trace;
    }
  }

  // ---------- when sent and cancelled are final ----------

  predicate Over(log: Log) {
    log.status == Sent || log.status == Cancelled
  }

  ghost predicate OverIsFinal(d: Deployment, maxAttempts: int) {
    forall trace, more ::
      Reach(d, maxAttempts, trace + more).Some? && Reach(d, maxAttempts, trace).Some? && Over(Reach(d, maxAttempts, trace).value.log) ==>
        Reach(d, maxAttempts, trace + more).value.log == Reach(d, maxAttempts, trace).value.log
  }

  /** Without a dispatcher anywhere nothing is sent; and a log that has not failed yet, cancelled or not, has no attempts
      in it or in any snapshot. */
  lemma {:induction false} UnsentHasNoAttempts(d: Deployment, maxAttempts: int, trace: seq<Step>)
    requires !d.registered && maxAttempts >= 1 && Reach(d, maxAttempts, trace).Some?
    ensures var s := Reach(d, maxAttempts, trace).value;
            && s.log.status != Sent && s.log.status != Processing
            && (s.log.status == Pending || s.log.status == Cancelled ==>
                  s.log.attempts == 0 && forall a :: a in s.actors ==> s.actors[a].attempts == 0)
    decreases |trace|
  {
    if trace != [] {
      UnsentHasNoAttempts(d, maxAttempts, trace[..|trace| - 1]);
      NobodySends(d, maxAttempts, trace[..|trace| - 1]);
    }
  }

  lemma {:induction false} CancelledStays(d: Deployment, maxAttempts: int, trace: seq<Step>, more: seq<Step>)
    requires !d.registered && maxAttempts >= 2
    requires Reach(d, maxAttempts, trace).Some? && Reach(d, maxAttempts, trace + more).Some?
    requires Over(Reach(d, maxAttempts, trace).value.log)
    ensures Reach(d, maxAttempts, trace + more).value.log == Reach(d, maxAttempts, trace).value.log
    decreases |more|
  {
    UnsentHasNoAttempts(d, maxAttempts, trace);
    if more == [] {
      assert trace + more == trace;
    } else {
      var front := more[..|more| - 1];
      assert (trace + more)[..|trace + more| - 1] == trace + front;
      CancelledStays(d, maxAttempts, trace, front);
      UnsentHasNoAttempts(d, maxAttempts, trace + front);
      AttemptsStayBounded(d, maxAttempts, trace + front);
      NobodySends(d, maxAttempts, trace + front);
    }
  }

  /** With one attempt, a process without the dispatcher turns a log cancelled meanwhile into `dead`. */
  lemma CancelledIsOverwritten(d: Deployment) returns (trace: seq<Step>, s: State, step: Step)
    requires d.unregistered
    ensures Leads(d, 1, trace, s) && s.log.status == Cancelled && Enabled(d, s, step) && Next(d, s, step).log.status == Dead
  {
    trace, s := [], Initial(1);
    trace, s := ReadHappens(d, 1, trace, s, 0, false, 0);
    OneMore(d, 1, trace, s, Cancel);
    trace, s, step := trace + [Cancel], Next(d, s, Cancel), Fail(0, 0);
  }

  lemma OneStepRefutes(d: Deployment, maxAttempts: int, trace: seq<Step>, s: State, step: Step)
    requires Leads(d, maxAttempts, trace, s) && Over(s.log) && Enabled(d, s, step) && Next(d, s, step).log != s.log
    ensures !OverIsFinal(d, maxAttempts)
  {
    OneMore(d, maxAttempts, trace, s, step);
    assert Reach(d, maxAttempts, trace + [step]).value.log != Reach(d, maxAttempts, trace).value.log;
  }

  /** `sent` and `cancelled` are final, over all interleavings, iff no process lacks the dispatcher, or all do and a first
      failure is not the last. */
  lemma OverIsFinalIff(d: Deployment, maxAttempts: int)
    requires maxAttempts >= 1
    ensures OverIsFinal(d, maxAttempts) <==> !d.unregistered || (!d.registered && maxAttempts >= 2)
  {
    if !d.unregistered || (!d.registered && maxAttempts >= 2) {
      forall trace, more
        | Reach(d, maxAttempts, trace + more).Some? && Reach(d, maxAttempts, trace).Some?
          && Over(Reach(d, maxAttempts, trace).value.log)
        ensures Reach(d, maxAttempts, trace + more).value.log == Reach(d, maxAttempts, trace).value.log
      {
        if !d.unregistered {
          SentAndCancelledAreFinal(d, maxAttempts, trace, more);
        } else {
          CancelledStays(d, maxAttempts, trace, more);
        }
      }
    } else if d.registered {
      var trace, s, step := SentIsOverwritten(d, maxAttempts);
      OneStepRefutes(d, maxAttempts, trace, s, step);
    } else {
      var trace, s, step := CancelledIsOverwritten(d);
      OneStepRefutes(d, maxAttempts, trace, s, step);
    }
  }

  // ---------- the service ----------

  ghost predicate BelongsTo(step: Step, actor: ActorId) {
    !step.Cancel? && step.actor == actor
  }

  ghost function Mine(actor: ActorId): Step -> bool {
    step => BelongsTo(step, actor)
  }

  lemma {:induction false} OthersLeaveActor(d: Deployment, maxAttempts: int, trace: seq<Step>, more: seq<Step>, actor: ActorId)
    requires Reach(d, maxAttempts, trace).Some? && Reach(d, maxAttempts, trace + more).Some?
    requires forall step :: step in more ==> !BelongsTo(step, actor)
    ensures var s, t := Reach(d, maxAttempts, trace).value, Reach(d, maxAttempts, trace + more).value;
            actor in s.actors ==> actor in t.actors && t.actors[actor] == s.actors[actor]
    decreases |more|
  {
    if more == [] {
      assert trace + more == trace;
    } else {
      var front := more[..|more| - 1];
      assert (trace + more)[..|trace + more| - 1] == trace + front;
      OthersLeaveActor(d, maxAttempts, trace, front, actor);
      assert more[|more| - 1] in more;
    }
  }

  datatype DispatchResult = SentNow | NotDispatchable | MarkedFailed | MarkLost

  /** The steps of a dispatch past reading the log, by whether its process has the dispatcher, whether the log could be
      marked `processing`, and what the provider answered. */
  function StepsFor(actor: ActorId, registered: bool, marked: bool, ok: bool, now: Time): seq<Step> {
    if !registered then [Fail(actor, now + 60)]
    else if !marked then [Begin(actor)]
    else [Begin(actor), Answer(actor, ok), if ok then Succeed(actor) else Fail(actor, now + 60)]
  }

  /** One row, with the trace of the steps that led to it. */
  class LogStore {
    ghost const deployment: Deployment
    ghost const maxAttempts: int
    var log: Log
    ghost var actors: map<ActorId, Actor>
    ghost var accepted: nat
    ghost var trace: seq<Step>

    ghost predicate Tracked()
      reads this
    {
      maxAttempts >= 1 && Reach(deployment, maxAttempts, trace) == Some(State(log, actors, accepted))
    }

    /** What a dispatch has done so far. */
    ghost function Steps(actor: ActorId): seq<Step>
      reads this
    {
      Own(trace, Mine(actor))
    }

    constructor (ghost d: Deployment, max: int)
      requires max >= 1
      ensures Tracked() && log == NewLog(max) && trace == []
    {
      deployment, maxAttempts, log, actors, accepted, trace := d, max, NewLog(max), map[], 0, [];
    }

    ghost method Record(step: Step)
      requires maxAttempts >= 1 && Reach(deployment, maxAttempts, trace).Some?
      requires var s := Reach(deployment, maxAttempts, trace).value;
               s.actors == actors && s.accepted == accepted && Enabled(deployment, s, step)
               && log == Next(deployment, s, step).log
      modifies this`actors, this`accepted, this`trace
      ensures Tracked() && trace == old(trace) + [step]
      ensures State(log, actors, accepted) == Next(deployment, Reach(deployment, maxAttempts, old(trace)).value, step)
      ensures !step.Cancel? ==> Steps(step.actor) == old(Steps(step.actor)) + [step]
    {
      if !step.Cancel? {
        OwnMore(trace, step, Mine(step.actor));
      }
      var s := Next(deployment, Reach(deployment, maxAttempts, trace).value, step);
      actors, accepted := s.actors, s.accepted;
      assert (trace + [step])[..|trace|] == trace;
      trace := trace + [step];
    }

    /** Anything other dispatches and cancellations may do in between. */
    method Others(actor: ActorId)
      requires Tracked()
      modifies this
      ensures Tracked() && old(trace) <= trace
      ensures forall step :: step in trace[|old(trace)|..] ==> !BelongsTo(step, actor)
    {
    }

    method Interleave(actor: ActorId)
      requires Tracked() && actor in actors
      modifies this
      ensures Tracked() && old(trace) <= trace
      ensures actor in actors && actors[actor] == old(actors)[actor]
      ensures Steps(actor) == old(Steps(actor))
    {
      ghost var before := trace;
      Others(actor);
      OwnOthers(before, trace, Mine(actor));
      assert trace == before + trace[|before|..];
      OthersLeaveActor(deployment, maxAttempts, before, trace[|before|..], actor);
    }

    method UpdateProcessing() returns (found: bool)
      modifies this`log
      ensures found == MarkProcessing(old(log)).Some?
      ensures log == if found then MarkProcessing(old(log)).value else old(log)
    {
      found := log.status == Pending || log.status == Failed || log.status == Dead;
      if found {
        log := log.(status := Processing);
      }
    }

    /** `markDispatchFailed`: dead when the snapshot has one attempt left, failed otherwise. */
    method MarkDispatchFailed(actor: ActorId, attempts: int, maxOfSnapshot: int, now: Time) returns (found: bool)
      requires Tracked() && actor in actors
      requires actors[actor].phase == Refused || (actors[actor].phase == Ready && !actors[actor].registered)
      requires actors[actor].attempts == attempts && actors[actor].maxAttempts == maxOfSnapshot
      modifies this
      ensures Tracked() && old(trace) <= trace
      ensures Steps(actor) == old(Steps(actor)) + [Fail(actor, now + 60)]
      ensures found ==> log == if attempts + 1 >= maxOfSnapshot then Log(Dead, maxAttempts, maxAttempts, None)
                               else Log(Failed, if old(log).attempts < maxAttempts then old(log).attempts + 1 else maxAttempts,
                                        maxAttempts, Some(now + 60))
      ensures !found ==> log == old(log)
      ensures !deployment.unregistered ==> found
    {
      hide Own;
      ghost var d := deployment;
      AttemptsStayBounded(d, maxAttempts, trace);
      assert !d.unregistered ==> log.status == Processing by {
        if !d.unregistered {
          AlwaysConsistent(d, maxAttempts, trace);
          assert InWindow(State(log, actors, accepted), actor);
        }
      }
      if attempts + 1 >= maxOfSnapshot {
        found := true;
        log := MarkDead(log);
      } else {
        found := log.status == Pending || log.status == Processing || log.status == Failed;
        if found {
          log := MarkFailed(log, now + 60).value;
        }
      }
      Record(Fail(actor, now + 60));
    }

    /** `dispatchLog` from a snapshot read earlier; `ok` is the provider's answer. Whatever the others do meanwhile, it
        takes exactly the steps that fit; success leaves the log `sent`; and where every process has the dispatcher
        its marks are never lost. */
    method DispatchLog(actor: ActorId, registered: bool, attempts: int, maxOfSnapshot: int, ok: bool, now: Time)
      returns (result: DispatchResult)
      requires Tracked() && actor in actors && actors[actor] == Actor(registered, attempts, maxOfSnapshot, Ready)
      modifies this
      ensures Tracked() && old(trace) <= trace
      ensures Steps(actor) == old(Steps(actor)) + StepsFor(actor, registered, result != NotDispatchable, ok, now)
      ensures result == NotDispatchable ==> registered && log.status != Pending && log.status != Failed && log.status != Dead
      ensures result == SentNow <==> registered && ok && result != NotDispatchable
      ensures result == SentNow ==> log.status == Sent
      ensures result == MarkedFailed ==> log.status == if attempts + 1 >= maxOfSnapshot then Dead else Failed
      ensures result == MarkedFailed ==> log.nextRetryAt == if log.status == Failed then Some(now + 60) else None
      ensures !deployment.unregistered ==> result != MarkLost
    {
      hide Own, Next, Reach, Enabled, Consistent;
      Interleave(actor);
      if !registered {
        var found := MarkDispatchFailed(actor, attempts, maxOfSnapshot, now);
        return if found then MarkedFailed else MarkLost;
      }
      var marked := Begins(actor);
      if !marked {
        return NotDispatchable;
      }
      Interleave(actor);
      Answers(actor, ok);
      Interleave(actor);
      if !ok {
        var found := MarkDispatchFailed(actor, attempts, maxOfSnapshot, now);
        return if found then MarkedFailed else MarkLost;
      }
      Succeeds(actor);
      return SentNow;
    }

    method Begins(actor: ActorId) returns (marked: bool)
      requires Tracked() && actor in actors && actors[actor].phase == Ready && actors[actor].registered
      modifies this
      ensures Tracked() && old(trace) <= trace && Steps(actor) == old(Steps(actor)) + [Begin(actor)]
      ensures actor in actors && actors[actor] == old(actors)[actor].(phase := if marked then Sending else Done)
      ensures marked == MarkProcessing(old(log)).Some? && (!marked ==> log == old(log))
    {
      hide Own;
      marked := UpdateProcessing();
      Record(Begin(actor));
    }

    ghost method Answers(actor: ActorId, ok: bool)
      requires Tracked() && actor in actors && actors[actor].phase == Sending
      modifies this`actors, this`accepted, this`trace
      ensures Tracked() && old(trace) <= trace && Steps(actor) == old(Steps(actor)) + [Answer(actor, ok)]
      ensures actor in actors && actors[actor] == old(actors)[actor].(phase := if ok then Accepted else Refused)
    {
      hide Own;
      Record(Answer(actor, ok));
    }

    method Succeeds(actor: ActorId)
      requires Tracked() && actor in actors && actors[actor].phase == Accepted
      modifies this
      ensures Tracked() && old(trace) <= trace && Steps(actor) == old(Steps(actor)) + [Succeed(actor)]
      ensures log.status == Sent
    {
      hide Own;
      log := MarkSent(log);
      Record(Succeed(actor));
    }
  }
}
