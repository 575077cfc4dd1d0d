/** The notification outbox: several workers claim rows and mark them (internal/core/notification/consumer/outbox_worker.go,
    internal/core/notification/repository/outbox_repository.go).

    One SQL statement or transaction is one atomic step. A run is one call of `RunOnce`: it holds the events it has
    claimed and not yet marked, with the attempts it read when it claimed them. A run may stop after any step; what it
    still holds then stays claimed. */
module Outbox {
  import opened Traces
  import opened Wrappers

  type Id = nat
  type RunId = nat
  type Time = int

  // ---------- rows and the statements on them ----------

  datatype Status = Pending | Processing | Succeeded | Failed | Dead

  datatype Row = Row(status: Status, attempts: int, maxAttempts: int, nextRetryAt: Option<Time>)

  const DEFAULT_MAX_ATTEMPTS := 3

  function EnqueueRow(maxAttempts: int): Row {
    Row(Pending, 0, if maxAttempts == 0 then DEFAULT_MAX_ATTEMPTS else maxAttempts, None)
  }

  predicate Claimable(r: Row, now: Time) {
    (r.status == Pending || r.status == Failed) && r.attempts < r.maxAttempts
    && (r.nextRetryAt == None || r.nextRetryAt.value <= now)
  }

  function ClaimRow(r: Row): Row {
    r.(status := Processing)
  }

  function MarkSucceededRow(r: Row): Row {
    r.(status := Succeeded)
  }

  /** Guarded: the statement changes no row that is not `processing`. */
  function MarkFailedRow(r: Row, retryAt: Time): Option<Row> {
    if r.status != Processing then None
    else Some(Row(Failed, if r.attempts + 1 < r.maxAttempts then r.attempts + 1 else r.maxAttempts, r.maxAttempts, Some(retryAt)))
  }

  function MarkDeadRow(r: Row): Row {
    Row(Dead, r.maxAttempts, r.maxAttempts, None)
  }

  function ClampLimit(limit: int): int {
    if limit <= 0 then 20 else if limit > 100 then 100 else limit
  }

  // ---------- the protocol ----------

  /** An event as `ClaimPending` returned it. */
  datatype Claimed = Claimed(id: Id, attempts: int, maxAttempts: int)

  /** `consumed`: the consumer has run for the first event still held, and its mark is due. */
  datatype Run = Run(held: seq<Claimed>, consumed: bool, stopped: bool)

  /** `calls` counts, per event, how often the consumer has run. */
  datatype State = State(rows: map<Id, Row>, runs: map<RunId, Run>, calls: map<Id, nat>)

  const INITIAL := State(map[], map[], map[])

  datatype Step =
    | Enqueue(id: Id, maxAttempts: int)
    | Claim(run: RunId, ids: seq<Id>, now: Time, limit: int)
    | Consume(run: RunId)
    | Succeed(run: RunId)
    | Fail(run: RunId, retryAt: Time)
    | Stop(run: RunId)

  predicate Active(s: State, run: RunId) {
    run in s.runs && !s.runs[run].stopped && s.runs[run].held != []
  }

  /** The row lock with SKIP LOCKED makes a claim atomic: it takes any distinct claimable rows within the limit.
      A failure may follow the consumer's error, or come before it when the tenant cannot be resolved. */
  predicate Enabled(s: State, step: Step) {
    match step
    case Enqueue(_, _) => true
    case Claim(run, ids, now, limit) =>
      && run !in s.runs && |ids| <= ClampLimit(limit)
      && (forall i, j :: 0 <= i < j < |ids| ==> ids[i] != ids[j])
      && (forall i :: 0 <= i < |ids| ==> ids[i] in s.rows && Claimable(s.rows[ids[i]], now))
    case Consume(run) => Active(s, run) && !s.runs[run].consumed
    case Succeed(run) => Active(s, run) && s.runs[run].consumed
    case Fail(run, _) => Active(s, run)
    case Stop(run) => run in s.runs
  }

  function Snapshot(rows: map<Id, Row>, ids: seq<Id>): seq<Claimed>
    requires forall i :: 0 <= i < |ids| ==> ids[i] in rows
  {
    seq(|ids|, i requires 0 <= i < |ids| => Claimed(ids[i], rows[ids[i]].attempts, rows[ids[i]].maxAttempts))
  }

  function ClaimRows(rows: map<Id, Row>, ids: seq<Id>): map<Id, Row> {
    map id | id in rows :: if id in ids then ClaimRow(rows[id]) else rows[id]
  }

  /** The run has marked its first event and goes on with the next. */
  function Advance(s: State, run: RunId, row: Row): State
    requires Active(s, run)
  {
    var r := s.runs[run];
    s.(rows := s.rows[r.held[0].id := row], runs := s.runs[run := r.(held := r.held[1..], consumed := false)])
  }

  function CallsOf(s: State, id: Id): nat {
    if id in s.calls then s.calls[id] else 0
  }

  function Next(s: State, step: Step): State
    requires Enabled(s, step)
  {
    match step
    case Enqueue(id, maxAttempts) =>
      if id in s.rows || maxAttempts < 0 then s else s.(rows := s.rows[id := EnqueueRow(maxAttempts)])
    case Claim(run, ids, _, _) =>
      s.(rows := ClaimRows(s.rows, ids), runs := s.runs[run := Run(Snapshot(s.rows, ids), false, false)])
    case Consume(run) =>
      var id := s.runs[run].held[0].id;
      s.(runs := s.runs[run := s.runs[run].(consumed := true)], calls := s.calls[id := CallsOf(s, id) + 1])
    case Succeed(run) =>
      var id := s.runs[run].held[0].id;
      if id !in s.rows then StopRun(s, run) else Advance(s, run, MarkSucceededRow(s.rows[id]))
    case Fail(run, retryAt) =>
      var event := s.runs[run].held[0];
      if event.id !in s.rows then StopRun(s, run)
      else if event.attempts + 1 >= event.maxAttempts then Advance(s, run, MarkDeadRow(s.rows[event.id]))
      else
        var row := MarkFailedRow(s.rows[event.id], retryAt);
        if row == None then StopRun(s, run) else Advance(s, run, row.value)
    case Stop(run) => StopRun(s, run)
  }

  /** A mark that changes no row returns an error, and `RunOnce` gives up; so does a crash. */
  function StopRun(s: State, run: RunId): State
    requires run in s.runs
  {
    s.(runs := s.runs[run := s.runs[run].(stopped := true)])
  }

  /** The state a trace leads to from the empty table, if every step of it can be taken. */
  ghost function Reach(trace: seq<Step>): Option<State> {
    if trace == [] then Some(INITIAL)
    else
      var before := Reach(trace[..|trace| - 1]);
      var step := trace[|trace| - 1];
      if before.Some? && Enabled(before.value, step) then Some(Next(before.value, step)) else None
  }

  ghost predicate Possible(trace: seq<Step>) {
    Reach(trace).Some?
  }

  ghost function After(trace: seq<Step>): State
    requires Possible(trace)
  {
    Reach(trace).value
  }

  // ---------- what every step keeps ----------

  ghost predicate Holds(s: State, run: RunId, i: int, id: Id) {
    run in s.runs && 0 <= i < |s.runs[run].held| && s.runs[run].held[i].id == id
  }

  /** What a run holds is `processing` in the table, with the attempts the run read. */
  ghost predicate ClaimsAreProcessing(s: State) {
    forall run, i, id :: Holds(s, run, i, id) ==>
      && id in s.rows && s.rows[id].status == Processing
      && s.runs[run].held[i] == Claimed(id, s.rows[id].attempts, s.rows[id].maxAttempts)
  }

  ghost predicate ProcessingIsClaimed(s: State) {
    forall id :: id in s.rows && s.rows[id].status == Processing ==> exists run, i :: Holds(s, run, i, id)
  }

  ghost predicate ClaimsAreExclusive(s: State) {
    forall run, i, run', i', id :: Holds(s, run, i, id) && Holds(s, run', i', id) ==> run == run' && i == i'
  }

  predicate GoodRow(r: Row) {
    && 0 <= r.attempts <= r.maxAttempts && 1 <= r.maxAttempts
    && (r.status != Dead ==> r.attempts < r.maxAttempts)
    && (r.status == Dead ==> r.attempts == r.maxAttempts)
  }

  ghost predicate RowsAreGood(s: State) {
    forall id :: id in s.rows ==> GoodRow(s.rows[id])
  }

  /** The consumer has run for this event, and its mark is still due. */
  ghost predicate MarkDue(s: State, id: Id) {
    exists run :: Holds(s, run, 0, id) && s.runs[run].consumed
  }

  ghost predicate CallsAreBounded(s: State) {
    forall id :: CallsOf(s, id) > 0 ==>
      && id in s.rows
      && CallsOf(s, id) <= s.rows[id].attempts + (if s.rows[id].status == Succeeded || MarkDue(s, id) then 1 else 0)
  }

  ghost predicate Consistent(s: State) {
    ClaimsAreProcessing(s) && ProcessingIsClaimed(s) && ClaimsAreExclusive(s) && RowsAreGood(s)
  }

  lemma EnqueueKeeps(s: State, id: Id, maxAttempts: int)
    requires Consistent(s)
    ensures Consistent(Next(s, Enqueue(id, maxAttempts)))
  {
    var t := Next(s, Enqueue(id, maxAttempts));
    assert forall run, i, k :: Holds(t, run, i, k) <==> Holds(s, run, i, k);
  }

  lemma ClaimKeeps(s: State, run: RunId, ids: seq<Id>, now: Time, limit: int)
    requires Consistent(s) && Enabled(s, Claim(run, ids, now, limit))
    ensures Consistent(Next(s, Claim(run, ids, now, limit)))
  {
    var t := Next(s, Claim(run, ids, now, limit));
    forall r, i, k | Holds(t, r, i, k)
      ensures r == run ==> i < |ids| && ids[i] == k
      ensures r != run ==> Holds(s, r, i, k) && k !in ids
    {
    }
    forall k | k in t.rows && t.rows[k].status == Processing ensures exists r, i :: Holds(t, r, i, k) {
      if k in ids {
        var i :| 0 <= i < |ids| && ids[i] == k;
        assert Holds(t, run, i, k);
      } else {
        var r, i :| Holds(s, r, i, k);
        assert Holds(t, r, i, k);
      }
    }
  }

  lemma ConsumeKeeps(s: State, run: RunId)
    requires Consistent(s) && Enabled(s, Consume(run))
    ensures Consistent(Next(s, Consume(run)))
  {
    SameClaims(s, Next(s, Consume(run)));
  }

  lemma StopKeeps(s: State, run: RunId)
    requires Consistent(s) && run in s.runs
    ensures Consistent(StopRun(s, run))
  {
    SameClaims(s, StopRun(s, run));
  }

  lemma SameClaims(s: State, t: State)
    requires Consistent(s) && t.rows == s.rows && t.runs.Keys == s.runs.Keys
    requires forall run :: run in s.runs ==> t.runs[run].held == s.runs[run].held
    ensures Consistent(t)
  {
    assert forall run, i, k :: Holds(t, run, i, k) <==> Holds(s, run, i, k);
  }

  /** Marking the first event held releases it, and only it. */
  lemma AdvanceKeeps(s: State, run: RunId, row: Row)
    requires Consistent(s) && Active(s, run) && GoodRow(row) && row.status != Processing
    ensures Consistent(Advance(s, run, row))
  {
    var t := Advance(s, run, row);
    var id := s.runs[run].held[0].id;
    assert Holds(s, run, 0, id);
    forall r, i, k | Holds(t, r, i, k)
      ensures k != id && if r == run then Holds(s, r, i + 1, k) else Holds(s, r, i, k)
    {
      if r == run {
        assert Holds(s, r, i + 1, k);
      } else {
        assert Holds(s, r, i, k);
      }
    }
    forall r, i, r', i', k | Holds(t, r, i, k) && Holds(t, r', i', k) ensures r == r' && i == i' {
      assert Holds(s, r, if r == run then i + 1 else i, k) && Holds(s, r', if r' == run then i' + 1 else i', k);
    }
    forall k | k in t.rows && t.rows[k].status == Processing ensures exists r, i :: Holds(t, r, i, k) {
      var r, i :| Holds(s, r, i, k);
      if r == run {
        assert Holds(t, r, i - 1, k);
      } else {
        assert Holds(t, r, i, k);
      }
    }
  }

  /** In a consistent state every mark finds its row `processing`, so none is refused. */
  lemma MarksHit(s: State, run: RunId)
    requires Consistent(s) && Active(s, run)
    ensures var event := s.runs[run].held[0];
            && event.id in s.rows && s.rows[event.id].status == Processing
            && event == Claimed(event.id, s.rows[event.id].attempts, s.rows[event.id].maxAttempts)
  {
    assert Holds(s, run, 0, s.runs[run].held[0].id);
  }

  /** What a mark writes. */
  function Marked(event: Claimed, row: Row, step: Step): Row
    requires step.Succeed? || step.Fail?
  {
    if step.Succeed? then MarkSucceededRow(row)
    else if event.attempts + 1 >= event.maxAttempts then MarkDeadRow(row)
    else Row(Failed, row.attempts + 1, row.maxAttempts, Some(step.retryAt))
  }

  lemma MarkAdvances(s: State, step: Step)
    requires Consistent(s) && Enabled(s, step) && (step.Succeed? || step.Fail?)
    ensures var event := s.runs[step.run].held[0];
            && event.id in s.rows
            && Next(s, step) == Advance(s, step.run, Marked(event, s.rows[event.id], step))
  {
    MarksHit(s, step.run);
  }

  lemma StepKeeps(s: State, step: Step)
    requires Consistent(s) && Enabled(s, step)
    ensures Consistent(Next(s, step))
  {
    match step
    case Enqueue(id, maxAttempts) => EnqueueKeeps(s, id, maxAttempts);
    case Claim(run, ids, now, limit) => ClaimKeeps(s, run, ids, now, limit);
    case Consume(run) => ConsumeKeeps(s, run);
    case Stop(run) => StopKeeps(s, run);
    case _ =>
      MarksHit(s, step.run);
      MarkAdvances(s, step);
      var event := s.runs[step.run].held[0];
      AdvanceKeeps(s, step.run, Marked(event, s.rows[event.id], step));
  }

  /** Over every interleaving of runs, with stops anywhere. */
  lemma {:induction false} AlwaysConsistent(trace: seq<Step>)
    requires Possible(trace)
    ensures Consistent(After(trace))
    decreases |trace|
  {
    if trace != [] {
      AlwaysConsistent(trace[..|trace| - 1]);
      StepKeeps(After(trace[..|trace| - 1]), trace[|trace| - 1]);
    }
  }

  /** A row is `processing` iff exactly one run has claimed it and not yet marked it. */
  lemma ProcessingIffClaimedOnce(trace: seq<Step>, id: Id)
    requires Possible(trace) && id in After(trace).rows
    ensures var s := After(trace);
            && (s.rows[id].status == Processing <==> exists run, i :: Holds(s, run, i, id))
            && forall run, i, run', i' :: Holds(s, run, i, id) && Holds(s, run', i', id) ==> run == run' && i == i'
  {
    AlwaysConsistent(trace);
  }

  // ---------- one step, seen from one row ----------

  /** The step claims or marks event `id`. */
  ghost predicate Moves(s: State, step: Step, id: Id)
    requires Enabled(s, step)
  {
    match step
    case Claim(_, ids, _, _) => id in ids
    case Succeed(run) => s.runs[run].held[0].id == id
    case Fail(run, _) => s.runs[run].held[0].id == id
    case _ => false
  }

  /** What is left of an event's life: each claim and each mark takes one off. */
  function Rank(r: Row): int {
    match r.status
    case Processing => 2 * (r.maxAttempts - r.attempts) - 1
    case Succeeded => 0
    case Dead => 0
    case _ => 2 * (r.maxAttempts - r.attempts)
  }

  predicate Finished(r: Row) {
    r.status == Succeeded || r.status == Dead
  }

  lemma StepOnRow(s: State, step: Step, id: Id)
    requires Consistent(s) && Enabled(s, step) && id in s.rows
    ensures id in Next(s, step).rows
    ensures var r := Next(s, step).rows[id];
            if Moves(s, step, id) then !Finished(s.rows[id]) && Rank(r) < Rank(s.rows[id]) && r.maxAttempts == s.rows[id].maxAttempts
            else r == s.rows[id]
  {
    if step.Succeed? || step.Fail? {
      MarksHit(s, step.run);
      MarkAdvances(s, step);
    }
  }

  /** `succeeded` and `dead` are final, although the statements that set them carry no status guard. */
  lemma {:induction false} FinishedIsFinal(trace: seq<Step>, more: seq<Step>, id: Id)
    requires Possible(trace) && Possible(trace + more)
    requires id in After(trace).rows && Finished(After(trace).rows[id])
    ensures id in After(trace + more).rows && After(trace + more).rows[id] == After(trace).rows[id]
    decreases |more|
  {
    if more == [] {
      assert trace + more == trace;
    } else {
      var front := more[..|more| - 1];
      assert (trace + more)[..|trace + more| - 1] == trace + front;
      FinishedIsFinal(trace, front, id);
      AlwaysConsistent(trace + front);
      StepOnRow(After(trace + front), more[|more| - 1], id);
    }
  }

  /** In every reachable state attempts stay within the maximum, a dead event has used them all, and a failed event
      has one left: at some later time it can be claimed again. */
  lemma AttemptsAreBounded(trace: seq<Step>, id: Id)
    requires Possible(trace) && id in After(trace).rows
    ensures var r := After(trace).rows[id];
            && 0 <= r.attempts <= r.maxAttempts && 1 <= r.maxAttempts
            && (r.status == Dead ==> r.attempts == r.maxAttempts)
            && (r.status == Failed || r.status == Pending ==> r.attempts < r.maxAttempts && exists now :: Claimable(r, now))
  {
    AlwaysConsistent(trace);
    var r := After(trace).rows[id];
    var now := if r.nextRetryAt == None then 0 else r.nextRetryAt.value;
    assert r.status == Failed || r.status == Pending ==> Claimable(r, now);
  }

  /** A new event can be claimed at any time, and has three attempts unless it asks for others. */
  lemma NewEventIsDue(trace: seq<Step>, id: Id, maxAttempts: int)
    requires Possible(trace) && id !in After(trace).rows && maxAttempts >= 0
    ensures Possible(trace + [Enqueue(id, maxAttempts)])
    ensures var s := After(trace + [Enqueue(id, maxAttempts)]);
            && id in s.rows && s.rows[id].attempts == 0
            && s.rows[id].maxAttempts == (if maxAttempts == 0 then 3 else maxAttempts)
            && forall now :: Claimable(s.rows[id], now)
  {
    assert (trace + [Enqueue(id, maxAttempts)])[..|trace|] == trace;
  }

  /** A failure uses one attempt; the last leaves the event dead, any other lets it be claimed from the time it sets. */
  lemma FailureWaits(trace: seq<Step>, run: RunId, at: Time)
    requires Possible(trace) && Possible(trace + [Fail(run, at)])
    ensures run in After(trace).runs && After(trace).runs[run].held != []
    ensures var event, s := After(trace).runs[run].held[0], After(trace + [Fail(run, at)]);
            && event.id in s.rows
            && var r := s.rows[event.id];
               r.attempts == event.attempts + 1 && r.maxAttempts == event.maxAttempts
               && if r.attempts == r.maxAttempts then r.status == Dead && forall now :: !Claimable(r, now)
                  else r.status == Failed && forall now :: Claimable(r, now) <==> at <= now
  {
    assert (trace + [Fail(run, at)])[..|trace|] == trace;
    var s := After(trace);
    AlwaysConsistent(trace);
    MarksHit(s, run);
    assert GoodRow(s.rows[s.runs[run].held[0].id]);
    hide Consistent;
  }

  /** A failed event is claimed no sooner than some failure allowed. */
  lemma {:induction false} FailedWaits(trace: seq<Step>, id: Id)
    requires Possible(trace) && id in After(trace).rows && After(trace).rows[id].status == Failed
    ensures exists run, at :: Fail(run, at) in trace && forall now :: Claimable(After(trace).rows[id], now) <==> at <= now
    decreases |trace|
  {
    var front, step := trace[..|trace| - 1], trace[|trace| - 1];
    assert trace == front + [step];
    AlwaysConsistent(front);
    if id in After(front).rows && After(front).rows[id] == After(trace).rows[id] {
      FailedWaits(front, id);
    } else {
      if id in After(front).rows {
        StepOnRow(After(front), step, id);
      }
      assert step.Fail?;
      FailureWaits(front, step.run, step.retryAt);
      assert Fail(step.run, step.retryAt) in trace;
    }
  }

  /** A claim takes distinct events that are due and have an attempt left: at most as many as were asked for, never over 100,
      and up to 20 when the number asked for is not positive. */
  lemma ClaimTakesDue(s: State, run: RunId, ids: seq<Id>, now: Time, limit: int)
    ensures Enabled(s, Claim(run, ids, now, limit)) <==>
              && run !in s.runs && |ids| <= 100 && (if limit <= 0 then |ids| <= 20 else |ids| <= limit)
              && (forall i, j :: 0 <= i < j < |ids| ==> ids[i] != ids[j])
              && forall id :: id in ids ==>
                   && id in s.rows && (s.rows[id].status == Pending || s.rows[id].status == Failed)
                   && s.rows[id].attempts < s.rows[id].maxAttempts
                   && (s.rows[id].nextRetryAt.Some? ==> s.rows[id].nextRetryAt.value <= now)
  {
  }

  /** How many steps of the trace claim or mark event `id`. */
  ghost function MoveCount(trace: seq<Step>, id: Id): nat
    requires Possible(trace)
  {
    if trace == [] then 0
    else
      var front := trace[..|trace| - 1];
      MoveCount(front, id) + if Moves(After(front), trace[|trace| - 1], id) then 1 else 0
  }

  /** However the workers interleave, an event is claimed and marked at most 2 * max_attempts times in all. */
  lemma {:induction false} MovesAreBounded(trace: seq<Step>, id: Id)
    requires Possible(trace)
    ensures id !in After(trace).rows ==> MoveCount(trace, id) == 0
    ensures id in After(trace).rows ==>
              0 <= Rank(After(trace).rows[id]) && MoveCount(trace, id) + Rank(After(trace).rows[id]) <= 2 * After(trace).rows[id].maxAttempts
    decreases |trace|
  {
    if trace != [] {
      var front, step := trace[..|trace| - 1], trace[|trace| - 1];
      MovesAreBounded(front, id);
      AlwaysConsistent(front);
      AlwaysConsistent(trace);
      if id in After(front).rows {
        StepOnRow(After(front), step, id);
      } else {
        MovesNeedRow(After(front), step, id);
      }
    }
  }

  lemma MovesNeedRow(s: State, step: Step, id: Id)
    requires Consistent(s) && Enabled(s, step) && id !in s.rows
    ensures !Moves(s, step, id)
    ensures id in Next(s, step).rows ==> Rank(Next(s, step).rows[id]) == 2 * Next(s, step).rows[id].maxAttempts
  {
    if step.Succeed? || step.Fail? {
      MarksHit(s, step.run);
      MarkAdvances(s, step);
    }
  }

  // ---------- how often the consumer runs ----------

  lemma CallsAfterConsume(s: State, run: RunId)
    requires Consistent(s) && CallsAreBounded(s) && Enabled(s, Consume(run))
    ensures CallsAreBounded(Next(s, Consume(run)))
  {
    var t := Next(s, Consume(run));
    var id := s.runs[run].held[0].id;
    MarksHit(s, run);
    assert Holds(s, run, 0, id) && Holds(t, run, 0, id);
    assert !MarkDue(s, id);
    forall k | k != id && MarkDue(s, k) ensures MarkDue(t, k) {
      var r :| Holds(s, r, 0, k) && s.runs[r].consumed;
      assert Holds(t, r, 0, k);
    }
  }

  lemma CallsAfterMark(s: State, step: Step)
    requires Consistent(s) && CallsAreBounded(s) && Enabled(s, step) && (step.Succeed? || step.Fail?)
    ensures CallsAreBounded(Next(s, step))
  {
    var t := Next(s, step);
    MarksHit(s, step.run);
    MarkAdvances(s, step);
    var id := s.runs[step.run].held[0].id;
    forall k | k != id && MarkDue(s, k) ensures MarkDue(t, k) {
      var r :| Holds(s, r, 0, k) && s.runs[r].consumed;
      assert Holds(t, r, 0, k);
    }
  }

  lemma CallsOtherwise(s: State, step: Step)
    requires Consistent(s) && CallsAreBounded(s) && Enabled(s, step) && (step.Enqueue? || step.Claim? || step.Stop?)
    ensures CallsAreBounded(Next(s, step))
  {
    var t := Next(s, step);
    forall k | MarkDue(s, k) ensures MarkDue(t, k) {
      var r :| Holds(s, r, 0, k) && s.runs[r].consumed;
      assert Holds(t, r, 0, k);
    }
  }

  lemma {:induction false} CallsAlwaysBounded(trace: seq<Step>)
    requires Possible(trace)
    ensures CallsAreBounded(After(trace))
    decreases |trace|
  {
    if trace != [] {
      var front, step := trace[..|trace| - 1], trace[|trace| - 1];
      CallsAlwaysBounded(front);
      AlwaysConsistent(front);
      if step.Consume? {
        CallsAfterConsume(After(front), step.run);
      } else if step.Succeed? || step.Fail? {
        CallsAfterMark(After(front), step);
      } else {
        CallsOtherwise(After(front), step);
      }
    }
  }

  /** How often, in the trace, the consumer has run for event `id`. */
  ghost function CallCount(trace: seq<Step>, id: Id): nat
    requires Possible(trace)
  {
    if trace == [] then 0
    else
      var front, step := trace[..|trace| - 1], trace[|trace| - 1];
      CallCount(front, id) + if step.Consume? && After(front).runs[step.run].held[0].id == id then 1 else 0
  }

  lemma {:induction false} CallsAreCounted(trace: seq<Step>, id: Id)
    requires Possible(trace)
    ensures CallsOf(After(trace), id) == CallCount(trace, id)
    decreases |trace|
  {
    if trace != [] {
      CallsAreCounted(trace[..|trace| - 1], id);
    }
  }

  /** The consumer runs at most max_attempts times for an event, whichever workers run it. */
  lemma ConsumerRunsAtMostMaxAttempts(trace: seq<Step>, id: Id)
    requires Possible(trace)
    ensures CallCount(trace, id) > 0 ==> id in After(trace).rows && CallCount(trace, id) <= After(trace).rows[id].maxAttempts
  {
    CallsAreCounted(trace, id);
    AlwaysConsistent(trace);
    CallsAlwaysBounded(trace);
    var s := After(trace);
    if MarkDue(s, id) {
      var run :| Holds(s, run, 0, id) && s.runs[run].consumed;
      assert s.rows[id].status == Processing;
    }
  }

  /** There is no recovery: what a stopped run holds stays `processing` for good. */
  lemma {:induction false} AbandonedStaysProcessing(trace: seq<Step>, more: seq<Step>, run: RunId, i: nat, id: Id)
    requires Possible(trace) && Possible(trace + more)
    requires Holds(After(trace), run, i, id) && After(trace).runs[run].stopped
    ensures var s := After(trace + more);
            Holds(s, run, i, id) && s.runs[run].stopped && id in s.rows && s.rows[id].status == Processing
    decreases |more|
  {
    AlwaysConsistent(trace + more);
    if more == [] {
      assert trace + more == trace;
    } else {
      var front := more[..|more| - 1];
      assert (trace + more)[..|trace + more| - 1] == trace + front;
      AbandonedStaysProcessing(trace, front, run, i, id);
    }
  }

  // ---------- the worker ----------

  predicate BelongsTo(step: Step, run: RunId) {
    !step.Enqueue? && step.run == run
  }

  function Mine(run: RunId): Step -> bool {
    step => BelongsTo(step, run)
  }

  /** The steps of others leave a run alone. */
  lemma {:induction false} OthersLeaveRun(trace: seq<Step>, more: seq<Step>, run: RunId)
    requires Possible(trace) && Possible(trace + more)
    requires forall step :: step in more ==> !BelongsTo(step, run)
    ensures var s, t := After(trace), After(trace + more);
            (run in t.runs <==> run in s.runs) && (run in s.runs ==> t.runs[run] == s.runs[run])
    decreases |more|
  {
    if more == [] {
      assert trace + more == trace;
    } else {
      var front := more[..|more| - 1];
      assert (trace + more)[..|trace + more| - 1] == trace + front;
      OthersLeaveRun(trace, front, run);
      AlwaysConsistent(trace + front);
      var step := more[|more| - 1];
      assert step in more;
      if step.Succeed? || step.Fail? {
        MarkAdvances(After(trace + front), step);
      }
    }
  }

  /** How one event fares: the tenant cannot be resolved, `Consume` itself fails, it leaves nothing to retry
      (sent, ignored, or no error), or it reports an error. */
  datatype Outcome = Unresolved | ConsumerFails | Consumed | ReportsError

  /** The steps a run takes for one event, by how it fares. */
  function StepsFor(run: RunId, outcome: Outcome, now: Time): seq<Step> {
    match outcome
    case Unresolved => [Fail(run, now + 60)]
    case ConsumerFails => [Consume(run), Stop(run)]
    case Consumed => [Consume(run), Succeed(run)]
    case ReportsError => [Consume(run), Fail(run, now + 60)]
  }

  function MarkFor(run: RunId, outcome: Outcome, now: Time): Step {
    match outcome
    case ConsumerFails => Stop(run)
    case Consumed => Succeed(run)
    case _ => Fail(run, now + 60)
  }

  /** The steps for the first `n` events. */
  function AllSteps(run: RunId, outcome: nat -> Outcome, clock: nat -> Time, n: nat): seq<Step> {
    if n == 0 then [] else AllSteps(run, outcome, clock, n - 1) + StepsFor(run, outcome(n - 1), clock(n - 1))
  }

  /** The status an event is left in. */
  function StatusAfter(event: Claimed, outcome: Outcome): Status {
    match outcome
    case ConsumerFails => Processing
    case Consumed => Succeeded
    case _ => if event.attempts + 1 >= event.maxAttempts then Dead else Failed
  }

  /** The table, with the trace of the steps that led to it. */
  class OutboxStore {
    var rows: map<Id, Row>
    ghost var runs: map<RunId, Run>
    ghost var calls: map<Id, nat>
    ghost var trace: seq<Step>

    ghost predicate Tracked()
      reads this
    {
      Reach(trace) == Some(State(rows, runs, calls))
    }

    /** What a run has done so far. */
    ghost function Steps(run: RunId): seq<Step>
      reads this
    {
      Own(trace, Mine(run))
    }

    constructor ()
      ensures Tracked() && rows == map[] && trace == []
    {
      rows, runs, calls, trace := map[], map[], map[], [];
    }

    /** The row bookkeeping of a step, once the rows themselves have been written. */
    ghost method Record(step: Step)
      requires Reach(trace).Some? && runs == After(trace).runs && calls == After(trace).calls
      requires Enabled(After(trace), step) && rows == Next(After(trace), step).rows
      modifies this`runs, this`calls, this`trace
      ensures Tracked() && trace == old(trace) + [step]
      ensures runs == Next(After(old(trace)), step).runs
      ensures !step.Enqueue? ==> Steps(step.run) == old(Steps(step.run)) + [step]
    {
      if !step.Enqueue? {
        OwnMore(trace, step, Mine(step.run));
      }
      var s := Next(After(trace), step);
      runs, calls := s.runs, s.calls;
      assert (trace + [step])[..|trace|] == trace;
      trace := trace + [step];
    }

    method Enqueue(id: Id, maxAttempts: int)
      requires Tracked()
      modifies this
      ensures Tracked() && trace == old(trace) + [Step.Enqueue(id, maxAttempts)]
      ensures rows == if id in old(rows) || maxAttempts < 0 then old(rows) else old(rows)[id := EnqueueRow(maxAttempts)]
    {
      if id !in rows && maxAttempts >= 0 {
        rows := rows[id := EnqueueRow(maxAttempts)];
      }
      Record(Step.Enqueue(id, maxAttempts));
    }

    method UpdateSucceeded(id: Id) returns (found: bool)
      modifies this`rows
      ensures found == (id in old(rows))
      ensures rows == if found then old(rows)[id := MarkSucceededRow(old(rows)[id])] else old(rows)
    {
      found := id in rows;
      if found {
        rows := rows[id := MarkSucceededRow(rows[id])];
      }
    }

    method UpdateFailed(id: Id, retryAt: Time) returns (found: bool)
      modifies this`rows
      ensures found == (id in old(rows) && old(rows)[id].status == Processing)
      ensures found == (id in old(rows) && MarkFailedRow(old(rows)[id], retryAt).Some?)
      ensures !found ==> rows == old(rows)
      ensures found ==> var r := old(rows)[id];
                        rows == old(rows)[id := Row(Failed, if r.attempts < r.maxAttempts then r.attempts + 1 else r.maxAttempts,
                                                    r.maxAttempts, Some(retryAt))]
    {
      found := id in rows && rows[id].status == Processing;
      if found {
        rows := rows[id := MarkFailedRow(rows[id], retryAt).value];
      }
    }

    method UpdateDead(id: Id) returns (found: bool)
      modifies this`rows
      ensures found == (id in old(rows))
      ensures rows == if found then old(rows)[id := MarkDeadRow(old(rows)[id])] else old(rows)
    {
      found := id in rows;
      if found {
        rows := rows[id := MarkDeadRow(rows[id])];
      }
    }

    /** Anything other workers may do in between. */
    method Others(run: RunId)
      requires Tracked()
      modifies this
      ensures Tracked() && old(trace) <= trace
      ensures forall step :: step in trace[|old(trace)|..] ==> !BelongsTo(step, run)
    {
    }

    /** The same, with what it leaves alone. */
    method Interleave(run: RunId)
      requires Tracked()
      modifies this
      ensures Tracked() && old(trace) <= trace
      ensures (run in runs <==> run in old(runs)) && (run in old(runs) ==> runs[run] == old(runs)[run])
      ensures Steps(run) == old(Steps(run))
    {
      ghost var before := trace;
      Others(run);
      OwnOthers(before, trace, Mine(run));
      assert trace == before + trace[|before|..];
      OthersLeaveRun(before, trace[|before|..], run);
    }

    method ClaimPending(run: RunId, limit: int, now: Time, pick: map<Id, Row> -> seq<Id>) returns (events: seq<Claimed>)
      requires Tracked() && run !in runs
      requires forall state: State :: run !in state.runs ==> Enabled(state, Claim(run, pick(state.rows), now, limit))
      modifies this
      ensures Tracked() && trace == old(trace) + [Claim(run, pick(old(rows)), now, limit)]
      ensures forall id :: id in pick(old(rows)) ==> id in old(rows)
      ensures events == Snapshot(old(rows), pick(old(rows))) && rows == ClaimRows(old(rows), pick(old(rows)))
      ensures run in runs && runs[run] == Run(events, false, false)
      ensures Steps(run) == old(Steps(run)) + [Claim(run, pick(old(rows)), now, limit)]
    {
      var ids := pick(rows);
      assert Enabled(State(rows, runs, calls), Claim(run, ids, now, limit));
      events := Snapshot(rows, ids);
      rows := ClaimRows(rows, ids);
      Record(Claim(run, ids, now, limit));
    }

    /** Marks the first event held as failed or dead; in a reachable state the statement never misses its row. */
    method FailOutboxEvent(run: RunId, event: Claimed, now: Time) returns (found: bool)
      requires Tracked() && Active(State(rows, runs, calls), run) && runs[run].held[0] == event
      modifies this
      ensures Tracked() && old(trace) <= trace && found
      ensures run in runs && runs[run] == Run(old(runs)[run].held[1..], false, false)
      ensures Steps(run) == old(Steps(run)) + [Fail(run, now + 60)]
      ensures event.id in rows && rows[event.id].status == if event.attempts + 1 >= event.maxAttempts then Dead else Failed
      ensures rows == old(rows)[event.id := if event.attempts + 1 >= event.maxAttempts
                                            then Row(Dead, event.maxAttempts, event.maxAttempts, None)
                                            else Row(Failed, event.attempts + 1, event.maxAttempts, Some(now + 60))]
    {
      AlwaysConsistent(trace);
      MarksHit(State(rows, runs, calls), run);
      var retryAt := now + 60;
      if event.attempts + 1 >= event.maxAttempts {
        found := UpdateDead(event.id);
      } else {
        found := UpdateFailed(event.id, retryAt);
      }
      Record(Fail(run, retryAt));
    }

    /** Handles the first event held; `ok` is false when the consumer itself fails, and the run then stops. */
    method ConsumeOutboxEvent(run: RunId, event: Claimed, outcome: Outcome, now: Time) returns (ok: bool)
      requires Tracked() && Active(State(rows, runs, calls), run)
      requires runs[run].held[0] == event && !runs[run].consumed
      modifies this
      ensures Tracked() && old(trace) <= trace && run in runs
      ensures ok == (outcome != ConsumerFails)
      ensures runs[run] == if ok then Run(old(runs)[run].held[1..], false, false) else Run(old(runs)[run].held, true, true)
      ensures Steps(run) == old(Steps(run)) + StepsFor(run, outcome, now)
      ensures event.id in rows && rows[event.id].status == StatusAfter(event, outcome)
      ensures rows[event.id].status == Failed ==> rows[event.id].nextRetryAt == Some(now + 60)
    {
      hide Own, Next, Enabled, Reach;
      if outcome == Unresolved {
        var found := FailOutboxEvent(run, event, now);
        assert found;
        return true;
      }
      CallConsumer(run);
      Interleave(run);
      ok := MarkEvent(run, event, outcome, now);
      assert [Consume(run)] + [MarkFor(run, outcome, now)] == StepsFor(run, outcome, now);
    }

    ghost method CallConsumer(run: RunId)
      requires Tracked() && Active(State(rows, runs, calls), run) && !runs[run].consumed
      modifies this`runs, this`calls, this`trace
      ensures Tracked() && trace == old(trace) + [Consume(run)] && Steps(run) == old(Steps(run)) + [Consume(run)]
      ensures run in runs && runs[run] == Run(old(runs)[run].held, true, false)
    {
      Record(Consume(run));
    }

    /** What follows the consumer: the mark, or the end of the run. */
    method MarkEvent(run: RunId, event: Claimed, outcome: Outcome, now: Time) returns (ok: bool)
      requires Tracked() && Active(State(rows, runs, calls), run)
      requires runs[run].held[0] == event && runs[run].consumed && outcome != Unresolved
      modifies this
      ensures Tracked() && old(trace) <= trace && run in runs
      ensures ok == (outcome != ConsumerFails)
      ensures runs[run] == if ok then Run(old(runs)[run].held[1..], false, false) else Run(old(runs)[run].held, true, true)
      ensures Steps(run) == old(Steps(run)) + [MarkFor(run, outcome, now)]
      ensures event.id in rows && rows[event.id].status == StatusAfter(event, outcome)
      ensures rows[event.id].status == Failed ==> rows[event.id].nextRetryAt == Some(now + 60)
    {
      hide Own;
      AlwaysConsistent(trace);
      MarksHit(State(rows, runs, calls), run);
      hide Consistent;
      match outcome {
        case ConsumerFails =>
          Record(Step.Stop(run));
          return false;
        case Consumed =>
          var found := UpdateSucceeded(event.id);
          assert found;
          Record(Succeed(run));
        case ReportsError =>
          var found := FailOutboxEvent(run, event, now);
          assert found;
      }
      return true;
    }

    /** One round of a worker. Every mark it makes hits its row; if it comes to the end, nothing it claimed is left
        unmarked; it takes exactly the steps that the outcomes call for, in the order of the claim; and whatever it
        and the others did is a trace of the protocol. */
    method RunOnce(run: RunId, limit: int, now: Time, pick: map<Id, Row> -> seq<Id>, outcome: nat -> Outcome, clock: nat -> Time)
      returns (done: nat, completed: bool, ghost ids: seq<Id>)
      requires Tracked() && run !in runs
      requires forall state: State :: run !in state.runs ==> Enabled(state, Claim(run, pick(state.rows), now, limit))
      modifies this
      ensures Tracked() && old(trace) <= trace
      ensures run in runs && (completed ==> runs[run].held == [] && done == |ids|)
      ensures !completed ==> runs[run].stopped && runs[run].held != [] && outcome(done) == ConsumerFails
      ensures forall k :: 0 <= k < done ==> outcome(k) != ConsumerFails
      ensures Steps(run) == old(Steps(run)) + [Claim(run, ids, now, limit)]
                            + AllSteps(run, outcome, clock, if completed then done else done + 1)
    {
      hide Own, Next, Reach, ClaimRows, StepsFor, AllSteps, Enabled;
      Interleave(run);
      ids := pick(rows);
      var events := ClaimPending(run, limit, now, pick);
      done, completed := ConsumeAll(run, events, outcome, clock);
    }

    /** The loop over the claimed events. */
    method ConsumeAll(run: RunId, events: seq<Claimed>, outcome: nat -> Outcome, clock: nat -> Time)
      returns (done: nat, completed: bool)
      requires Tracked() && run in runs && runs[run] == Run(events, false, false)
      modifies this
      ensures Tracked() && old(trace) <= trace
      ensures run in runs && (completed ==> runs[run].held == [] && done == |events|)
      ensures !completed ==> runs[run].stopped && runs[run].held != [] && outcome(done) == ConsumerFails
      ensures forall k :: 0 <= k < done ==> outcome(k) != ConsumerFails
      ensures Steps(run) == old(Steps(run)) + AllSteps(run, outcome, clock, if completed then done else done + 1)
    {
      hide Own, Next, Reach, StepsFor, AllSteps, Enabled, StatusAfter;
      ghost var start := Steps(run);
      done := 0;
      NoStepsYet(run, outcome, clock, start);
      while done < |events|
        invariant done <= |events|
        invariant Tracked() && old(trace) <= trace
        invariant run in runs && runs[run] == Run(events[done..], false, false)
        invariant forall k :: 0 <= k < done ==> outcome(k) != ConsumerFails
        invariant Steps(run) == start + AllSteps(run, outcome, clock, done)
      {
        Interleave(run);
        assert events[done..][1..] == events[done + 1..];
        var ok := ConsumeOutboxEvent(run, events[done], outcome(done), clock(done));
        MoreSteps(run, outcome, clock, done, start);
        if !ok {
          return done, false;
        }
        done := done + 1;
      }
      completed := true;
    }
  }

  lemma NoStepsYet(run: RunId, outcome: nat -> Outcome, clock: nat -> Time, start: seq<Step>)
    ensures start + AllSteps(run, outcome, clock, 0) == start
  {
  }

  lemma MoreSteps(run: RunId, outcome: nat -> Outcome, clock: nat -> Time, n: nat, start: seq<Step>)
    ensures start + AllSteps(run, outcome, clock, n) + StepsFor(run, outcome(n), clock(n))
         == start + AllSteps(run, outcome, clock, n + 1)
  {
    hide StepsFor;
  }
}
