/** Uploading and deleting assets of one organization (internal/modules/asset/service/asset_service.go,
    internal/modules/asset/repository/asset_repository.go).

    An upload checks the quota, puts the object, then inserts the row; a failed insert deletes the object again. A
    deletion reads the row, marks it deleted, then deletes the object as well as it can. Each call on the storage and
    each statement is one atomic step, uploads and deletions interleave freely, and each may stop between any two
    steps. Keys are random, so a new key has never been generated before. */
module AssetStore {
  import opened Traces
  import opened Wrappers

  type Key = string
  type AssetId = nat
  type UploadId = nat
  type DeleteId = nat

  const MAX_OBJECT_SIZE_BYTES := 10 * 1024 * 1024

  /** A row of `asset_objects`; deletion only sets `deleted_at`. */
  datatype Row = Row(key: Key, size: int, deleted: bool)

  type Rows = map<AssetId, Row>

  /** Where an upload stands: past the quota check, with its object put, about to delete the object of a failed
      insert, or over. */
  datatype Phase = Checked | Stored(key: Key) | Cleaning(key: Key) | Created(asset: AssetId) | Over

  datatype Upload = Upload(size: int, phase: Phase)

  /** Where a deletion stands: holding the row it read, or past marking that row deleted. */
  datatype Deletion = Holding(asset: AssetId, key: Key) | Unlinked(key: Key) | Finished

  /** `objects`: the keys that have an object. `keys`: the keys generated so far. */
  datatype State = State(
    objects: set<Key>, rows: Rows, keys: set<Key>, uploads: map<UploadId, Upload>, deletions: map<DeleteId, Deletion>)

  const INITIAL := State({}, map[], {}, map[], map[])

  /** `limit` is None when no limit is set, none can be read, or it is invalid; `landing` is the usage of landing media.
      `stored` and `removed` say whether the storage did the work, whatever it answered. */
  datatype Step =
    | Check(upload: UploadId, size: int, limit: Option<int>, landing: int)
    | Put(upload: UploadId, key: Key, stored: bool, ok: bool)
    | Create(upload: UploadId, asset: AssetId, ok: bool)
    | Cleanup(upload: UploadId, removed: bool)
    | StopUpload(upload: UploadId)
    | Get(deletion: DeleteId, asset: AssetId)
    | Unlink(deletion: DeleteId)
    | Purge(deletion: DeleteId, removed: bool)

  predicate Live(rows: Rows, asset: AssetId) {
    asset in rows && !rows[asset].deleted
  }

  // ---------- usage ----------

  /** Sum of the values of a map. */
  ghost function Total(m: map<nat, int>): int {
    if m == map[] then 0
    else
      var k :| k in m;
      m[k] + Total(m - {k})
  }

  lemma {:induction false} TotalSplits(m: map<nat, int>, k: nat)
    requires k in m
    ensures Total(m) == m[k] + Total(m - {k})
    decreases |m|
  {
    var j :| j in m && Total(m) == m[j] + Total(m - {j});
    if j != k {
      TotalSplits(m - {j}, k);
      TotalSplits(m - {k}, j);
      assert m - {j} - {k} == m - {k} - {j};
    }
  }

  lemma TotalWith(m: map<nat, int>, k: nat, x: int)
    requires k !in m
    ensures Total(m[k := x]) == Total(m) + x
  {
    TotalSplits(m[k := x], k);
    assert m[k := x] - {k} == m;
  }

  lemma SizeWith(m: map<nat, int>, k: nat, x: int)
    requires k !in m
    ensures |m[k := x]| == |m| + 1
  {
    assert m[k := x].Keys == m.Keys + {k};
  }

  lemma Grows(n: nat, most: nat)
    ensures (n + 1) * most == n * most + most
  {
  }

  ghost predicate AllWithin(m: map<nat, int>, most: nat) {
    forall k :: k in m ==> 0 <= m[k] <= most
  }

  lemma {:induction false} TotalIsBounded(m: map<nat, int>, most: nat)
    requires AllWithin(m, most)
    ensures 0 <= Total(m) <= |m| * most
    decreases |m|
  {
    if m != map[] {
      var k :| k in m;
      var rest := m - {k};
      TotalSplits(m, k);
      assert m == rest[k := m[k]];
      SizeWith(rest, k, m[k]);
      TotalIsBounded(rest, most);
      Grows(|rest|, most);
    }
  }

  ghost function LiveSizes(rows: Rows): map<nat, int> {
    map a | a in rows && !rows[a].deleted :: rows[a].size
  }

  /** `SumSizeBytes`. */
  ghost function AssetBytes(rows: Rows): int {
    Total(LiveSizes(rows))
  }

  /** `checkQuota` lets the upload through. */
  ghost predicate WithinQuota(rows: Rows, size: int, limit: Option<int>, landing: int) {
    limit == None || AssetBytes(rows) + landing + size <= limit.value
  }

  // ---------- the steps ----------

  ghost predicate Enabled(s: State, step: Step) {
    match step
    case Check(upload, size, _, _) => upload !in s.uploads && size <= MAX_OBJECT_SIZE_BYTES
    case Put(upload, key, stored, ok) =>
      upload in s.uploads && s.uploads[upload].phase.Checked? && key !in s.keys && (ok ==> stored)
    case Create(upload, asset, ok) =>
      && upload in s.uploads && s.uploads[upload].phase.Stored? && asset !in s.rows
      && (ok ==> s.uploads[upload].size > 0)
    case Cleanup(upload, _) => upload in s.uploads && s.uploads[upload].phase.Cleaning?
    case StopUpload(upload) => upload in s.uploads
    case Get(deletion, asset) => deletion !in s.deletions && Live(s.rows, asset)
    case Unlink(deletion) => deletion in s.deletions && s.deletions[deletion].Holding?
    case Purge(deletion, _) => deletion in s.deletions && s.deletions[deletion].Unlinked?
  }

  function Moved(s: State, upload: UploadId, phase: Phase): State
    requires upload in s.uploads
  {
    s.(uploads := s.uploads[upload := s.uploads[upload].(phase := phase)])
  }

  function MarkDeleted(rows: Rows, asset: AssetId): Rows {
    if asset in rows then rows[asset := rows[asset].(deleted := true)] else rows
  }

  ghost function Next(s: State, step: Step): State
    requires Enabled(s, step)
  {
    match step
    case Check(upload, size, limit, landing) =>
      s.(uploads := s.uploads[upload := Upload(size, if WithinQuota(s.rows, size, limit, landing) then Checked else Over)])
    case Put(upload, key, stored, ok) =>
      Moved(s, upload, if ok then Stored(key) else Over)
      .(keys := s.keys + {key}, objects := if stored then s.objects + {key} else s.objects)
    case Create(upload, asset, ok) =>
      var u := s.uploads[upload];
      if ok then Moved(s, upload, Created(asset)).(rows := s.rows[asset := Row(u.phase.key, u.size, false)])
      else Moved(s, upload, Cleaning(u.phase.key))
    case Cleanup(upload, removed) =>
      Moved(s, upload, Over).(objects := if removed then s.objects - {s.uploads[upload].phase.key} else s.objects)
    case StopUpload(upload) => Moved(s, upload, Over)
    case Get(deletion, asset) => s.(deletions := s.deletions[deletion := Holding(asset, s.rows[asset].key)])
    case Unlink(deletion) =>
      var d := s.deletions[deletion];
      if Live(s.rows, d.asset)
      then s.(rows := MarkDeleted(s.rows, d.asset), deletions := s.deletions[deletion := Unlinked(d.key)])
      else s.(deletions := s.deletions[deletion := Finished])
    case Purge(deletion, removed) =>
      s.(deletions := s.deletions[deletion := Finished],
         objects := if removed then s.objects - {s.deletions[deletion].key} else s.objects)
  }

  ghost function Reach(trace: seq<Step>): Option<State> {
    if trace == [] then Some(INITIAL)
    else
      var before := Reach(trace[..|trace| - 1]);
      var step := trace[|trace| - 1];
      if before.Some? && Enabled(before.value, step) then Some(Next(before.value, step)) else None
  }

  ghost predicate Possible(trace: seq<Step>) {
    Reach(trace).Some?
  }

  ghost function After(trace: seq<Step>): State
    requires Possible(trace)
  {
    Reach(trace).value
  }

  // ---------- no row without its object ----------

  ghost predicate RowHas(rows: Rows, asset: AssetId, key: Key) {
    Live(rows, asset) && rows[asset].key == key
  }

  ghost predicate UploadHas(s: State, upload: UploadId, key: Key) {
    upload in s.uploads && s.uploads[upload].phase == Stored(key)
  }

  /** Somebody is about to delete the object. */
  ghost predicate Condemned(s: State, key: Key) {
    || (exists u :: u in s.uploads && s.uploads[u].phase == Cleaning(key))
    || (exists d :: d in s.deletions && s.deletions[d] == Unlinked(key))
  }

  ghost predicate HolderOf(s: State, deletion: DeleteId, asset: AssetId, key: Key) {
    deletion in s.deletions && s.deletions[deletion] == Holding(asset, key)
  }

  ghost predicate Safe(s: State, key: Key) {
    key in s.keys && key in s.objects && !Condemned(s, key)
  }

  ghost predicate RowsAreSafe(s: State) {
    && (forall a, key :: RowHas(s.rows, a, key) ==> Safe(s, key) && s.rows[a].size > 0)
    && (forall a, b, key :: RowHas(s.rows, a, key) && RowHas(s.rows, b, key) ==> a == b)
  }

  ghost predicate UploadsAreSafe(s: State) {
    && (forall u, key :: UploadHas(s, u, key) ==> Safe(s, key))
    && (forall u, a, key :: UploadHas(s, u, key) ==> !RowHas(s.rows, a, key))
    && (forall u, v, key :: UploadHas(s, u, key) && UploadHas(s, v, key) ==> u == v)
  }

  ghost predicate HoldersAreRight(s: State) {
    && (forall d, a, key :: HolderOf(s, d, a, key) ==> a in s.rows && s.rows[a].key == key)
    && (forall key :: Condemned(s, key) ==> key in s.keys)
    && (forall d, a, key, u :: HolderOf(s, d, a, key) ==> !UploadHas(s, u, key))
    && (forall d, a, key :: HolderOf(s, d, a, key) ==> key in s.keys)
  }

  ghost predicate Consistent(s: State) {
    RowsAreSafe(s) && UploadsAreSafe(s) && HoldersAreRight(s)
  }

  lemma UploadStepKeeps(s: State, step: Step)
    requires Consistent(s) && Enabled(s, step)
    requires step.Check? || step.Put? || step.Cleanup? || step.StopUpload?
    ensures Consistent(Next(s, step))
  {
    hide WithinQuota;
    var t := Next(s, step);
    forall key | Condemned(t, key) ensures Condemned(s, key) {
    }
    forall u, key | UploadHas(t, u, key) ensures UploadHas(s, u, key) || (step.Put? && u == step.upload && key == step.key) {
    }
    forall d, a, key | HolderOf(t, d, a, key) ensures HolderOf(s, d, a, key) {
    }
    if step.Cleanup? {
      assert Condemned(s, s.uploads[step.upload].phase.key);
    }
  }

  lemma CreateKeeps(s: State, step: Step)
    requires Consistent(s) && Enabled(s, step) && step.Create?
    ensures Consistent(Next(s, step))
  {
    var t := Next(s, step);
    var key := s.uploads[step.upload].phase.key;
    assert UploadHas(s, step.upload, key);
    forall k | Condemned(t, k) ensures Condemned(s, k) || (!step.ok && k == key) {
    }
    forall u, k | UploadHas(t, u, k) ensures UploadHas(s, u, k) && k != key {
      assert u != step.upload && UploadHas(s, u, k);
    }
    forall d, a, k | HolderOf(t, d, a, k) ensures HolderOf(s, d, a, k) {
    }
    forall a, k | RowHas(t.rows, a, k) ensures RowHas(s.rows, a, k) || (step.ok && a == step.asset && k == key) {
    }
  }

  lemma DeletionStepKeeps(s: State, step: Step)
    requires Consistent(s) && Enabled(s, step) && (step.Get? || step.Unlink? || step.Purge?)
    ensures Consistent(Next(s, step))
  {
    var t := Next(s, step);
    forall a, k | RowHas(t.rows, a, k) ensures RowHas(s.rows, a, k) {
    }
    forall u, k | UploadHas(t, u, k) ensures UploadHas(s, u, k) {
    }
    forall d, a, k | HolderOf(t, d, a, k)
      ensures HolderOf(s, d, a, k) || (step.Get? && d == step.deletion && a == step.asset && RowHas(s.rows, a, k)) {
    }
    if step.Get? {
      assert RowHas(s.rows, step.asset, s.rows[step.asset].key);
      forall k | Condemned(t, k) ensures Condemned(s, k) {
      }
    } else if step.Unlink? {
      var d := s.deletions[step.deletion];
      assert HolderOf(s, step.deletion, d.asset, d.key);
      assert Live(s.rows, d.asset) ==> RowHas(s.rows, d.asset, d.key);
      forall k | Condemned(t, k) ensures Condemned(s, k) || (k == d.key && Live(s.rows, d.asset)) {
      }
    } else {
      assert Condemned(s, s.deletions[step.deletion].key);
      forall k | Condemned(t, k) ensures Condemned(s, k) {
      }
    }
  }

  lemma StepKeeps(s: State, step: Step)
    requires Consistent(s) && Enabled(s, step)
    ensures Consistent(Next(s, step))
  {
    hide Consistent, Next, Enabled;
    match step
    case Create(_, _, _) => CreateKeeps(s, step);
    case Get(_, _) => DeletionStepKeeps(s, step);
    case Unlink(_) => DeletionStepKeeps(s, step);
    case Purge(_, _) => DeletionStepKeeps(s, step);
    case _ => UploadStepKeeps(s, step);
  }

  lemma {:induction false} AlwaysConsistent(trace: seq<Step>)
    requires Possible(trace)
    ensures Consistent(After(trace))
    decreases |trace|
  {
    hide Next, Enabled;
    if trace != [] {
      AlwaysConsistent(trace[..|trace| - 1]);
      StepKeeps(After(trace[..|trace| - 1]), trace[|trace| - 1]);
    }
  }

  /** However uploads and deletions interleave, fail and stop, every live row has its object, and no two share one. */
  lemma EveryRowHasItsObject(trace: seq<Step>, asset: AssetId)
    requires Possible(trace) && Live(After(trace).rows, asset)
    ensures var s := After(trace);
            && s.rows[asset].key in s.objects && s.rows[asset].size > 0
            && forall other :: Live(s.rows, other) && s.rows[other].key == s.rows[asset].key ==> other == asset
  {
    AlwaysConsistent(trace);
    var s := After(trace);
    assert RowHas(s.rows, asset, s.rows[asset].key);
    forall other | Live(s.rows, other) && s.rows[other].key == s.rows[asset].key ensures other == asset {
      assert RowHas(s.rows, other, s.rows[asset].key);
    }
  }

  // ---------- usage against a limit ----------

  predicate InFlight(u: Upload) {
    u.phase.Checked? || u.phase.Stored?
  }

  function NotNegative(n: int): nat {
    if n < 0 then 0 else n
  }

  /** What the uploads in flight may still add. */
  ghost function Coming(uploads: map<UploadId, Upload>): map<nat, int> {
    map u | u in uploads && InFlight(uploads[u]) :: NotNegative(uploads[u].size)
  }

  lemma ComingWith(uploads: map<UploadId, Upload>, upload: UploadId, u: Upload)
    ensures Coming(uploads[upload := u])
         == if InFlight(u) then Coming(uploads)[upload := NotNegative(u.size)] else Coming(uploads) - {upload}
  {
  }

  ghost function Usage(s: State, landing: int): int {
    AssetBytes(s.rows) + landing
  }

  ghost function Committed(s: State, landing: int): int {
    Usage(s, landing) + Total(Coming(s.uploads))
  }

  /** The largest object that a check against the limit can let through. */
  function Largest(limit: int): nat {
    if limit < MAX_OBJECT_SIZE_BYTES then NotNegative(limit) else MAX_OBJECT_SIZE_BYTES
  }

  ghost predicate FlightFits(s: State, limit: int) {
    AllWithin(Coming(s.uploads), Largest(limit))
  }

  /** The most usage can reach. */
  function Ceiling(limit: int, k: nat): int {
    limit + (k - 1) * Largest(limit)
  }

  predicate SeesLimit(step: Step, limit: int, landing: nat) {
    step.Check? ==> step.limit == Some(limit) && step.landing == landing
  }

  lemma AcceptedFits(coming: map<nat, int>, upload: nat, usage: int, size: int, limit: int, k: nat)
    requires upload !in coming && |coming| < k && usage + size <= limit
    requires AllWithin(coming, Largest(limit)) && usage + Total(coming) <= Ceiling(limit, k)
    ensures usage + Total(coming[upload := NotNegative(size)]) <= Ceiling(limit, k)
  {
    TotalWith(coming, upload, NotNegative(size));
    if size >= 0 {
      TotalIsBounded(coming, Largest(limit));
      Scales(|coming|, k - 1, Largest(limit));
    }
  }

  lemma Scales(a: nat, b: nat, c: nat)
    requires a <= b
    ensures a * c <= b * c
  {
    assert b * c == a * c + (b - a) * c;
  }

  lemma CheckStaysBelow(s: State, step: Step, limit: int, landing: nat, k: nat)
    requires FlightFits(s, limit) && Enabled(s, step) && step.Check? && SeesLimit(step, limit, landing)
    requires Committed(s, landing) <= Ceiling(limit, k) && |Coming(Next(s, step).uploads)| <= k
    ensures Committed(Next(s, step), landing) <= Ceiling(limit, k)
  {
    hide Ceiling, Total;
    var accepted := WithinQuota(s.rows, step.size, Some(limit), landing);
    ComingWith(s.uploads, step.upload, Upload(step.size, if accepted then Checked else Over));
    hide Coming;
    if accepted {
      ComingHas(s.uploads, step.upload);
      SizeWith(Coming(s.uploads), step.upload, NotNegative(step.size));
      AcceptedFits(Coming(s.uploads), step.upload, Usage(s, landing), step.size, limit, k);
    } else {
      ComingShrinks(Coming(s.uploads), step.upload);
    }
  }

  lemma ComingHas(uploads: map<UploadId, Upload>, upload: UploadId)
    ensures upload in Coming(uploads) <==> upload in uploads && InFlight(uploads[upload])
    ensures upload in Coming(uploads) ==> Coming(uploads)[upload] == NotNegative(uploads[upload].size)
  {
  }

  lemma {:induction false} TotalIsNotNegative(m: map<nat, int>)
    requires forall k :: k in m ==> m[k] >= 0
    ensures Total(m) >= 0
    decreases |m|
  {
    if m != map[] {
      var k :| k in m;
      TotalSplits(m, k);
      TotalIsNotNegative(m - {k});
    }
  }

  /** Usage is never negative, so what passes a check fits the limit on its own. */
  lemma StepKeepsFlight(s: State, step: Step, limit: int, landing: nat)
    requires RowsAreSafe(s) && FlightFits(s, limit) && Enabled(s, step) && SeesLimit(step, limit, landing)
    ensures FlightFits(Next(s, step), limit)
  {
    forall a | a in LiveSizes(s.rows) ensures LiveSizes(s.rows)[a] >= 0 {
      assert RowHas(s.rows, a, s.rows[a].key);
    }
    TotalIsNotNegative(LiveSizes(s.rows));
    hide Total, LiveSizes, RowsAreSafe;
    var before, after := Coming(s.uploads), Coming(Next(s, step).uploads);
    forall u | u in after ensures 0 <= after[u] <= Largest(limit) {
      if !(step.Check? && u == step.upload) {
        assert u in before && after[u] == before[u];
      }
    }
  }

  /** An upload that leaves flight adds nothing more. */
  lemma ComingShrinks(coming: map<nat, int>, upload: nat)
    requires upload in coming ==> coming[upload] >= 0
    ensures Total(coming - {upload}) == Total(coming) - if upload in coming then coming[upload] else 0
    ensures Total(coming - {upload}) <= Total(coming)
  {
    if upload in coming {
      TotalSplits(coming, upload);
    } else {
      assert coming - {upload} == coming;
    }
  }

  lemma CreateStaysBelow(s: State, step: Step, limit: int, landing: nat, k: nat)
    requires Enabled(s, step) && step.Create? && Committed(s, landing) <= Ceiling(limit, k)
    ensures Committed(Next(s, step), landing) <= Ceiling(limit, k)
  {
    hide Ceiling, Total;
    var u := s.uploads[step.upload];
    ComingWith(s.uploads, step.upload, u.(phase := if step.ok then Created(step.asset) else Cleaning(u.phase.key)));
    ComingHas(s.uploads, step.upload);
    hide Coming;
    ComingShrinks(Coming(s.uploads), step.upload);
    if step.ok {
      SizesWith(s.rows, step.asset, Row(u.phase.key, u.size, false));
      TotalWith(LiveSizes(s.rows), step.asset, u.size);
    }
  }

  lemma SizesWith(rows: Rows, asset: AssetId, row: Row)
    ensures LiveSizes(rows[asset := row])
         == if row.deleted then LiveSizes(rows) - {asset} else LiveSizes(rows)[asset := row.size]
    ensures asset in LiveSizes(rows) <==> Live(rows, asset)
    ensures asset in LiveSizes(rows) ==> LiveSizes(rows)[asset] == rows[asset].size
  {
  }

  lemma UnlinkStaysBelow(s: State, step: Step, limit: int, landing: nat, k: nat)
    requires RowsAreSafe(s) && Enabled(s, step) && step.Unlink? && Committed(s, landing) <= Ceiling(limit, k)
    ensures Committed(Next(s, step), landing) <= Ceiling(limit, k)
  {
    hide Ceiling, Total, Coming;
    var t := Next(s, step);
    var a := s.deletions[step.deletion].asset;
    assert t.uploads == s.uploads;
    if Live(s.rows, a) {
      assert RowHas(s.rows, a, s.rows[a].key);
      SizesWith(s.rows, a, s.rows[a].(deleted := true));
      ComingShrinks(LiveSizes(s.rows), a);
    }
  }

  lemma OtherStepsStayBelow(s: State, step: Step, limit: int, landing: nat, k: nat)
    requires Enabled(s, step) && Committed(s, landing) <= Ceiling(limit, k)
    requires !step.Check? && !step.Create? && !step.Unlink?
    ensures Committed(Next(s, step), landing) <= Ceiling(limit, k)
  {
    hide Ceiling, Total, LiveSizes;
    var t := Next(s, step);
    assert t.rows == s.rows;
    if step.Get? || step.Purge? {
      assert t.uploads == s.uploads;
    } else {
      var u := s.uploads[step.upload];
      var v := t.uploads[step.upload];
      assert t.uploads == s.uploads[step.upload := v] && v.size == u.size && (InFlight(v) ==> InFlight(u));
      ComingWith(s.uploads, step.upload, v);
      ComingHas(s.uploads, step.upload);
      hide Coming;
      ComingShrinks(Coming(s.uploads), step.upload);
      assert InFlight(v) ==> Coming(s.uploads)[step.upload := NotNegative(u.size)] == Coming(s.uploads);
    }
  }

  lemma StepStaysBelow(s: State, step: Step, limit: int, landing: nat, k: nat)
    requires Consistent(s) && FlightFits(s, limit) && Enabled(s, step) && SeesLimit(step, limit, landing)
    requires Committed(s, landing) <= Ceiling(limit, k) && |Coming(Next(s, step).uploads)| <= k
    ensures Committed(Next(s, step), landing) <= Ceiling(limit, k) && FlightFits(Next(s, step), limit)
  {
    hide Enabled, Next, Committed, Ceiling, FlightFits;
    StepKeepsFlight(s, step, limit, landing);
    if step.Check? {
      CheckStaysBelow(s, step, limit, landing, k);
    } else if step.Create? {
      CreateStaysBelow(s, step, limit, landing, k);
    } else if step.Unlink? {
      UnlinkStaysBelow(s, step, limit, landing, k);
    } else {
      OtherStepsStayBelow(s, step, limit, landing, k);
    }
  }

  /** After `trace`, and after each step of `more`, at most `k` uploads are in flight. */
  ghost predicate FewInFlight(trace: seq<Step>, more: seq<Step>, k: nat)
    requires Possible(trace + more)
    decreases |more|
  {
    && |Coming(After(trace + more).uploads)| <= k
    && (more != [] ==>
          var front := more[..|more| - 1];
          assert (trace + more)[..|trace + more| - 1] == trace + front;
          FewInFlight(trace, front, k))
  }

  lemma {:induction false} CommittedStaysBelow(trace: seq<Step>, more: seq<Step>, limit: int, landing: nat, k: nat)
    requires Possible(trace) && Possible(trace + more) && FewInFlight(trace, more, k)
    requires Committed(After(trace), landing) <= Ceiling(limit, k) && FlightFits(After(trace), limit)
    requires forall step :: step in more ==> SeesLimit(step, limit, landing)
    ensures Committed(After(trace + more), landing) <= Ceiling(limit, k) && FlightFits(After(trace + more), limit)
    decreases |more|
  {
    hide Enabled, Next, Committed, Ceiling, FlightFits, Consistent;
    assert trace + [] == trace;
    if more != [] {
      var front, step := more[..|more| - 1], more[|more| - 1];
      assert (trace + more)[..|trace + more| - 1] == trace + front;
      assert step in more && forall x :: x in front ==> x in more;
      CommittedStaysBelow(trace, front, limit, landing, k);
      AlwaysConsistent(trace + front);
      StepStaysBelow(After(trace + front), step, limit, landing, k);
    }
  }

  /** The check and the insert are apart, so the limit can be passed, but not by much: starting within the limit, with
      nothing in flight, and with at most `k` uploads in flight at a time, usage stays within the limit plus
      `k - 1` times the largest object that fits the limit at all. One upload at a time never passes the limit. */
  lemma UsageStaysNearLimit(trace: seq<Step>, more: seq<Step>, limit: int, landing: nat, k: nat)
    requires k >= 1 && Possible(trace) && Possible(trace + more) && FewInFlight(trace, more, k)
    requires Usage(After(trace), landing) <= limit && Coming(After(trace).uploads) == map[]
    requires forall step :: step in more ==> SeesLimit(step, limit, landing)
    ensures Usage(After(trace + more), landing) <= limit + (k - 1) * Largest(limit)
    ensures Largest(limit) <= MAX_OBJECT_SIZE_BYTES
  {
    hide Enabled, Next, Reach, FewInFlight, SeesLimit;
    assert Total(Coming(After(trace).uploads)) == 0;
    CommittedStaysBelow(trace, more, limit, landing, k);
    TotalIsBounded(Coming(After(trace + more).uploads), Largest(limit));
  }

  // ---------- the bound is reached ----------

  ghost predicate Leads(trace: seq<Step>, s: State, limit: int, landing: nat, k: nat) {
    && Reach(trace) == Some(s) && Reach([] + trace) == Some(s) && FewInFlight([], trace, k)
    && forall step :: step in trace ==> SeesLimit(step, limit, landing)
  }

  lemma OneMore(trace: seq<Step>, s: State, step: Step, limit: int, landing: nat, k: nat)
    requires Leads(trace, s, limit, landing, k) && Enabled(s, step) && SeesLimit(step, limit, landing)
    requires |Coming(Next(s, step).uploads)| <= k
    ensures Leads(trace + [step], Next(s, step), limit, landing, k)
  {
    hide Next, Enabled, Coming;
    var longer := trace + [step];
    assert longer[..|longer| - 1] == trace;
    assert [] + longer == longer;
  }

  function KeyOf(i: nat): Key {
    seq(i, _ => 'k')
  }

  /** `k` uploads of one size have passed the check, and the first `n` of them are through. */
  ghost predicate IsCrowd(s: State, size: nat, k: nat, n: nat) {
    && (forall u: nat :: u in s.uploads <==> u < k)
    && (forall u :: u in s.uploads ==> s.uploads[u] == Upload(size, if u < n then Created(u) else Checked))
    && (forall a :: a in s.rows ==> a < n)
    && (forall key :: key in s.keys ==> |key| < n)
    && AssetBytes(s.rows) == n * size
  }

  lemma {:induction false} ComingIsFew(uploads: map<UploadId, Upload>, k: nat)
    requires forall u :: u in uploads ==> u < k
    ensures |Coming(uploads)| <= k
    decreases k
  {
    if k == 0 {
      assert Coming(uploads) == map[];
    } else {
      var fewer := uploads - {k - 1};
      ComingIsFew(fewer, k - 1);
      assert Coming(fewer) == Coming(uploads) - {k - 1};
      if k - 1 in Coming(uploads) {
        assert Coming(uploads) == Coming(fewer)[k - 1 := Coming(uploads)[k - 1]];
        SizeWith(Coming(fewer), k - 1, Coming(uploads)[k - 1]);
      } else {
        assert Coming(fewer) == Coming(uploads);
      }
    }
  }

  lemma InitialIsCrowd(size: nat)
    ensures IsCrowd(INITIAL, size, 0, 0) && AssetBytes(INITIAL.rows) == 0
  {
    assert LiveSizes(INITIAL.rows).Keys == {};
  }

  lemma OneMoreChecks(s: State, n: nat, limit: nat) returns (step: Step)
    requires IsCrowd(s, Largest(limit), n, 0)
    ensures Enabled(s, step) && SeesLimit(step, limit, limit - Largest(limit))
    ensures IsCrowd(Next(s, step), Largest(limit), n + 1, 0)
  {
    step := Check(n, Largest(limit), Some(limit), limit - Largest(limit));
  }

  lemma OneMorePuts(s: State, size: nat, k: nat, n: nat)
    requires IsCrowd(s, size, k, n) && n < k && size > 0
    ensures Enabled(s, Put(n, KeyOf(n), true, true))
    ensures Enabled(Next(s, Put(n, KeyOf(n), true, true)), Create(n, n, true))
    ensures forall u :: u in Next(s, Put(n, KeyOf(n), true, true)).uploads ==> u < k
  {
    assert |KeyOf(n)| == n;
  }

  lemma OneMoreCreates(s: State, size: nat, k: nat, n: nat)
    requires IsCrowd(s, size, k, n) && n < k && size > 0
    requires Enabled(s, Put(n, KeyOf(n), true, true))
    requires Enabled(Next(s, Put(n, KeyOf(n), true, true)), Create(n, n, true))
    ensures IsCrowd(Next(Next(s, Put(n, KeyOf(n), true, true)), Create(n, n, true)), size, k, n + 1)
  {
    hide Total;
    var row := Row(KeyOf(n), size, false);
    SizesWith(s.rows, n, row);
    TotalWith(LiveSizes(s.rows), n, size);
    assert |KeyOf(n)| == n;
    Grows(n, size);
  }

  lemma CrowdIsFew(s: State, size: nat, k: nat, n: nat, most: nat)
    requires IsCrowd(s, size, k, n) && k <= most
    ensures |Coming(s.uploads)| <= most
  {
    ComingIsFew(s.uploads, k);
  }

  lemma {:induction false} EveryoneIsChecked(k: nat, n: nat, limit: nat) returns (trace: seq<Step>, s: State)
    requires n <= k
    ensures Leads(trace, s, limit, limit - Largest(limit), k) && IsCrowd(s, Largest(limit), n, 0)
    decreases n
  {
    hide Next, Enabled, IsCrowd, Coming;
    var size := Largest(limit);
    trace, s := [], INITIAL;
    assert [] + trace == trace;
    if n == 0 {
      InitialIsCrowd(size);
      CrowdIsFew(s, size, 0, 0, k);
    } else {
      trace, s := EveryoneIsChecked(k, n - 1, limit);
      var step := OneMoreChecks(s, n - 1, limit);
      CrowdIsFew(Next(s, step), size, n, 0, k);
      OneMore(trace, s, step, limit, limit - size, k);
      trace, s := trace + [step], Next(s, step);
    }
  }

  lemma {:induction false} EveryoneIsCreated(k: nat, n: nat, limit: nat) returns (trace: seq<Step>, s: State)
    requires n <= k && limit > 0
    ensures Leads(trace, s, limit, limit - Largest(limit), k) && IsCrowd(s, Largest(limit), k, n)
    decreases n
  {
    hide Next, Enabled, IsCrowd, Leads, Coming, KeyOf;
    var size, landing := Largest(limit), limit - Largest(limit);
    if n == 0 {
      trace, s := EveryoneIsChecked(k, k, limit);
    } else {
      trace, s := EveryoneIsCreated(k, n - 1, limit);
      var put, create := Put(n - 1, KeyOf(n - 1), true, true), Create(n - 1, n - 1, true);
      OneMorePuts(s, size, k, n - 1);
      OneMoreCreates(s, size, k, n - 1);
      var t := Next(s, put);
      ComingIsFew(t.uploads, k);
      CrowdIsFew(Next(t, create), size, k, n, k);
      OneMore(trace, s, put, limit, landing, k);
      OneMore(trace + [put], t, create, limit, landing, k);
      trace, s := trace + [put] + [create], Next(t, create);
    }
  }

  /** No smaller bound would do, for any limit: `k` uploads that check together reach it, beside some landing usage. */
  lemma CeilingIsReached(limit: nat, k: nat) returns (trace: seq<Step>, landing: nat)
    requires k >= 1
    ensures Possible(trace) && Possible([] + trace) && FewInFlight([], trace, k)
    ensures Usage(INITIAL, landing) <= limit && forall step :: step in trace ==> SeesLimit(step, limit, landing)
    ensures Usage(After(trace), landing) == limit + (k - 1) * Largest(limit)
  {
    hide Next, Enabled, Coming, FewInFlight, AssetBytes;
    landing := limit - Largest(limit);
    InitialIsCrowd(Largest(limit));
    if limit == 0 {
      var s: State;
      trace, s := EveryoneIsChecked(k, 0, limit);
    } else {
      var s: State;
      trace, s := EveryoneIsCreated(k, k, limit);
      Grows(k - 1, Largest(limit));
    }
  }

  // ---------- the service ----------

  predicate OfUpload(step: Step, upload: UploadId) {
    (step.Check? || step.Put? || step.Create? || step.Cleanup? || step.StopUpload?) && step.upload == upload
  }

  function Mine(upload: UploadId): Step -> bool {
    step => OfUpload(step, upload)
  }

  predicate OfDeletion(step: Step, deletion: DeleteId) {
    (step.Get? || step.Unlink? || step.Purge?) && step.deletion == deletion
  }

  lemma {:induction false} OthersLeaveUpload(trace: seq<Step>, more: seq<Step>, upload: UploadId)
    requires Possible(trace) && Possible(trace + more) && forall step :: step in more ==> !OfUpload(step, upload)
    ensures var s, t := After(trace), After(trace + more);
            (upload in t.uploads <==> upload in s.uploads) && (upload in s.uploads ==> t.uploads[upload] == s.uploads[upload])
    decreases |more|
  {
    hide WithinQuota;
    if more == [] {
      assert trace + more == trace;
    } else {
      var front := more[..|more| - 1];
      assert (trace + more)[..|trace + more| - 1] == trace + front;
      OthersLeaveUpload(trace, front, upload);
      assert more[|more| - 1] in more;
    }
  }

  lemma {:induction false} OthersLeaveDeletion(trace: seq<Step>, more: seq<Step>, deletion: DeleteId)
    requires Possible(trace) && Possible(trace + more) && forall step :: step in more ==> !OfDeletion(step, deletion)
    ensures var s, t := After(trace), After(trace + more);
            && (deletion in t.deletions <==> deletion in s.deletions)
            && (deletion in s.deletions ==> t.deletions[deletion] == s.deletions[deletion])
    decreases |more|
  {
    hide WithinQuota;
    if more == [] {
      assert trace + more == trace;
    } else {
      var front := more[..|more| - 1];
      assert (trace + more)[..|trace + more| - 1] == trace + front;
      OthersLeaveDeletion(trace, front, deletion);
      assert more[|more| - 1] in more;
    }
  }

  lemma OverStays(s: State, step: Step, upload: UploadId)
    requires Enabled(s, step) && upload in s.uploads && s.uploads[upload].phase == Over
    ensures upload in Next(s, step).uploads && Next(s, step).uploads[upload].phase == Over
    ensures OfUpload(step, upload) ==> step == StopUpload(upload)
  {
    hide WithinQuota;
  }

  lemma EndsOver(s: State, end: Step, upload: UploadId)
    requires end == StopUpload(upload) || (end.Cleanup? && end.upload == upload)
    requires Enabled(s, end)
    ensures upload in Next(s, end).uploads && Next(s, end).uploads[upload].phase == Over
  {
  }

  /** An upload that was stopped, or has cleaned up, does nothing any more, whatever the others do. */
  lemma {:induction false} EndedUploadRests(trace: seq<Step>, end: Step, more: seq<Step>, upload: UploadId)
    requires end == StopUpload(upload) || (end.Cleanup? && end.upload == upload)
    requires Possible(trace) && Possible(trace + [end]) && Possible(trace + [end] + more)
    ensures upload in After(trace + [end] + more).uploads && After(trace + [end] + more).uploads[upload].phase == Over
    ensures forall step :: step in more && OfUpload(step, upload) ==> step == StopUpload(upload)
    decreases |more|
  {
    hide Next, Enabled, OfUpload;
    if more == [] {
      assert (trace + [end])[..|trace|] == trace;
      assert trace + [end] + more == trace + [end];
      EndsOver(After(trace), end, upload);
    } else {
      var front, last := more[..|more| - 1], more[|more| - 1];
      assert (trace + [end] + more)[..|trace + [end] + more| - 1] == trace + [end] + front;
      assert more == front + [last];
      EndedUploadRests(trace, end, front, upload);
      OverStays(After(trace + [end] + front), last, upload);
    }
  }

  lemma StoredObjectIsThere(trace: seq<Step>, upload: UploadId, key: Key)
    requires Possible(trace) && upload in After(trace).uploads && After(trace).uploads[upload].phase == Stored(key)
    ensures key in After(trace).objects
  {
    AlwaysConsistent(trace);
    assert UploadHas(After(trace), upload, key);
  }

  datatype UploadResult =
    | FileTooLarge | InvalidMimeType | StorageRequired | ContentRequired | QuotaExceeded | KeyFailed | PutFailed
    | CreateFailed | Uploaded(asset: AssetId)

  /** What the caller sends. */
  datatype Request = Request(size: int, mimeAllowed: bool, hasContent: bool)

  /** How the services behind fare. */
  datatype Fate = Fate(keyOk: bool, putStored: bool, putOk: bool, createOk: bool, cleanedUp: bool)

  /** How an upload that is past the quota check ends. */
  function Outcome(size: int, fate: Fate, id: AssetId): UploadResult {
    if !fate.keyOk then KeyFailed
    else if !fate.putOk then PutFailed
    else if fate.createOk && size > 0 then Uploaded(id)
    else CreateFailed
  }

  /** The steps of an upload past the quota check, by how it ends. */
  function StepsAfterCheck(result: UploadResult, upload: UploadId, key: Key, id: AssetId, fate: Fate): seq<Step> {
    match result
    case KeyFailed => [StopUpload(upload)]
    case PutFailed => [Put(upload, key, fate.putStored, false)]
    case CreateFailed => [Put(upload, key, true, true), Create(upload, id, false), Cleanup(upload, fate.cleanedUp)]
    case Uploaded(asset) => [Put(upload, key, true, true), Create(upload, asset, true)]
    case _ => []
  }

  predicate BeforeQuota(result: UploadResult) {
    result.FileTooLarge? || result.InvalidMimeType? || result.StorageRequired? || result.ContentRequired?
  }

  /** What the table and the storage hold of an upload with this key when it has ended. */
  predicate EndsRight(objects: set<Key>, rows: Rows, result: UploadResult, size: int, key: Key, fate: Fate) {
    match result
    case Uploaded(asset) => asset in rows && rows[asset] == Row(key, size, false) && size > 0 && key in objects
    case PutFailed => forall a :: a in rows && !rows[a].deleted ==> rows[a].key != key
    case CreateFailed =>
      && (forall a :: a in rows && !rows[a].deleted ==> rows[a].key != key)
      && (fate.cleanedUp ==> key !in objects)
    case _ => true
  }

  /** Somewhere after `from` the upload checked the quota and was let through. */
  ghost predicate PassedCheck(trace: seq<Step>, from: nat, upload: UploadId, size: int, limit: Option<int>, landing: int) {
    exists n :: from <= n < |trace| && trace[n] == Check(upload, size, limit, landing)
      && Possible(trace[..n]) && WithinQuota(After(trace[..n]).rows, size, limit, landing)
  }

  lemma PassedCheckStays(trace: seq<Step>, later: seq<Step>, from: nat, upload: UploadId, size: int, limit: Option<int>, landing: int)
    requires trace <= later && PassedCheck(trace, from, upload, size, limit, landing)
    ensures PassedCheck(later, from, upload, size, limit, landing)
  {
    hide Possible, After, WithinQuota;
    var n :| from <= n < |trace| && trace[n] == Check(upload, size, limit, landing)
             && Possible(trace[..n]) && WithinQuota(After(trace[..n]).rows, size, limit, landing);
    assert later[..n] == trace[..n] && later[n] == trace[n];
  }

  /** A key about to be deleted again belongs to no row, nor does a new one. */
  lemma KeyIsNobodys(trace: seq<Step>, key: Key)
    requires Possible(trace) && (Condemned(After(trace), key) || key !in After(trace).keys)
    ensures var s := After(trace); forall a :: Live(s.rows, a) ==> s.rows[a].key != key
  {
    AlwaysConsistent(trace);
    var s := After(trace);
    forall a | Live(s.rows, a) ensures s.rows[a].key != key {
      assert RowHas(s.rows, a, s.rows[a].key);
    }
  }

  /** The object storage and the table, with the trace of the steps that led to them. */
  class Assets {
    var objects: set<Key>
    var rows: Rows
    var keys: set<Key>
    ghost var uploads: map<UploadId, Upload>
    ghost var deletions: map<DeleteId, Deletion>
    ghost var trace: seq<Step>

    ghost function Now(): State
      reads this
    {
      State(objects, rows, keys, uploads, deletions)
    }

    ghost predicate Tracked()
      reads this
    {
      Reach(trace) == Some(Now())
    }

    /** What an upload has done so far. */
    ghost function Steps(upload: UploadId): seq<Step>
      reads this
    {
      Own(trace, Mine(upload))
    }

    constructor ()
      ensures Tracked() && trace == []
    {
      objects, rows, keys, uploads, deletions, trace := {}, map[], {}, map[], map[], [];
    }

    ghost method Record(before: State, step: Step)
      requires Reach(trace) == Some(before) && Enabled(before, step)
      requires uploads == before.uploads && deletions == before.deletions
      requires var s := Next(before, step); s.objects == objects && s.rows == rows && s.keys == keys
      modifies this`uploads, this`deletions, this`trace
      ensures Tracked() && trace == old(trace) + [step] && Now() == Next(before, step)
      ensures forall u :: OfUpload(step, u) ==> Steps(u) == old(Steps(u)) + [step]
    {
      hide Enabled, Next;
      forall u | OfUpload(step, u) ensures Own(trace + [step], Mine(u)) == Own(trace, Mine(u)) + [step] {
        OwnMore(trace, step, Mine(u));
      }
      var s := Next(before, step);
      uploads, deletions := s.uploads, s.deletions;
      assert (trace + [step])[..|trace|] == trace;
      trace := trace + [step];
    }

    /** Anything other uploads and deletions may do in between. */
    method OtherUploads(upload: UploadId)
      requires Tracked()
      modifies this
      ensures Tracked() && old(trace) <= trace
      ensures forall step :: step in trace[|old(trace)|..] ==> !OfUpload(step, upload)
    {
    }

    method OtherDeletions(deletion: DeleteId)
      requires Tracked()
      modifies this
      ensures Tracked() && old(trace) <= trace
      ensures forall step :: step in trace[|old(trace)|..] ==> !OfDeletion(step, deletion)
    {
    }

    method InterleaveUpload(upload: UploadId)
      requires Tracked()
      modifies this
      ensures Tracked() && old(trace) <= trace
      ensures upload in uploads <==> upload in old(uploads)
      ensures upload in uploads ==> uploads[upload] == old(uploads)[upload]
      ensures Steps(upload) == old(Steps(upload))
    {
      hide Enabled, Next;
      ghost var before := trace;
      OtherUploads(upload);
      OwnOthers(before, trace, Mine(upload));
      assert trace == before + trace[|before|..];
      OthersLeaveUpload(before, trace[|before|..], upload);
    }

    method InterleaveDeletion(deletion: DeleteId)
      requires Tracked()
      modifies this
      ensures Tracked() && old(trace) <= trace
      ensures deletion in deletions <==> deletion in old(deletions)
      ensures deletion in deletions ==> deletions[deletion] == old(deletions)[deletion]
    {
      hide Enabled, Next;
      ghost var before := trace;
      OtherDeletions(deletion);
      assert trace == before + trace[|before|..];
      OthersLeaveDeletion(before, trace[|before|..], deletion);
    }

    method SumSizeBytes() returns (total: int)
      ensures total == AssetBytes(rows)
    {
      var left := map a | a in rows && !rows[a].deleted :: rows[a].size;
      assert left == LiveSizes(rows);
      total := 0;
      while left != map[]
        invariant total + Total(left) == AssetBytes(rows)
        decreases |left|
      {
        var a :| a in left;
        TotalSplits(left, a);
        assert left == (left - {a})[a := left[a]];
        SizeWith(left - {a}, a, left[a]);
        total := total + left[a];
        left := left - {a};
      }
    }

    /** `checkQuota`. */
    method CheckQuota(size: int, limit: Option<int>, landing: int) returns (ok: bool)
      ensures ok == WithinQuota(rows, size, limit, landing)
    {
      if limit == None {
        return true;
      }
      var used := SumSizeBytes();
      return used + landing + size <= limit.value;
    }

    /** The errors come in the order of the checks, and before the quota is checked nothing happens. Past that, the
        quota stops an upload iff usage and its size are over the limit when it checks; a successful upload has its row
        and its object; and any other leaves no row, and no object if cleaning up works. */
    method UploadObject(upload: UploadId, request: Request, configured: bool, limit: Option<int>, landing: int, fate: Fate,
                        newKey: set<Key> -> Key, newId: Rows -> AssetId)
      returns (result: UploadResult, ghost key: Key, ghost id: AssetId)
      requires Tracked() && upload !in uploads
      requires fate.putOk ==> fate.putStored
      requires forall used :: newKey(used) !in used
      requires forall table :: newId(table) !in table
      modifies this
      ensures Tracked() && old(trace) <= trace
      ensures result.FileTooLarge? <==> request.size > 10_485_760
      ensures result.InvalidMimeType? <==> request.size <= 10_485_760 && !request.mimeAllowed
      ensures result.StorageRequired? <==> request.size <= 10_485_760 && request.mimeAllowed && !configured
      ensures result.ContentRequired? <==>
                request.size <= 10_485_760 && request.mimeAllowed && configured && !request.hasContent
      ensures result.Uploaded? ==> fate.keyOk && fate.putOk && fate.createOk && request.size > 0
      ensures result.KeyFailed? ==> !fate.keyOk
      ensures result.PutFailed? ==> fate.keyOk && !fate.putOk
      ensures result.CreateFailed? ==> fate.keyOk && fate.putOk && !(fate.createOk && request.size > 0)
      ensures BeforeQuota(result) ==> Now() == old(Now()) && trace == old(trace)
      ensures result.QuotaExceeded? ==> limit.Some? && AssetBytes(rows) + landing + request.size > limit.value
      ensures !BeforeQuota(result) && !result.QuotaExceeded? ==>
                && PassedCheck(trace, |old(trace)|, upload, request.size, limit, landing)
                && result == Outcome(request.size, fate, id)
      ensures !BeforeQuota(result) ==>
                Steps(upload) == old(Steps(upload)) + [Check(upload, request.size, limit, landing)]
                                 + StepsAfterCheck(result, upload, key, id, fate)
      ensures EndsRight(objects, rows, result, request.size, key, fate)
      ensures forall a :: Live(rows, a) ==> rows[a].key in objects
    {
      hide Next, Enabled, Consistent, Own, PassedCheck;
      key, id := "", 0;
      EveryRowIsThere();
      if request.size > MAX_OBJECT_SIZE_BYTES {
        return FileTooLarge, key, id;
      }
      if !request.mimeAllowed {
        return InvalidMimeType, key, id;
      }
      if !configured {
        return StorageRequired, key, id;
      }
      if !request.hasContent {
        return ContentRequired, key, id;
      }
      result, key, id := PutAndCreate(upload, request.size, limit, landing, fate, newKey, newId);
      EveryRowIsThere();
    }

    lemma EveryRowIsThere()
      requires Tracked()
      ensures forall a :: Live(rows, a) ==> rows[a].key in objects
    {
      forall a | Live(rows, a) ensures rows[a].key in objects {
        EveryRowHasItsObject(trace, a);
      }
    }

    method PutAndCreate(upload: UploadId, size: int, limit: Option<int>, landing: int, fate: Fate,
                        newKey: set<Key> -> Key, newId: Rows -> AssetId)
      returns (result: UploadResult, ghost key: Key, ghost id: AssetId)
      requires Tracked() && upload !in uploads && size <= MAX_OBJECT_SIZE_BYTES
      requires fate.putOk ==> fate.putStored
      requires forall used :: newKey(used) !in used
      requires forall table :: newId(table) !in table
      modifies this
      ensures Tracked() && old(trace) <= trace && !BeforeQuota(result)
      ensures result.QuotaExceeded? ==> limit.Some? && AssetBytes(rows) + landing + size > limit.value
      ensures !result.QuotaExceeded? ==>
                PassedCheck(trace, |old(trace)|, upload, size, limit, landing) && result == Outcome(size, fate, id)
      ensures Steps(upload) == old(Steps(upload)) + [Check(upload, size, limit, landing)]
                               + StepsAfterCheck(result, upload, key, id, fate)
      ensures EndsRight(objects, rows, result, size, key, fate)
    {
      hide Reach, Own, PassedCheck, EndsRight;
      InterleaveUpload(upload);
      var ok := CheckQuota(size, limit, landing);
      CheckStep(upload, size, limit, landing, |old(trace)|);
      hide WithinQuota;
      if !ok {
        result, key, id := QuotaExceeded, "", 0;
        NothingEnds(size, key, fate);
        return;
      }
      ghost var checked := trace;
      result, key, id := PutObject(upload, size, fate, newKey, newId);
      PassedCheckStays(checked, trace, |old(trace)|, upload, size, limit, landing);
    }

    lemma NothingEnds(size: int, key: Key, fate: Fate)
      ensures EndsRight(objects, rows, QuotaExceeded, size, key, fate)
    {
    }

    ghost method CheckStep(upload: UploadId, size: int, limit: Option<int>, landing: int, from: nat)
      requires Tracked() && upload !in uploads && size <= MAX_OBJECT_SIZE_BYTES && from <= |trace|
      modifies this`uploads, this`deletions, this`trace
      ensures Tracked() && trace == old(trace) + [Check(upload, size, limit, landing)]
      ensures Steps(upload) == old(Steps(upload)) + [Check(upload, size, limit, landing)]
      ensures WithinQuota(rows, size, limit, landing) ==>
                PassedCheck(trace, from, upload, size, limit, landing)
                && upload in uploads && uploads[upload] == Upload(size, Checked)
    {
      hide Own, WithinQuota, Reach;
      ghost var before := trace;
      Record(Now(), Check(upload, size, limit, landing));
      assert trace[..|before|] == before && trace[|before|] == Check(upload, size, limit, landing);
    }

    method PutObject(upload: UploadId, size: int, fate: Fate, newKey: set<Key> -> Key, newId: Rows -> AssetId)
      returns (result: UploadResult, ghost key: Key, ghost id: AssetId)
      requires Tracked() && upload in uploads && uploads[upload] == Upload(size, Checked)
      requires fate.putOk ==> fate.putStored
      requires forall used :: newKey(used) !in used
      requires forall table :: newId(table) !in table
      modifies this
      ensures Tracked() && old(trace) <= trace
      ensures !BeforeQuota(result) && !result.QuotaExceeded? && result == Outcome(size, fate, id)
      ensures Steps(upload) == old(Steps(upload)) + StepsAfterCheck(result, upload, key, id, fate)
      ensures EndsRight(objects, rows, result, size, key, fate)
    {
      hide Reach, Own;
      key, id := "", 0;
      InterleaveUpload(upload);
      if !fate.keyOk {
        Record(Now(), StopUpload(upload));
        return KeyFailed, key, id;
      }
      var newOne := StoreNew(upload, size, fate, newKey);
      key := newOne;
      if !fate.putOk {
        return PutFailed, key, id;
      }
      InterleaveUpload(upload);
      result, id := CreateRow(upload, size, newOne, fate, newId);
    }

    /** A new key, and the object put under it. */
    method StoreNew(upload: UploadId, size: int, fate: Fate, newKey: set<Key> -> Key) returns (key: Key)
      requires Tracked() && upload in uploads && uploads[upload] == Upload(size, Checked)
      requires fate.putOk ==> fate.putStored
      requires forall used :: newKey(used) !in used
      modifies this
      ensures Tracked() && old(trace) <= trace
      ensures Steps(upload) == old(Steps(upload)) + [Put(upload, key, fate.putStored, fate.putOk)]
      ensures upload in uploads && uploads[upload] == Upload(size, if fate.putOk then Stored(key) else Over)
      ensures forall a :: Live(rows, a) ==> rows[a].key != key
      ensures fate.putStored ==> key in objects
    {
      ghost var before := Now();
      key := newKey(keys);
      KeyIsNobodys(trace, key);
      hide Reach, Own;
      keys := keys + {key};
      if fate.putStored {
        objects := objects + {key};
      }
      Record(before, Put(upload, key, fate.putStored, fate.putOk));
    }

    method CreateRow(upload: UploadId, size: int, key: Key, fate: Fate, newId: Rows -> AssetId)
      returns (result: UploadResult, ghost id: AssetId)
      requires Tracked() && upload in uploads && uploads[upload] == Upload(size, Stored(key))
      requires forall table :: newId(table) !in table
      modifies this
      ensures Tracked() && old(trace) <= trace
      ensures result == if fate.createOk && size > 0 then Uploaded(id) else CreateFailed
      ensures Steps(upload) == old(Steps(upload)) + StepsAfterCheck(result, upload, key, id, fate)[1..]
      ensures EndsRight(objects, rows, result, size, key, fate)
    {
      StoredObjectIsThere(trace, upload, key);
      hide Reach, Own;
      var asset := newId(rows);
      id := asset;
      ghost var before := Now();
      var created := fate.createOk && size > 0;
      if created {
        rows := rows[asset := Row(key, size, false)];
      }
      Record(before, Create(upload, asset, created));
      if created {
        return Uploaded(asset), id;
      }
      RemoveObject(upload, size, key, fate.cleanedUp);
      return CreateFailed, id;
    }

    /** The object of a failed insert is deleted again, as well as it can be; no row has its key. */
    method RemoveObject(upload: UploadId, size: int, key: Key, removed: bool)
      requires Tracked() && upload in uploads && uploads[upload] == Upload(size, Cleaning(key))
      modifies this
      ensures Tracked() && old(trace) <= trace
      ensures Steps(upload) == old(Steps(upload)) + [Cleanup(upload, removed)]
      ensures removed ==> key !in objects
      ensures forall a :: Live(rows, a) ==> rows[a].key != key
    {
      hide Own;
      InterleaveUpload(upload);
      KeyIsNobodys(trace, key);
      hide Reach;
      ghost var before := Now();
      if removed {
        objects := objects - {key};
      }
      Record(before, Cleanup(upload, removed));
    }

    /** The row first, then the object. Whether it succeeds or finds nothing to delete, the asset is not live
        afterwards; success means its row is deleted, and its object too if the storage did its work; and no live
        row loses its object on the way. */
    method DeleteObject(deletion: DeleteId, asset: AssetId, configured: bool, removed: bool) returns (ok: bool)
      requires Tracked() && deletion !in deletions
      modifies this
      ensures Tracked() && old(trace) <= trace
      ensures !Live(rows, asset) && (ok ==> asset in rows)
      ensures ok && configured && removed ==> rows[asset].key !in objects
      ensures ok ==> deletion in deletions && deletions[deletion] == if configured then Finished else Unlinked(rows[asset].key)
      ensures forall a :: Live(rows, a) ==> rows[a].key in objects
    {
      hide Consistent, Enabled, Next;
      InterleaveDeletion(deletion);
      EveryRowIsThere();
      if asset !in rows || rows[asset].deleted {
        return false;
      }
      var key := rows[asset].key;
      GetRow(deletion, asset);
      InterleaveDeletion(deletion);
      ok := UnlinkRow(deletion, asset, key);
      EveryRowIsThere();
      if !ok || !configured {
        return;
      }
      PurgeObject(deletion, asset, key, removed);
      EveryRowIsThere();
    }

    ghost method GetRow(deletion: DeleteId, asset: AssetId)
      requires Tracked() && deletion !in deletions && Live(rows, asset)
      modifies this`uploads, this`deletions, this`trace
      ensures Tracked() && old(trace) <= trace
      ensures deletion in deletions && deletions[deletion] == Holding(asset, rows[asset].key)
    {
      Record(Now(), Get(deletion, asset));
    }

    method UnlinkRow(deletion: DeleteId, asset: AssetId, key: Key) returns (ok: bool)
      requires Tracked() && deletion in deletions && deletions[deletion] == Holding(asset, key)
      modifies this
      ensures Tracked() && old(trace) <= trace
      ensures !Live(rows, asset) && (ok <==> Live(old(rows), asset))
      ensures ok ==> asset in rows && rows[asset].key == key
      ensures deletion in deletions && deletions[deletion] == if ok then Unlinked(key) else Finished
    {
      HeldRowIsRight(trace, deletion, asset, key);
      ghost var before := Now();
      ok := asset in rows && !rows[asset].deleted;
      if ok {
        rows := rows[asset := rows[asset].(deleted := true)];
      }
      Record(before, Unlink(deletion));
    }

    method PurgeObject(deletion: DeleteId, asset: AssetId, key: Key, removed: bool)
      requires Tracked() && deletion in deletions && deletions[deletion] == Unlinked(key)
      requires asset in rows && rows[asset].deleted
      modifies this
      ensures Tracked() && old(trace) <= trace
      ensures asset in rows && rows[asset] == old(rows)[asset]
      ensures removed ==> key !in objects
      ensures deletion in deletions && deletions[deletion].Finished?
    {
      ghost var unlinked := trace;
      InterleaveDeletion(deletion);
      DeletedStaysDeleted(unlinked, trace, asset);
      ghost var before := Now();
      if removed {
        objects := objects - {key};
      }
      Record(before, Purge(deletion, removed));
    }
  }

  lemma HeldRowIsRight(trace: seq<Step>, deletion: DeleteId, asset: AssetId, key: Key)
    requires Possible(trace) && deletion in After(trace).deletions && After(trace).deletions[deletion] == Holding(asset, key)
    ensures asset in After(trace).rows && After(trace).rows[asset].key == key
  {
    AlwaysConsistent(trace);
    assert HolderOf(After(trace), deletion, asset, key);
  }

  lemma {:induction false} DeletedStaysDeleted(trace: seq<Step>, later: seq<Step>, asset: AssetId)
    requires Possible(trace) && Possible(later) && trace <= later
    requires asset in After(trace).rows && After(trace).rows[asset].deleted
    ensures asset in After(later).rows && After(later).rows[asset] == After(trace).rows[asset]
    decreases |later|
  {
    hide WithinQuota;
    if trace != later {
      DeletedStaysDeleted(trace, later[..|later| - 1], asset);
    }
  }
}
