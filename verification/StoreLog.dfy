/** What the recipe store promises its callers: under every interleaving of transactions each name is
    one log that puts and rollbacks append to and deletes clear. */
module StoreLog {
  import opened Values
  import opened Text
  import opened VersionKeys
  import opened Store

  type Logs = map<string, seq<Entry>>

  function LogOf(logs: Logs, name: string): seq<Entry> {
    if name in logs then logs[name] else []
  }

  function Appended(logs: Logs, name: string, e: Entry): Logs {
    logs[name := LogOf(logs, name) + [e]]
  }

  function Cleared(logs: Logs, name: string): Logs {
    map n | n in logs && n != name :: logs[n]
  }

  /** A nested bucket holds exactly the keys of versions 1..n, and the log's entries in order. */
  ghost predicate Holds(bucket: Bucket, log: seq<Entry>) {
    && |log| < TWO_TO_63
    && (forall k :: k in bucket <==> k in KeysTo(|log|))
    && (forall i | 0 <= i < |log| :: KeysTo(|log|)[i] in bucket && bucket[KeysTo(|log|)[i]] == log[i])
  }

  /** `log` is all there is about `name`, in both buckets; every entry's spec carries that name. */
  ghost predicate RefinesAt(db: Db, log: seq<Entry>, name: string) {
    && (name in db.recipes <==> log != [])
    && (name in db.versions <==> log != [])
    && (log != [] ==> db.recipes[name] == log[|log| - 1].spec)
    && Holds(BucketOf(db, name), log)
    && forall e | e in log :: e.spec.name == name
  }

  ghost predicate Refines(db: Db, logs: Logs) {
    forall name :: RefinesAt(db, LogOf(logs, name), name)
  }

  // ---- one transaction ----

  lemma HoldsIsWellKeyed(bucket: Bucket, log: seq<Entry>)
    requires Holds(bucket, log)
    ensures WellKeyed(bucket)
  {
    forall k | k in bucket ensures IsKey(k) {
      var i :| 0 <= i < |log| && KeysTo(|log|)[i] == k;
      KeyAt(|log|, i);
    }
  }

  lemma RefinesIsWellKeyed(db: Db, logs: Logs)
    requires Refines(db, logs)
    ensures AllWellKeyed(db)
  {
    forall name | name in db.versions ensures WellKeyed(db.versions[name]) {
      assert RefinesAt(db, LogOf(logs, name), name);
      HoldsIsWellKeyed(BucketOf(db, name), LogOf(logs, name));
    }
  }

  /** The cursor visits the versions of a log in the order 1..n. */
  lemma CursorOrder(bucket: Bucket, log: seq<Entry>)
    requires Holds(bucket, log)
    ensures KeyOrder(bucket.Keys) == KeysTo(|log|)
  {
    KeysAscend(|log|);
    ListingIsUnique(KeyOrder(bucket.Keys), KeysTo(|log|), bucket.Keys);
  }

  /** The next version is one more than the number of versions so far, until a Go int cannot count them. */
  lemma NextVersionIsOneMore(bucket: Bucket, log: seq<Entry>)
    requires Holds(bucket, log)
    ensures WellKeyed(bucket)
    ensures NextVersion(bucket) == |log| + 1 <==> |log| + 1 < TWO_TO_63
  {
    HoldsIsWellKeyed(bucket, log);
    CursorOrder(bucket, log);
    if log != [] {
      KeyAt(|log|, |log| - 1);
    }
  }

  lemma BucketGrows(bucket: Bucket, log: seq<Entry>, e: Entry)
    requires Holds(bucket, log) && |log| + 1 < TWO_TO_63
    ensures Holds(bucket[VersionKey(|log| + 1) := e], log + [e])
  {
    var n := |log|;
    var key := VersionKey(n + 1);
    KeyAmong(n, n + 1);
    assert KeysTo(n + 1) == KeysTo(n) + [key];
    forall i | 0 <= i < n ensures KeysTo(n)[i] != key {
      assert KeysTo(n)[i] in KeysTo(n);
    }
  }

  lemma PutAppendsHere(db: Db, log: seq<Entry>, spec: Spec, now: int)
    requires RefinesAt(db, log, spec.name) && |log| + 1 < TWO_TO_63
    ensures WellKeyed(BucketOf(db, spec.name))
    ensures RefinesAt(AfterPut(db, spec, now), log + [Entry(spec, now)], spec.name)
  {
    var bucket := BucketOf(db, spec.name);
    NextVersionIsOneMore(bucket, log);
    hide Holds, NextVersion, VersionKey;
    BucketGrows(bucket, log, Entry(spec, now));
  }

  lemma PutLeavesOthers(db: Db, log: seq<Entry>, spec: Spec, now: int, name: string)
    requires RefinesAt(db, log, name) && WellKeyed(BucketOf(db, spec.name)) && name != spec.name
    ensures RefinesAt(AfterPut(db, spec, now), log, name)
  {
    hide Holds, NextVersion, VersionKey;
    assert BucketOf(AfterPut(db, spec, now), name) == BucketOf(db, name);
  }

  /** A put appends an entry to the log of the spec's own name and touches no other log. */
  lemma PutAppends(db: Db, logs: Logs, spec: Spec, now: int)
    requires Refines(db, logs) && |LogOf(logs, spec.name)| + 1 < TWO_TO_63
    ensures AllWellKeyed(db)
    ensures Refines(AfterPut(db, spec, now), Appended(logs, spec.name, Entry(spec, now)))
  {
    RefinesIsWellKeyed(db, logs);
    hide RefinesAt, AfterPut;
    var after, logs' := AfterPut(db, spec, now), Appended(logs, spec.name, Entry(spec, now));
    forall name ensures RefinesAt(after, LogOf(logs', name), name) {
      assert RefinesAt(db, LogOf(logs, name), name);
      if name == spec.name {
        PutAppendsHere(db, LogOf(logs, name), spec, now);
      } else {
        PutLeavesOthers(db, LogOf(logs, name), spec, now, name);
      }
    }
  }

  lemma DeleteClears(db: Db, logs: Logs, name: string)
    requires Refines(db, logs)
    ensures Refines(AfterDelete(db, name), Cleared(logs, name))
  {
    forall n ensures RefinesAt(AfterDelete(db, name), LogOf(Cleared(logs, name), n), n) {
      assert RefinesAt(db, LogOf(logs, n), n);
      if n == name { EmptyHolds(); }
    }
  }

  lemma EmptyHolds()
    ensures Holds(map[], [])
  {
  }

  // ---- reads ----

  /** `Get` is the log's last entry, not found when the log is empty. */
  lemma LatestIsLast(db: Db, logs: Logs, name: string)
    requires Refines(db, logs)
    ensures var log := LogOf(logs, name);
            ReadLatest(db, name) == if log == [] then None else Some(log[|log| - 1].spec)
  {
    assert RefinesAt(db, LogOf(logs, name), name);
  }

  /** `GetVersion(v)` is the log's entry `v`, for exactly the versions 1..n. */
  lemma VersionIsEntry(db: Db, logs: Logs, name: string, version: Int64)
    requires Refines(db, logs)
    ensures var log := LogOf(logs, name);
            ReadVersion(db, name, version) ==
              if 1 <= version <= |log| then Some(log[version - 1].spec) else None
  {
    var log := LogOf(logs, name);
    assert RefinesAt(db, log, name);
    KeyAmong(|log|, version);
    if 1 <= version <= |log| {
      KeyAt(|log|, version - 1);
    }
  }

  /** `ListVersions` is 1, 2, ..., n with the log's timestamps. */
  lemma ListedVersions(db: Db, logs: Logs, name: string)
    requires Refines(db, logs)
    ensures AllWellKeyed(db)
    ensures var log, infos := LogOf(logs, name), ReadVersions(BucketOf(db, name));
            |infos| == |log| && forall i | 0 <= i < |log| :: infos[i] == VersionInfo(i + 1, log[i].updatedAt)
  {
    var log, bucket := LogOf(logs, name), BucketOf(db, name);
    RefinesIsWellKeyed(db, logs);
    assert RefinesAt(db, log, name);
    CursorOrder(bucket, log);
    InfosAt(bucket, log, |log|);
  }

  lemma {:induction false} InfosAt(bucket: Bucket, log: seq<Entry>, n: nat)
    requires Holds(bucket, log) && n <= |log|
    ensures forall k | k in KeysTo(|log|) :: k in bucket && IsKey(k)
    ensures forall i | 0 <= i < n :: VersionInfos(bucket, KeysTo(|log|), n)[i] == VersionInfo(i + 1, log[i].updatedAt)
  {
    hide VersionKey, VersionFromKey;
    HoldsIsWellKeyed(bucket, log);
    if n > 0 {
      InfosAt(bucket, log, n - 1);
      KeyAt(|log|, n - 1);
    }
  }

  // ---- every interleaving ----

  /** A rollback between its two transactions: what it was asked for and the spec it read. */
  datatype Pending = Pending(name: string, version: Int64, read: Spec)

  /** One transaction of some caller. A rollback is a ReadStep and a WriteStep with the same id; the
      flag says whether an update transaction commits. */
  datatype Step =
    | PutStep(spec: Spec, now: int, commits: bool)
    | DeleteStep(name: string, commits: bool)
    | ReadStep(id: nat, name: string, version: Int64)
    | WriteStep(id: nat, now: int, commits: bool)

  datatype State = State(db: Db, pending: map<nat, Pending>)

  datatype LogState = LogState(logs: Logs, pending: map<nat, Pending>)

  ghost predicate Ready(s: State) {
    AllWellKeyed(s.db)
  }

  ghost function Next(s: State, step: Step): (s': State)
    requires Ready(s)
    ensures Ready(s')
  {
    match step
    case PutStep(spec, now, commits) =>
      if commits then s.(db := AfterUpdate(s.db, PutUpdate(spec, now))) else s
    case DeleteStep(name, commits) =>
      if commits then s.(db := AfterUpdate(s.db, DeleteUpdate(name))) else s
    case ReadStep(id, name, version) =>
      (match ReadVersion(s.db, name, version)
       case Some(spec) => s.(pending := s.pending[id := Pending(name, version, spec)])
       case None => s)
    case WriteStep(id, now, commits) =>
      if id !in s.pending then s
      else
        State(if commits then AfterUpdate(s.db, PutUpdate(s.pending[id].read, now)) else s.db,
              map i | i in s.pending && i != id :: s.pending[i])
  }

  /** The same step on logs. A rollback appends the entry it read to the log of the name it was called with. */
  function LogNext(s: LogState, step: Step): LogState {
    match step
    case PutStep(spec, now, commits) =>
      if commits && spec.name != "" then s.(logs := Appended(s.logs, spec.name, Entry(spec, now))) else s
    case DeleteStep(name, commits) =>
      if commits then s.(logs := Cleared(s.logs, name)) else s
    case ReadStep(id, name, version) =>
      var log := LogOf(s.logs, name);
      if 1 <= version <= |log|
      then s.(pending := s.pending[id := Pending(name, version, log[version - 1].spec)])
      else s
    case WriteStep(id, now, commits) =>
      if id !in s.pending then s
      else
        var p := s.pending[id];
        LogState(if commits then Appended(s.logs, p.name, Entry(p.read, now)) else s.logs,
                 map i | i in s.pending && i != id :: s.pending[i])
  }

  ghost function Run(steps: seq<Step>): (s: State)
    ensures Ready(s)
    decreases |steps|
  {
    if steps == [] then State(Db(map[], map[]), map[]) else Next(Run(steps[..|steps| - 1]), steps[|steps| - 1])
  }

  function LogRun(steps: seq<Step>): LogState
    decreases |steps|
  {
    if steps == [] then LogState(map[], map[]) else LogNext(LogRun(steps[..|steps| - 1]), steps[|steps| - 1])
  }

  /** Go's int version counter has counted every entry of every log. */
  ghost predicate Countable(logs: Logs) {
    forall name | name in logs :: |logs[name]| < TWO_TO_63
  }

  /** So it is after every prefix of the run. */
  ghost predicate AlwaysCountable(steps: seq<Step>) {
    forall n: nat | n <= |steps| :: Countable(LogRun(steps[..n]).logs)
  }

  /** A pending rollback holds a spec of the name it was called with. */
  ghost predicate NamesMatch(pending: map<nat, Pending>) {
    forall id | id in pending :: pending[id].name != "" && pending[id].read.name == pending[id].name
  }

  ghost predicate Simulates(s: State, l: LogState) {
    Refines(s.db, l.logs) && s.pending == l.pending && NamesMatch(l.pending) && "" !in l.logs
  }

  ghost predicate AlwaysSimulates(steps: seq<Step>) {
    forall n: nat | n <= |steps| :: Simulates(Run(steps[..n]), LogRun(steps[..n]))
  }

  lemma StepSimulates(s: State, l: LogState, step: Step)
    requires Ready(s) && Simulates(s, l) && Countable(LogNext(l, step).logs)
    ensures Simulates(Next(s, step), LogNext(l, step))
  {
    hide Refines, AfterPut, AfterDelete;
    match step
    case PutStep(spec, now, commits) =>
      if commits && spec.name != "" {
        CanAppend(l.logs, spec.name, Entry(spec, now));
        PutAppends(s.db, l.logs, spec, now);
      }
    case DeleteStep(name, commits) =>
      DeleteClears(s.db, l.logs, name);
    case ReadStep(id, name, version) =>
      VersionIsEntry(s.db, l.logs, name, version);
      EntriesAreNamed(s.db, l.logs, name);
    case WriteStep(id, now, commits) =>
      if commits && id in s.pending {
        CanAppend(l.logs, s.pending[id].name, Entry(s.pending[id].read, now));
        PutAppends(s.db, l.logs, s.pending[id].read, now);
      }
  }

  lemma CanAppend(logs: Logs, name: string, e: Entry)
    requires Countable(Appended(logs, name, e))
    ensures |LogOf(logs, name)| + 1 < TWO_TO_63
  {
    assert |Appended(logs, name, e)[name]| < TWO_TO_63;
  }

  lemma EntriesAreNamed(db: Db, logs: Logs, name: string)
    requires Refines(db, logs)
    ensures forall e | e in LogOf(logs, name) :: e.spec.name == name
  {
    assert RefinesAt(db, LogOf(logs, name), name);
  }

  lemma {:induction false} CountableRunIsLogs(steps: seq<Step>)
    requires AlwaysCountable(steps)
    ensures Simulates(Run(steps), LogRun(steps))
  {
    if steps == [] {
      EmptyHolds();
    } else {
      var before := steps[..|steps| - 1];
      PrefixIsCountable(steps, |before|);
      CountableRunIsLogs(before);
      assert steps[..|steps|] == steps;
      StepSimulates(Run(before), LogRun(before), steps[|steps| - 1]);
    }
  }

  lemma PrefixIsCountable(steps: seq<Step>, n: nat)
    requires AlwaysCountable(steps) && n <= |steps|
    ensures AlwaysCountable(steps[..n])
  {
    assert forall m: nat | m <= n :: steps[..n][..m] == steps[..m];
  }

  /** A run of interleaved puts, deletes and two-transaction rollbacks, with any of the writes aborted,
      keeps the two buckets holding exactly one log per name, if and only if no log ever reaches the
      2^63 entries that Go's int version counter cannot count. */
  lemma EveryRunIsLogs(steps: seq<Step>)
    ensures AlwaysSimulates(steps) <==> AlwaysCountable(steps)
  {
    if AlwaysCountable(steps) {
      forall n: nat | n <= |steps| ensures Simulates(Run(steps[..n]), LogRun(steps[..n])) {
        PrefixIsCountable(steps, n);
        CountableRunIsLogs(steps[..n]);
      }
    }
    if AlwaysSimulates(steps) {
      forall n: nat | n <= |steps| ensures Countable(LogRun(steps[..n]).logs) {
        RefinesIsCountable(Run(steps[..n]).db, LogRun(steps[..n]).logs);
      }
    }
  }

  lemma RefinesIsCountable(db: Db, logs: Logs)
    requires Refines(db, logs)
    ensures Countable(logs)
  {
    forall name | name in logs ensures |logs[name]| < TWO_TO_63 {
      assert RefinesAt(db, LogOf(logs, name), name);
    }
  }

  /** No run of fewer than 2^63 transactions gets there. */
  lemma ShortRunsAreCountable(steps: seq<Step>)
    requires |steps| < TWO_TO_63
    ensures AlwaysCountable(steps)
  {
    forall n: nat, name | n <= |steps| && name in LogRun(steps[..n]).logs
      ensures |LogRun(steps[..n]).logs[name]| < TWO_TO_63
    {
      LogsAreShort(steps[..n], name);
    }
  }

  lemma {:induction false} LogsAreShort(steps: seq<Step>, name: string)
    ensures |LogOf(LogRun(steps).logs, name)| <= |steps|
  {
    if steps != [] { LogsAreShort(steps[..|steps| - 1], name); }
  }

  /** What any caller reads after such a run; a name is stored, and has versions to list, exactly when its
      log is not empty. */
  lemma ReadsAfterRun(steps: seq<Step>, name: string, version: Int64)
    requires AlwaysCountable(steps)
    ensures var db, log := Run(steps).db, LogOf(LogRun(steps).logs, name);
            && ReadLatest(db, name) == (if log == [] then None else Some(log[|log| - 1].spec))
            && ReadVersion(db, name, version) == (if 1 <= version <= |log| then Some(log[version - 1].spec) else None)
            && (name in db.recipes <==> log != [])
            && (name in db.versions <==> log != [])
            && |ReadVersions(BucketOf(db, name))| == |log|
            && forall i | 0 <= i < |log| :: ReadVersions(BucketOf(db, name))[i] == VersionInfo(i + 1, log[i].updatedAt)
  {
    CountableRunIsLogs(steps);
    var db, logs := Run(steps).db, LogRun(steps).logs;
    LatestIsLast(db, logs, name);
    VersionIsEntry(db, logs, name, version);
    ListedVersions(db, logs, name);
    assert RefinesAt(db, LogOf(logs, name), name);
  }

  /** Nothing but a committed delete of the name ever removes or changes a version: what could be read
      under it still is, the same. */
  lemma HistoryOnlyGrows(steps: seq<Step>, more: seq<Step>, name: string, version: Int64)
    requires forall i | 0 <= i < |more| :: more[i] != DeleteStep(name, true)
    requires AlwaysCountable(steps + more)
    ensures ReadVersion(Run(steps).db, name, version).Some? ==>
              ReadVersion(Run(steps + more).db, name, version) == ReadVersion(Run(steps).db, name, version)
  {
    LogOnlyGrows(steps, more, name);
    assert (steps + more)[..|steps|] == steps;
    PrefixIsCountable(steps + more, |steps|);
    ReadsAfterRun(steps, name, version);
    ReadsAfterRun(steps + more, name, version);
  }

  lemma {:induction false} LogOnlyGrows(steps: seq<Step>, more: seq<Step>, name: string)
    requires forall i | 0 <= i < |more| :: more[i] != DeleteStep(name, true)
    ensures LogOf(LogRun(steps).logs, name) <= LogOf(LogRun(steps + more).logs, name)
    decreases |more|
  {
    if more == [] {
      assert steps + more == steps;
    } else {
      var shorter := more[..|more| - 1];
      LogOnlyGrows(steps, shorter, name);
      assert (steps + more)[..|steps + more| - 1] == steps + shorter;
      assert more[|more| - 1] != DeleteStep(name, true);
    }
  }

  lemma RunAppend(steps: seq<Step>, step: Step)
    ensures Run(steps + [step]) == Next(Run(steps), step)
    ensures LogRun(steps + [step]) == LogNext(LogRun(steps), step)
  {
    assert (steps + [step])[..|steps|] == steps;
  }

  /** What callers read after a committed put: the spec as the latest and as one more version, stamped with
      the put's time; of any other name what they read before. */
  lemma PutIsRead(steps: seq<Step>, spec: Spec, now: int, name: string, version: Int64)
    requires spec.name != "" && AlwaysCountable(steps + [PutStep(spec, now, true)])
    ensures var before, after := Run(steps).db, Run(steps + [PutStep(spec, now, true)]).db;
            var old_, new_ := ReadVersions(BucketOf(before, name)), ReadVersions(BucketOf(after, name));
            if name == spec.name then
              && ReadLatest(after, name) == Some(spec)
              && new_ == old_ + [VersionInfo(|old_| + 1, now)]
              && ReadVersion(after, name, version) ==
                   if version == |old_| + 1 then Some(spec) else ReadVersion(before, name, version)
            else
              && ReadLatest(after, name) == ReadLatest(before, name)
              && new_ == old_
              && ReadVersion(after, name, version) == ReadVersion(before, name, version)
  {
    hide Run, LogRun, LogOf, Next, LogNext, ReadVersions, ReadVersion, ReadLatest;
    var step := PutStep(spec, now, true);
    LogAfterPut(steps, spec, now, name);
    CountableBefore(steps, step);
    hide AlwaysCountable;
    ReadsAfterRun(steps, name, version);
    ReadsAfterRun(steps + [step], name, version);
    InfosOfLonger(LogOf(LogRun(steps).logs, name), if name == spec.name then [Entry(spec, now)] else [],
      ReadVersions(BucketOf(Run(steps).db, name)), ReadVersions(BucketOf(Run(steps + [step]).db, name)));
  }

  lemma LogAfterPut(steps: seq<Step>, spec: Spec, now: int, name: string)
    requires spec.name != ""
    ensures LogOf(LogRun(steps + [PutStep(spec, now, true)]).logs, name) ==
            LogOf(LogRun(steps).logs, name) + if name == spec.name then [Entry(spec, now)] else []
  {
    RunAppend(steps, PutStep(spec, now, true));
    hide LogRun, Run;
  }

  lemma CountableBefore(steps: seq<Step>, step: Step)
    requires AlwaysCountable(steps + [step])
    ensures AlwaysCountable(steps)
  {
    assert (steps + [step])[..|steps|] == steps;
    PrefixIsCountable(steps + [step], |steps|);
  }

  lemma InfosOfLonger(log: seq<Entry>, more: seq<Entry>, infos: seq<VersionInfo>, longer: seq<VersionInfo>)
    requires |infos| == |log| && forall i | 0 <= i < |log| :: infos[i] == VersionInfo(i + 1, log[i].updatedAt)
    requires |longer| == |log + more| && |more| <= 1
    requires forall i | 0 <= i < |log + more| :: longer[i] == VersionInfo(i + 1, (log + more)[i].updatedAt)
    ensures longer == infos + if more == [] then [] else [VersionInfo(|log| + 1, more[0].updatedAt)]
  {
  }

  /** After a committed delete nothing of the name is left; of any other name callers read what they did before. */
  lemma DeleteIsRead(steps: seq<Step>, deleted: string, name: string, version: Int64)
    requires AlwaysCountable(steps + [DeleteStep(deleted, true)])
    ensures var before, after := Run(steps).db, Run(steps + [DeleteStep(deleted, true)]).db;
            if name == deleted then
              name !in after.recipes && name !in after.versions && ReadVersion(after, name, version) == None
            else
              && ReadLatest(after, name) == ReadLatest(before, name)
              && ReadVersions(BucketOf(after, name)) == ReadVersions(BucketOf(before, name))
              && ReadVersion(after, name, version) == ReadVersion(before, name, version)
  {
    var step := DeleteStep(deleted, true);
    CountableBefore(steps, step);
    RunAppend(steps, step);
    hide Run, LogRun, Next, ReadVersions, ReadVersion, ReadLatest, AlwaysCountable;
    ReadsAfterRun(steps, name, version);
    ReadsAfterRun(steps + [step], name, version);
  }

  /** The steps by which other callers commit some updates. */
  function StepsOf(updates: seq<Update>): seq<Step> {
    seq(|updates|, i requires 0 <= i < |updates| => StepOf(updates[i]))
  }

  function StepOf(u: Update): Step {
    match u
    case PutUpdate(spec, now) => PutStep(spec, now, true)
    case DeleteUpdate(name) => DeleteStep(name, true)
  }

  lemma {:induction false} UpdatesAreSteps(steps: seq<Step>, updates: seq<Update>)
    ensures Run(steps + StepsOf(updates)) == Run(steps).(db := AfterUpdates(Run(steps).db, updates))
    decreases |updates|
  {
    if updates == [] {
      assert steps + StepsOf(updates) == steps;
    } else {
      var n := |updates| - 1;
      UpdatesAreSteps(steps, updates[..n]);
      StepsOfMore(updates);
      assert steps + (StepsOf(updates[..n]) + [StepOf(updates[n])])
          == steps + StepsOf(updates[..n]) + [StepOf(updates[n])];
      RunAppend(steps + StepsOf(updates[..n]), StepOf(updates[n]));
      hide Run, LogRun, StepsOf;
      UpdateIsStep(Run(steps + StepsOf(updates[..n])), updates[n]);
    }
  }

  lemma StepsOfMore(updates: seq<Update>)
    requires updates != []
    ensures var n := |updates| - 1; StepsOf(updates) == StepsOf(updates[..n]) + [StepOf(updates[n])]
  {
    hide StepOf;
  }

  lemma UpdateIsStep(s: State, u: Update)
    requires Ready(s)
    ensures Next(s, StepOf(u)) == s.(db := AfterUpdate(s.db, u))
  {
    hide AfterPut, AfterDelete;
  }

  /** `Rollback` with other callers' updates between its two transactions is a run of these steps: they end
      where the method says, and when it commits the spec it read is the latest. */
  lemma RollbackIsTwoSteps(steps: seq<Step>, id: nat, name: string, version: Int64, between: seq<Update>, now: int,
                           commits: bool)
    requires id !in Run(steps).pending
    ensures var before := Run(steps).db;
            var read, write := ReadStep(id, name, version), WriteStep(id, now, commits);
            var after := Run(steps + [read] + StepsOf(between) + [write]).db;
            var others := AfterUpdates(before, between);
            match ReadVersion(before, name, version)
            case None => after == others
            case Some(spec) =>
              && after == (if commits then AfterUpdate(others, PutUpdate(spec, now)) else others)
              && (commits && spec.name != "" ==> ReadLatest(after, spec.name) == Some(spec))
  {
    var read, write := ReadStep(id, name, version), WriteStep(id, now, commits);
    RunAppend(steps, read);
    UpdatesAreSteps(steps + [read], between);
    RunAppend(steps + [read] + StepsOf(between), write);
    hide Run, AfterUpdates, NextVersion, VersionKey, ReadVersion;
  }

  /** At the last version a Go int can count to, one more put restarts below all the others with a key
      that sorts above them, and what it leaves behind is no log's bucket. */
  lemma CounterOverflow(bucket: Bucket, log: seq<Entry>, e: Entry, other: seq<Entry>)
    requires Holds(bucket, log) && |log| == TWO_TO_63 - 1
    ensures WellKeyed(bucket) && NextVersion(bucket) == -TWO_TO_63
    ensures forall k | k in bucket :: Before(k, VersionKey(NextVersion(bucket)))
    ensures !Holds(bucket[VersionKey(NextVersion(bucket)) := e], other)
  {
    HoldsIsWellKeyed(bucket, log);
    CursorOrder(bucket, log);
    KeyAt(|log|, |log| - 1);
    hide VersionKey;
    forall k | k in bucket ensures Before(k, VersionKey(-TWO_TO_63)) {
      var i :| 0 <= i < |log| && KeysTo(|log|)[i] == k;
      KeyAt(|log|, i);
      VersionKeysEmbedOrder(i + 1, -TWO_TO_63);
    }
    if Holds(bucket[VersionKey(-TWO_TO_63) := e], other) {
      KeyAmong(|other|, -TWO_TO_63);
      assert false;
    }
  }
}
