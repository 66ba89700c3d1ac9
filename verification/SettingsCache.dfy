/**
 The process cache of `app/core/settings_store.py`, which expires after 60 seconds, in
 front of a table that several sessions read and write.

 One key is modelled, keys being independent. A read that misses the cache takes its clock
 reading, waits for the row, and writes the cache afterwards; other tasks may read, write,
 commit or invalidate in between. A write is flushed, not committed: until its session
 commits, that session reads the flushed row and every other session the committed one, and
 the row lock keeps other writers waiting.
 */
module SettingsCache {
  import opened Wrappers
  import opened SettingsStore

  const CACHE_TTL_SECONDS := 60.0

  type SessionId = nat

  type TaskId = nat

  /** A committed row, current from `since` to the next version. */
  datatype Version = Version(since: real, row: Option<Raw>)

  /** A flushed row, visible to its writer until it is committed, rolled back or overwritten;
      and the version it became, if any. */
  datatype Draft = Draft(writer: SessionId, row: Option<Raw>, since: real, until: Option<real>, version: Option<nat>)

  datatype Origin = Committed(version: nat) | Own(draft: nat)

  // A value with the row it came from and when that was read.
  datatype Reading = Reading(value: Value, origin: Origin, readAt: real)

  datatype Entry = Entry(expires: real, reading: Reading)

  // Where a call of `get_setting` is.
  datatype Counter =
    | Waiting                     // missed the cache, awaiting the row
    | Holding(reading: Reading)   // has the row, about to write the cache
    | Returned(reading: Reading)

  /** A call of `get_setting`. `seen` counts the versions committed when it began. */
  datatype Task = Task(session: SessionId, startedAt: real, seen: nat, at: Counter)

  /** The versions committed and the rows flushed, oldest first. While `open`, the last draft
      is neither committed nor rolled back. */
  datatype State = State(
    versions: seq<Version>, drafts: seq<Draft>, open: bool,
    cache: Option<Entry>, tasks: map<TaskId, Task>, now: real)
  {
    ghost predicate Wf() {
      versions != [] && (open ==> drafts != [])
    }

    function Latest(): nat
      requires versions != []
    {
      |versions| - 1
    }

    // Whether `w` has a row flushed and not committed.
    predicate Writing(w: SessionId)
      requires open ==> drafts != []
    {
      open && drafts[|drafts| - 1].writer == w
    }
  }

  function Initial(row: Option<Raw>, now: real): State {
    State([Version(now, row)], [], false, None, map[], now)
  }

  datatype Action =
    | Start(t: TaskId, session: SessionId)   // get_setting up to its await, or to a cache hit
    | ReadRow(t: TaskId)
    | Finish(t: TaskId)
    | SetSetting(w: SessionId, raw: Raw)            // up to the flush
    | WriteRow(w: SessionId, row: Option<Raw>)      // any other write: SQL by hand
    | Commit(w: SessionId)
    | Rollback(w: SessionId)
    | Invalidate
    | Tick(seconds: real)

  // ---------------------------------------------------------------------------
  // Steps
  // ---------------------------------------------------------------------------

  // What a session reads: its own flushed row, or the committed one.
  function Read(spec: Spec, s: State, session: SessionId): Reading
    requires s.Wf()
  {
    if s.Writing(session) then
      Reading(Effective(spec, s.drafts[|s.drafts| - 1].row), Own(|s.drafts| - 1), s.now)
    else Reading(Effective(spec, s.versions[s.Latest()].row), Committed(s.Latest()), s.now)
  }

  // The open draft, if any, ends now, as a version or not.
  function Ended(s: State, version: Option<nat>): seq<Draft>
    requires s.Wf()
  {
    if s.open then
      s.drafts[|s.drafts| - 1 := s.drafts[|s.drafts| - 1].(until := Some(s.now), version := version)]
    else s.drafts
  }

  // The row lock: a rival writer waits.
  function Flush(s: State, w: SessionId, row: Option<Raw>): Option<State>
    requires s.Wf()
  {
    if s.open && !s.Writing(w) then None
    else Some(s.(drafts := Ended(s, None) + [Draft(w, row, s.now, None, None)], open := true))
  }

  function Do(spec: Spec, s: State, a: Action): Option<State>
    requires s.Wf()
    ensures Do(spec, s, a).Some? ==> Do(spec, s, a).value.Wf()
  {
    match a
    case Start(t, session) =>
      if t in s.tasks then None
      else if s.cache.Some? && s.cache.value.expires > s.now then
        Some(s.(tasks := s.tasks[t := Task(session, s.now, |s.versions|, Returned(s.cache.value.reading))]))
      else Some(s.(tasks := s.tasks[t := Task(session, s.now, |s.versions|, Waiting)]))
    case ReadRow(t) =>
      if t !in s.tasks || !s.tasks[t].at.Waiting? then None
      else Some(s.(tasks := s.tasks[t := s.tasks[t].(at := Holding(Read(spec, s, s.tasks[t].session)))]))
    case Finish(t) =>
      if t !in s.tasks || !s.tasks[t].at.Holding? then None
      else
        var task := s.tasks[t];
        Some(s.(cache := Some(Entry(task.startedAt + CACHE_TTL_SECONDS, task.at.reading)),
                tasks := s.tasks[t := task.(at := Returned(task.at.reading))]))
    case SetSetting(w, raw) =>
      var coerced := Coerce(spec.kind, raw);
      if coerced.Err? then Some(s) else Flush(s, w, Some(coerced.value.ToRaw()))
    case WriteRow(w, row) => Flush(s, w, row)
    case Commit(w) =>
      if !s.Writing(w) then None
      else
        Some(s.(versions := s.versions + [Version(s.now, s.drafts[|s.drafts| - 1].row)],
                drafts := Ended(s, Some(|s.versions|)), open := false))
    case Rollback(w) => if !s.Writing(w) then None else Some(s.(drafts := Ended(s, None), open := false))
    case Invalidate => Some(s.(cache := None))
    case Tick(seconds) => if seconds < 0.0 then None else Some(s.(now := s.now + seconds))
  }

  /** The state after a schedule, when every step of it is enabled. */
  function Exec(spec: Spec, s: State, schedule: seq<Action>): (r: Option<State>)
    requires s.Wf()
    ensures r.Some? ==> r.value.Wf()
  {
    if schedule == [] then Some(s)
    else
      var before := Exec(spec, s, schedule[..|schedule| - 1]);
      if before.None? then None else Do(spec, before.value, schedule[|schedule| - 1])
  }

  lemma ExecOneMore(spec: Spec, s: State, schedule: seq<Action>, a: Action)
    requires s.Wf()
    ensures Exec(spec, s, schedule + [a]) ==
            if Exec(spec, s, schedule).None? then None else Do(spec, Exec(spec, s, schedule).value, a)
  {
    assert (schedule + [a])[..|schedule|] == schedule;
  }

  lemma ExecTwo(spec: Spec, s: State, a: Action, one: State, b: Action, two: State)
    requires s.Wf() && one.Wf() && Do(spec, s, a) == Some(one) && Do(spec, one, b) == Some(two)
    ensures Exec(spec, s, [a, b]) == Some(two)
  {
    assert [] + [a] == [a] && [a] + [b] == [a, b];
    ExecOneMore(spec, s, [], a);
    assert Exec(spec, s, [a]) == Some(one);
    ExecOneMore(spec, s, [a], b);
  }

  // ---------------------------------------------------------------------------
  // Bounded staleness
  // ---------------------------------------------------------------------------

  // The row was current, for those who could see it, when it was read.
  ghost predicate Genuine(spec: Spec, s: State, reading: Reading) {
    && reading.readAt <= s.now
    && match reading.origin
       case Committed(v) =>
         && v < |s.versions| && reading.value == Effective(spec, s.versions[v].row)
         && s.versions[v].since <= reading.readAt
         && (v + 1 < |s.versions| ==> reading.readAt <= s.versions[v + 1].since)
       case Own(d) =>
         && d < |s.drafts| && reading.value == Effective(spec, s.drafts[d].row)
         && s.drafts[d].since <= reading.readAt
         && (s.drafts[d].until.Some? ==> reading.readAt <= s.drafts[d].until.value)
  }

  // A committed draft is the version it became.
  ghost predicate DraftOk(s: State, draft: Draft) {
    draft.version.Some? ==> draft.version.value < |s.versions| && s.versions[draft.version.value].row == draft.row
  }

  ghost predicate TaskOk(spec: Spec, s: State, task: Task) {
    && task.startedAt <= s.now && task.seen <= |s.versions|
    && (task.at.Holding? ==> Genuine(spec, s, task.at.reading) && task.startedAt <= task.at.reading.readAt)
    && (task.at.Returned? ==> Genuine(spec, s, task.at.reading)
                              && task.startedAt - CACHE_TTL_SECONDS < task.at.reading.readAt)
  }

  ghost predicate Invariant(spec: Spec, s: State) {
    && s.Wf()
    && s.versions[|s.versions| - 1].since <= s.now
    && (s.open ==> s.drafts[|s.drafts| - 1].since <= s.now && s.drafts[|s.drafts| - 1].until.None?)
    && (forall d :: 0 <= d < |s.drafts| ==> DraftOk(s, s.drafts[d]))
    && (s.cache.Some? ==>
          && Genuine(spec, s, s.cache.value.reading)
          && s.cache.value.expires <= s.cache.value.reading.readAt + CACHE_TTL_SECONDS)
    && (forall t :: t in s.tasks ==> TaskOk(spec, s, s.tasks[t]))
  }

  // Both histories only grow, and drafts only end.
  ghost predicate Later(s: State, s': State) {
    && s.now <= s'.now
    && (s'.versions == s.versions
        || (|s'.versions| == |s.versions| + 1 && s'.versions[..|s.versions|] == s.versions
            && s'.versions[|s.versions|].since == s.now))
    && |s.drafts| <= |s'.drafts|
    && (forall d :: 0 <= d < |s.drafts| ==>
                      s'.drafts[d] == s.drafts[d]
                      || s'.drafts[d] == s.drafts[d].(until := Some(s.now), version := s'.drafts[d].version))
  }

  lemma StepIsLater(spec: Spec, s: State, a: Action)
    requires s.Wf() && Do(spec, s, a).Some?
    ensures Later(s, Do(spec, s, a).value)
  {
  }

  lemma StaysGenuine(spec: Spec, s: State, s': State, reading: Reading)
    requires Genuine(spec, s, reading) && Later(s, s')
    ensures Genuine(spec, s', reading)
  {
    match reading.origin
    case Committed(v) => if s'.versions != s.versions { assert s'.versions[..|s.versions|][v] == s'.versions[v]; }
    case Own(d) =>
  }

  lemma ReadIsGenuine(spec: Spec, s: State, session: SessionId)
    requires Invariant(spec, s)
    ensures Genuine(spec, s, Read(spec, s, session))
  {
  }

  lemma LaterTaskOk(spec: Spec, s: State, s': State, task: Task)
    requires TaskOk(spec, s, task) && Later(s, s')
    ensures TaskOk(spec, s', task)
  {
    if !task.at.Waiting? { StaysGenuine(spec, s, s', task.at.reading); }
  }

  lemma StepKeepsTasks(spec: Spec, s: State, a: Action, t: TaskId)
    requires Invariant(spec, s) && Do(spec, s, a).Some? && t in Do(spec, s, a).value.tasks
    ensures TaskOk(spec, Do(spec, s, a).value, Do(spec, s, a).value.tasks[t])
  {
    var s' := Do(spec, s, a).value;
    StepIsLater(spec, s, a);
    if a.Start? && a.t == t {
      if s.cache.Some? { StaysGenuine(spec, s, s', s.cache.value.reading); }
    } else if a.ReadRow? && a.t == t {
      ReadIsGenuine(spec, s, s.tasks[t].session);
      StaysGenuine(spec, s, s', Read(spec, s, s.tasks[t].session));
    } else if a.Finish? && a.t == t {
      LaterTaskOk(spec, s, s', s.tasks[t]);
    } else {
      LaterTaskOk(spec, s, s', s.tasks[t]);
    }
  }

  lemma StepKeepsDrafts(spec: Spec, s: State, a: Action)
    requires Invariant(spec, s) && Do(spec, s, a).Some?
    ensures var s' := Do(spec, s, a).value; forall d :: 0 <= d < |s'.drafts| ==> DraftOk(s', s'.drafts[d])
  {
    var s' := Do(spec, s, a).value;
    forall d | 0 <= d < |s'.drafts| ensures DraftOk(s', s'.drafts[d])
    {
      if d < |s.drafts| { assert DraftOk(s, s.drafts[d]); }
    }
  }

  lemma StepKeepsInvariant(spec: Spec, s: State, a: Action)
    requires Invariant(spec, s) && Do(spec, s, a).Some?
    ensures Invariant(spec, Do(spec, s, a).value)
  {
    var s' := Do(spec, s, a).value;
    StepIsLater(spec, s, a);
    if s.cache.Some? {
      StaysGenuine(spec, s, s', s.cache.value.reading);
    }
    if a.Finish? {
      StaysGenuine(spec, s, s', s.tasks[a.t].at.reading);
    }
    StepKeepsDrafts(spec, s, a);
    forall t | t in s'.tasks ensures TaskOk(spec, s', s'.tasks[t]) { StepKeepsTasks(spec, s, a, t); }
  }

  lemma {:induction false} ReachableInvariant(spec: Spec, s: State, schedule: seq<Action>)
    requires Invariant(spec, s) && Exec(spec, s, schedule).Some?
    ensures Invariant(spec, Exec(spec, s, schedule).value)
  {
    if schedule == [] {
    } else {
      var n := |schedule| - 1;
      ReachableInvariant(spec, s, schedule[..n]);
      StepKeepsInvariant(spec, Exec(spec, s, schedule[..n]).value, schedule[n]);
    }
  }

  /** Whatever interleaves, a returned value is what a row is served as that was read less than
      60 seconds before the call began, or later: a version that was then the committed one, or a
      row that the reading session itself had flushed and not yet committed or rolled back. */
  lemma ReturnedValuesAreRecent(spec: Spec, row: Option<Raw>, start: real, schedule: seq<Action>, t: TaskId)
    requires Exec(spec, Initial(row, start), schedule).Some?
    requires var s := Exec(spec, Initial(row, start), schedule).value; t in s.tasks && s.tasks[t].at.Returned?
    ensures var s := Exec(spec, Initial(row, start), schedule).value;
            var reading, oldest := s.tasks[t].at.reading, s.tasks[t].startedAt - 60.0;
            && oldest < reading.readAt <= s.now
            && match reading.origin
               case Committed(v) =>
                 && v < |s.versions| && Serves(spec, s.versions[v].row, reading.value)
                 && (v + 1 < |s.versions| ==> s.versions[v + 1].since > oldest)
               case Own(d) =>
                 && d < |s.drafts| && Serves(spec, s.drafts[d].row, reading.value)
                 && (s.drafts[d].until.Some? ==> s.drafts[d].until.value > oldest)
  {
    ReachableInvariant(spec, Initial(row, start), schedule);
    var s := Exec(spec, Initial(row, start), schedule).value;
    assert TaskOk(spec, s, s.tasks[t]);
    match s.tasks[t].at.reading.origin
    case Committed(v) => EffectiveIsServed(spec, s.versions[v].row);
    case Own(d) => EffectiveIsServed(spec, s.drafts[d].row);
  }

  /** Without writes, every get returns the default if there is no row, or none that validation
      accepts, and otherwise the value that the row is accepted for. */
  lemma UnwrittenSettingIsServed(spec: Spec, row: Option<Raw>, start: real, schedule: seq<Action>, t: TaskId)
    requires Exec(spec, Initial(row, start), schedule).Some? && forall a :: a in schedule ==> !Flushes(a)
    requires var s := Exec(spec, Initial(row, start), schedule).value; t in s.tasks && s.tasks[t].at.Returned?
    ensures Serves(spec, row, Exec(spec, Initial(row, start), schedule).value.tasks[t].at.reading.value)
    ensures row.None? ==>
              Exec(spec, Initial(row, start), schedule).value.tasks[t].at.reading.value == spec.default
  {
    ReturnedValuesAreRecent(spec, row, start, schedule, t);
    RowsAreLeft(spec, Initial(row, start), schedule);
  }

  // The row that a session reads.
  function RowFor(s: State, session: SessionId): Option<Raw>
    requires s.Wf()
  {
    if s.Writing(session) then s.drafts[|s.drafts| - 1].row else s.versions[|s.versions| - 1].row
  }

  /** A get that finds no live entry returns what the row its session sees is served as, and
      caches that for 60 seconds. */
  lemma MissReadsTheRow(spec: Spec, s: State, t: TaskId, session: SessionId)
    returns (schedule: seq<Action>, end: State)
    requires s.Wf() && t !in s.tasks && (s.cache.Some? ==> s.cache.value.expires <= s.now)
    ensures schedule == [Start(t, session), ReadRow(t), Finish(t)] && Exec(spec, s, schedule) == Some(end)
    ensures t in end.tasks && end.tasks[t].at.Returned?
    ensures Serves(spec, RowFor(s, session), end.tasks[t].at.reading.value)
    ensures end.cache == Some(Entry(s.now + 60.0, end.tasks[t].at.reading)) && end.now == s.now
  {
    schedule, end := Advance(spec, s, [], s, Start(t, session));
    schedule, end := Advance(spec, s, schedule, end, ReadRow(t));
    assert end.tasks[t].at == Holding(Read(spec, s, session));
    schedule, end := Advance(spec, s, schedule, end, Finish(t));
    ReadIsServed(spec, s, session);
  }

  lemma ReadIsServed(spec: Spec, s: State, session: SessionId)
    requires s.Wf()
    ensures Serves(spec, RowFor(s, session), Read(spec, s, session).value)
  {
    EffectiveIsServed(spec, RowFor(s, session));
  }

  /** A cached reading is what every get returns at once, without reading the row, until it
      expires, is invalidated, or another read finishes. */
  lemma {:induction false} HitReturnsTheEntry(spec: Spec, s: State, schedule: seq<Action>, t: TaskId,
                                              session: SessionId)
    requires s.Wf() && s.cache.Some? && Exec(spec, s, schedule).Some?
    requires forall a :: a in schedule ==> !a.Finish? && !a.Invalidate?
    ensures var now := Exec(spec, s, schedule).value;
            && now.cache == s.cache
            && (now.now < s.cache.value.expires && t !in now.tasks ==>
                  var hit := Do(spec, now, Start(t, session));
                  hit.Some? && hit.value.tasks[t].at == Returned(s.cache.value.reading))
  {
    if schedule != [] {
      var n := |schedule| - 1;
      assert schedule[n] in schedule;
      HitReturnsTheEntry(spec, s, schedule[..n], t, session);
    }
  }

  // ---------------------------------------------------------------------------
  // What a get returns after an invalidation
  // ---------------------------------------------------------------------------

  // The version a reading is of, if its row was ever committed.
  function VersionOf(s: State, reading: Reading): Option<nat> {
    match reading.origin
    case Committed(v) => Some(v)
    case Own(d) => if d < |s.drafts| then s.drafts[d].version else None
  }

  /** A reading of the newest row: the flushed one while there is one, else the latest version. */
  predicate Newest(s: State, reading: Reading)
    requires s.Wf()
  {
    if s.open then reading.origin == Own(|s.drafts| - 1) else VersionOf(s, reading) == Some(s.Latest())
  }

  predicate Sees(s: State, session: SessionId)
    requires s.Wf()
  {
    !s.open || s.Writing(session)
  }

  // The call has yet to write the cache, with an entry that will not arrive expired.
  predicate WillCache(s: State, t: TaskId) {
    t in s.tasks && !s.tasks[t].at.Returned? && s.now < s.tasks[t].startedAt + CACHE_TTL_SECONDS
  }

  /** No read is in flight that would put anything but the newest row into the cache. */
  ghost predicate Quiet(s: State)
    requires s.Wf()
  {
    forall t :: WillCache(s, t) ==>
                  if s.tasks[t].at.Holding? then Newest(s, s.tasks[t].at.reading) else Sees(s, s.tasks[t].session)
  }

  // Steps that leave the newest row alone, and reads by sessions that see it.
  predicate Still(s: State, a: Action)
    requires s.Wf()
  {
    && !a.SetSetting? && !a.WriteRow?
    && (s.open ==> !a.Commit? && !a.Rollback?)
    && (a.Start? ==> Sees(s, a.session))
  }

  ghost predicate SeesNewest(spec: Spec, s: State, schedule: seq<Action>, t: TaskId)
    requires s.Wf()
  {
    (forall a :: a in schedule ==> Still(s, a)) && Exec(spec, s, schedule).Some? ==>
      var end := Exec(spec, s, schedule).value;
      t in end.tasks && t !in s.tasks && end.tasks[t].at.Returned? ==> Newest(s, end.tasks[t].at.reading)
  }

  // `s` is `first` some still steps later, and nothing but the newest row is about.
  ghost predicate StillNewest(first: State, s: State)
    requires first.Wf() && s.Wf()
  {
    && s.versions == first.versions && s.drafts == first.drafts && s.open == first.open && s.now >= first.now
    && Quiet(s)
    && (s.cache.Some? && s.now < s.cache.value.expires ==> Newest(first, s.cache.value.reading))
    && (forall t :: t in s.tasks && t !in first.tasks ==>
                      && Sees(first, s.tasks[t].session)
                      && (!s.tasks[t].at.Waiting? ==> Newest(first, s.tasks[t].at.reading)))
  }

  lemma StillStep(spec: Spec, first: State, s: State, a: Action)
    requires first.Wf() && s.Wf() && StillNewest(first, s) && Still(first, a) && Do(spec, s, a).Some?
    ensures StillNewest(first, Do(spec, s, a).value)
  {
    var s' := Do(spec, s, a).value;
    forall t | WillCache(s', t)
      ensures if s'.tasks[t].at.Holding? then Newest(s', s'.tasks[t].at.reading) else Sees(s', s'.tasks[t].session)
    {
      assert t in s.tasks ==> WillCache(s, t);
    }
    if a.Finish? {
      assert WillCache(s, a.t) || s.now >= s.tasks[a.t].startedAt + CACHE_TTL_SECONDS;
    }
  }

  lemma {:induction false} StaysNewest(spec: Spec, s: State, schedule: seq<Action>)
    requires s.Wf() && s.cache.None? && Quiet(s) && Exec(spec, s, schedule).Some?
    requires forall a :: a in schedule ==> Still(s, a)
    ensures StillNewest(s, Exec(spec, s, schedule).value)
  {
    if schedule == [] {
    } else {
      var n := |schedule| - 1;
      assert schedule[n] in schedule;
      StaysNewest(spec, s, schedule[..n]);
      StillStep(spec, s, Exec(spec, s, schedule[..n]).value, schedule[n]);
    }
  }

  lemma Advance(spec: Spec, s: State, schedule: seq<Action>, now: State, a: Action)
    returns (longer: seq<Action>, next: State)
    requires s.Wf() && Exec(spec, s, schedule) == Some(now) && Do(spec, now, a).Some?
    ensures longer == schedule + [a] && Exec(spec, s, longer) == Some(next) && Some(next) == Do(spec, now, a)
  {
    ExecOneMore(spec, s, schedule, a);
    longer, next := schedule + [a], Do(spec, now, a).value;
  }

  // A read in flight of anything else can finish, and a get started then returns it.
  lemma LoudRead(spec: Spec, s: State, reader: TaskId, t: TaskId, session: SessionId)
    returns (schedule: seq<Action>, end: State)
    requires s.Wf() && WillCache(s, reader) && t !in s.tasks && Sees(s, session)
    requires !if s.tasks[reader].at.Holding? then Newest(s, s.tasks[reader].at.reading)
              else Sees(s, s.tasks[reader].session)
    ensures (forall a :: a in schedule ==> Still(s, a)) && Exec(spec, s, schedule) == Some(end)
    ensures t in end.tasks && end.tasks[t].at.Returned? && !Newest(s, end.tasks[t].at.reading)
    ensures end.tasks[t].seen == |s.versions| && end.drafts == s.drafts
    ensures s.tasks[reader].at.Holding? ==> end.tasks[t].at.reading == s.tasks[reader].at.reading
  {
    if s.tasks[reader].at.Holding? {
      schedule, end := FinishAndGet(spec, s, [], s, reader, t, session);
      assert schedule == [Finish(reader), Start(t, session)];
    } else {
      schedule, end := LoudWaiting(spec, s, reader, t, session);
    }
  }

  lemma LoudWaiting(spec: Spec, s: State, reader: TaskId, t: TaskId, session: SessionId)
    returns (schedule: seq<Action>, end: State)
    requires s.Wf() && WillCache(s, reader) && s.tasks[reader].at.Waiting? && !Sees(s, s.tasks[reader].session)
    requires t !in s.tasks && Sees(s, session)
    ensures (forall a :: a in schedule ==> Still(s, a)) && Exec(spec, s, schedule) == Some(end)
    ensures t in end.tasks && end.tasks[t].at.Returned? && !Newest(s, end.tasks[t].at.reading)
    ensures end.tasks[t].seen == |s.versions| && end.drafts == s.drafts
  {
    var held := HeldRow(spec, s, reader);
    ExecOneMore(spec, s, [], ReadRow(reader));
    assert [] + [ReadRow(reader)] == [ReadRow(reader)];
    schedule, end := FinishAndGet(spec, s, [ReadRow(reader)], held, reader, t, session);
    assert schedule == [ReadRow(reader), Finish(reader), Start(t, session)];
  }

  // The row read by a session that does not see the newest.
  lemma HeldRow(spec: Spec, s: State, reader: TaskId) returns (held: State)
    requires s.Wf() && WillCache(s, reader) && s.tasks[reader].at.Waiting? && !Sees(s, s.tasks[reader].session)
    ensures Do(spec, s, ReadRow(reader)) == Some(held) && held.Wf() && WillCache(held, reader)
    ensures held.versions == s.versions && held.drafts == s.drafts && held.tasks.Keys == s.tasks.Keys
    ensures held.tasks[reader].at.Holding? && !Newest(s, held.tasks[reader].at.reading)
  {
    held := Do(spec, s, ReadRow(reader)).value;
  }

  // A read that has its row finishes, and a get started then returns it.
  lemma FinishAndGet(spec: Spec, s: State, before: seq<Action>, held: State, reader: TaskId, t: TaskId,
                     session: SessionId)
    returns (schedule: seq<Action>, end: State)
    requires s.Wf() && Exec(spec, s, before) == Some(held) && held.Wf()
    requires WillCache(held, reader) && held.tasks[reader].at.Holding? && t !in held.tasks
    ensures schedule == before + [Finish(reader)] + [Start(t, session)] && Exec(spec, s, schedule) == Some(end)
    ensures end.drafts == held.drafts && t in end.tasks && end.tasks[t].seen == |held.versions|
    ensures end.tasks[t].at == Returned(held.tasks[reader].at.reading)
  {
    var cached: State;
    schedule, cached := Advance(spec, s, before, held, Finish(reader));
    schedule, end := Advance(spec, s, schedule, cached, Start(t, session));
  }

  // An id that is not taken.
  lemma {:induction false} FreeId(ids: set<nat>) returns (id: nat)
    ensures forall x :: x in ids ==> x < id
  {
    if ids == {} {
      id := 0;
    } else {
      var x :| x in ids;
      var below := FreeId(ids - {x});
      id := if below > x then below else x + 1;
      assert forall y :: y in ids ==> y == x || y in ids - {x};
    }
  }

  /** After an invalidation, as long as the newest row stays, every session that sees it is
      served it at once if and only if no read of anything else is in flight. */
  lemma NewestIsSeenExactly(spec: Spec, s: State)
    requires s.Wf() && s.cache.None?
    ensures Quiet(s) <==> forall schedule, t :: SeesNewest(spec, s, schedule, t)
  {
    if Quiet(s) {
      forall schedule, t ensures SeesNewest(spec, s, schedule, t)
      {
        if (forall a :: a in schedule ==> Still(s, a)) && Exec(spec, s, schedule).Some? {
          StaysNewest(spec, s, schedule);
        }
      }
    } else {
      var reader :| WillCache(s, reader)
                    && !if s.tasks[reader].at.Holding? then Newest(s, s.tasks[reader].at.reading)
                        else Sees(s, s.tasks[reader].session);
      var t := FreeId(s.tasks.Keys);
      var session := if s.open then s.drafts[|s.drafts| - 1].writer else 0;
      var schedule, end := LoudRead(spec, s, reader, t, session);
      assert !SeesNewest(spec, s, schedule, t);
    }
  }

  // ---------------------------------------------------------------------------
  // Invalidating before the commit
  // ---------------------------------------------------------------------------

  /** While a row is flushed and not committed, another session's get refills the invalidated
      cache with the old version, and gets that begin after the commit are served it. */
  lemma CommitAfterInvalidateIsStale(spec: Spec, s: State, w: SessionId, other: SessionId, a: TaskId, b: TaskId)
    returns (schedule: seq<Action>, end: State)
    requires s.Wf() && s.cache.None? && s.Writing(w) && other != w
    requires a !in s.tasks && b !in s.tasks && a != b
    ensures schedule == [Start(a, other), ReadRow(a), Finish(a), Commit(w), Start(b, other)]
    ensures Exec(spec, s, schedule) == Some(end)
    ensures |end.versions| == |s.versions| + 1 && end.versions[|s.versions|].row == s.drafts[|s.drafts| - 1].row
    ensures b in end.tasks && end.tasks[b].at.Returned? && end.tasks[b].seen == |end.versions|
    ensures end.tasks[b].at.reading ==
            Reading(Effective(spec, s.versions[s.Latest()].row), Committed(s.Latest()), s.now)
  {
    schedule, end := Advance(spec, s, [], s, Start(a, other));
    schedule, end := Advance(spec, s, schedule, end, ReadRow(a));
    schedule, end := Advance(spec, s, schedule, end, Finish(a));
    schedule, end := Advance(spec, s, schedule, end, Commit(w));
    schedule, end := Advance(spec, s, schedule, end, Start(b, other));
  }

  /** The returned row is no older than what was committed when the call began. */
  predicate Fresh(s: State, task: Task) {
    task.at.Returned? ==>
      var version := VersionOf(s, task.at.reading);
      version.Some? && version.value + 1 >= task.seen
  }

  predicate Flushes(a: Action) {
    a.SetSetting? || a.WriteRow?
  }

  ghost predicate GetIsFresh(spec: Spec, s: State, schedule: seq<Action>, t: TaskId)
    requires s.Wf()
  {
    (forall a :: a in schedule ==> !Flushes(a)) && Exec(spec, s, schedule).Some? ==>
      var end := Exec(spec, s, schedule).value;
      t in end.tasks && t !in s.tasks ==> Fresh(end, end.tasks[t])
  }

  lemma QuietGetIsFresh(spec: Spec, s: State, schedule: seq<Action>, t: TaskId)
    requires Invariant(spec, s) && s.cache.None? && !s.open && Quiet(s)
    ensures GetIsFresh(spec, s, schedule, t)
  {
    if (forall a :: a in schedule ==> !Flushes(a)) && Exec(spec, s, schedule).Some? {
      assert forall a :: a in schedule ==> Still(s, a);
      StaysNewest(spec, s, schedule);
      ReachableInvariant(spec, s, schedule);
      assert StillNewest(s, Exec(spec, s, schedule).value);
    }
  }

  lemma StaleGetIsNotFresh(spec: Spec, s: State, schedule: seq<Action>, end: State, t: TaskId)
    requires Invariant(spec, s) && !s.open && Exec(spec, s, schedule) == Some(end) && end.drafts == s.drafts
    requires t in end.tasks && end.tasks[t].at.Returned? && end.tasks[t].seen == |s.versions|
    requires Genuine(spec, s, end.tasks[t].at.reading) && !Newest(s, end.tasks[t].at.reading)
    ensures !Fresh(end, end.tasks[t])
  {
    match end.tasks[t].at.reading.origin
    case Committed(v) =>
    case Own(d) => assert DraftOk(s, s.drafts[d]);
  }

  /** After an invalidation every later get returns a row at least as new as the one committed
      when it began, whatever else reads, commits or rolls back, if and only if the write was
      committed before the invalidation and no older read is in flight. */
  lemma InvalidationIsSeenExactly(spec: Spec, s: State)
    requires Invariant(spec, s) && s.cache.None?
    ensures (!s.open && Quiet(s)) <==> forall schedule, t :: GetIsFresh(spec, s, schedule, t)
  {
    if !s.open && Quiet(s) {
      forall schedule, t ensures GetIsFresh(spec, s, schedule, t) { QuietGetIsFresh(spec, s, schedule, t); }
    } else if s.open {
      var a := FreeId(s.tasks.Keys);
      var w := s.drafts[|s.drafts| - 1].writer;
      var schedule, end := CommitAfterInvalidateIsStale(spec, s, w, w + 1, a, a + 1);
      assert !GetIsFresh(spec, s, schedule, a + 1);
    } else {
      var reader :| WillCache(s, reader) && s.tasks[reader].at.Holding? && !Newest(s, s.tasks[reader].at.reading);
      var t := FreeId(s.tasks.Keys);
      var schedule, end := LoudRead(spec, s, reader, t, 0);
      assert TaskOk(spec, s, s.tasks[reader]);
      StaleGetIsNotFresh(spec, s, schedule, end, t);
      assert !GetIsFresh(spec, s, schedule, t);
    }
  }

  // ---------------------------------------------------------------------------
  // Set, commit, invalidate, get
  // ---------------------------------------------------------------------------

  // The newest row's effective value is what a genuine reading of it holds.
  lemma NewestReading(spec: Spec, s: State, reading: Reading)
    requires Invariant(spec, s) && Genuine(spec, s, reading) && Newest(s, reading)
    ensures reading.value ==
            Effective(spec, if s.open then s.drafts[|s.drafts| - 1].row else s.versions[s.Latest()].row)
  {
    match reading.origin
    case Committed(v) =>
    case Own(d) => assert DraftOk(s, s.drafts[d]);
  }

  lemma StillNewestValue(spec: Spec, s: State, end: State, t: TaskId)
    requires s.Wf() && Invariant(spec, end) && StillNewest(s, end)
    requires t !in s.tasks && t in end.tasks && end.tasks[t].at.Returned?
    ensures end.tasks[t].at.reading.value ==
            Effective(spec, if s.open then s.drafts[|s.drafts| - 1].row else s.versions[s.Latest()].row)
  {
    assert TaskOk(spec, end, end.tasks[t]);
    NewestReading(spec, end, end.tasks[t].at.reading);
  }

  lemma NewestValue(spec: Spec, s: State, schedule: seq<Action>, t: TaskId)
    requires Invariant(spec, s) && s.cache.None? && Quiet(s) && t !in s.tasks
    requires (forall a :: a in schedule ==> Still(s, a)) && Exec(spec, s, schedule).Some?
    requires var end := Exec(spec, s, schedule).value; t in end.tasks && end.tasks[t].at.Returned?
    ensures Exec(spec, s, schedule).value.tasks[t].at.reading.value ==
            Effective(spec, if s.open then s.drafts[|s.drafts| - 1].row else s.versions[s.Latest()].row)
  {
    StaysNewest(spec, s, schedule);
    ReachableInvariant(spec, s, schedule);
    StillNewestValue(spec, s, Exec(spec, s, schedule).value, t);
  }

  // `set_setting`, which the row lock lets through.
  function AfterSet(spec: Spec, s: State, w: SessionId, raw: Raw): (after: State)
    requires s.Wf() && (s.open ==> s.Writing(w)) && Coerce(spec.kind, raw).Ok?
    ensures after.Wf() && after.Writing(w)
  {
    Do(spec, s, SetSetting(w, raw)).value
  }

  // Steps that leave every row, flushed or committed, as it is.
  predicate LeavesRows(a: Action) {
    !Flushes(a) && !a.Commit? && !a.Rollback?
  }

  lemma {:induction false} RowsAreLeft(spec: Spec, s: State, schedule: seq<Action>)
    requires s.Wf() && Exec(spec, s, schedule).Some?
    requires forall a :: a in schedule ==> LeavesRows(a) || (!s.open && !Flushes(a))
    ensures var end := Exec(spec, s, schedule).value;
            end.versions == s.versions && end.drafts == s.drafts && end.open == s.open
  {
    if schedule == [] {
    } else {
      var n := |schedule| - 1;
      assert schedule[n] in schedule;
      RowsAreLeft(spec, s, schedule[..n]);
    }
  }

  // Set, some steps, commit, some steps, invalidate.
  function SetCommitInvalidate(spec: Spec, s: State, w: SessionId, raw: Raw, one: seq<Action>,
                               two: seq<Action>): Option<State>
    requires s.Wf() && (s.open ==> s.Writing(w)) && Coerce(spec.kind, raw).Ok?
  {
    var before := Exec(spec, AfterSet(spec, s, w, raw), one);
    if before.None? then None
    else
      var committed := Do(spec, before.value, Commit(w));
      if committed.None? then None
      else
        var later := Exec(spec, committed.value, two);
        if later.None? then None else Do(spec, later.value, Invalidate)
  }

  lemma SetCommitInvalidateRow(spec: Spec, before: State, w: SessionId, raw: Raw, one: seq<Action>, two: seq<Action>)
    requires Invariant(spec, before) && (before.open ==> before.Writing(w)) && Coerce(spec.kind, raw).Ok?
    requires (forall a :: a in one ==> LeavesRows(a)) && forall a :: a in two ==> !Flushes(a)
    requires SetCommitInvalidate(spec, before, w, raw, one, two).Some?
    ensures var s := SetCommitInvalidate(spec, before, w, raw, one, two).value;
            && Invariant(spec, s) && !s.open && s.cache.None?
            && s.versions[s.Latest()].row == Some(Coerce(spec.kind, raw).value.ToRaw())
  {
    var set_ := AfterSet(spec, before, w, raw);
    StepKeepsInvariant(spec, before, SetSetting(w, raw));
    RowsAreLeft(spec, set_, one);
    ReachableInvariant(spec, set_, one);
    var flushed := Exec(spec, set_, one).value;
    StepKeepsInvariant(spec, flushed, Commit(w));
    var committed := Do(spec, flushed, Commit(w)).value;
    RowsAreLeft(spec, committed, two);
    ReachableInvariant(spec, committed, two);
    StepKeepsInvariant(spec, Exec(spec, committed, two).value, Invalidate);
  }

  /** Set, commit, invalidate, whatever other tasks read in between: with no older read in
      flight at the invalidation, every later get, by any session, until the next write,
      returns the coerced value. */
  lemma SetThenGet(spec: Spec, before: State, w: SessionId, raw: Raw, one: seq<Action>, two: seq<Action>,
                   s: State, schedule: seq<Action>, t: TaskId)
    requires Invariant(spec, before) && (before.open ==> before.Writing(w)) && Coerce(spec.kind, raw).Ok?
    requires (forall a :: a in one ==> LeavesRows(a)) && forall a :: a in two + schedule ==> !Flushes(a)
    requires SetCommitInvalidate(spec, before, w, raw, one, two) == Some(s)
    requires s.Wf() && Quiet(s) && t !in s.tasks && Exec(spec, s, schedule).Some?
    requires var end := Exec(spec, s, schedule).value; t in end.tasks && end.tasks[t].at.Returned?
    ensures Exec(spec, s, schedule).value.tasks[t].at.reading.value == Coerce(spec.kind, raw).value
  {
    forall a | a in two ensures !Flushes(a) { assert a in two + schedule; }
    SetCommitInvalidateRow(spec, before, w, raw, one, two);
    forall a | a in schedule ensures Still(s, a) { assert a in two + schedule; }
    NewestValue(spec, s, schedule, t);
    CoerceIsIdempotent(spec.kind, raw);
  }

  /** Set, invalidate, in the writer's own session, whatever is read in between: until it
      commits, its gets return the coerced value, if at the invalidation no read of another row
      is in flight and no other session reads. */
  lemma SetThenGetInOwnSession(spec: Spec, before: State, w: SessionId, raw: Raw, one: seq<Action>, flushed: State,
                               schedule: seq<Action>, t: TaskId)
    requires Invariant(spec, before) && (before.open ==> before.Writing(w)) && Coerce(spec.kind, raw).Ok?
    requires Exec(spec, AfterSet(spec, before, w, raw), one) == Some(flushed) && flushed.Wf()
    requires (forall a :: a in one + schedule ==> LeavesRows(a)) && Quiet(flushed) && t !in flushed.tasks
    requires forall a :: a in schedule && a.Start? ==> a.session == w
    requires var end := Exec(spec, flushed.(cache := None), schedule);
             end.Some? && t in end.value.tasks && end.value.tasks[t].at.Returned?
    ensures Exec(spec, flushed.(cache := None), schedule).value.tasks[t].at.reading.value ==
            Coerce(spec.kind, raw).value
  {
    var set_ := AfterSet(spec, before, w, raw);
    var s := flushed.(cache := None);
    StepKeepsInvariant(spec, before, SetSetting(w, raw));
    forall a | a in one ensures LeavesRows(a) { assert a in one + schedule; }
    RowsAreLeft(spec, set_, one);
    ReachableInvariant(spec, set_, one);
    StepKeepsInvariant(spec, flushed, Invalidate);
    forall a | a in schedule ensures Still(s, a) { assert a in one + schedule; }
    SameQuiet(flushed, s);
    NewestValue(spec, s, schedule, t);
    CoerceIsIdempotent(spec.kind, raw);
  }

  lemma SameQuiet(s: State, s': State)
    requires s.Wf() && Quiet(s) && s' == s.(cache := None)
    ensures Quiet(s')
  {
    forall t | WillCache(s', t)
      ensures if s'.tasks[t].at.Holding? then Newest(s', s'.tasks[t].at.reading) else Sees(s', s'.tasks[t].session)
    {
      assert WillCache(s, t);
    }
  }

  /** The order both writers of the source use, set, invalidate, commit: with no read in
      flight, another session's get in between is enough for a get that begins after the
      commit to return the value that was replaced. */
  lemma InvalidatingBeforeCommitIsStale(spec: Spec, before: State, w: SessionId, raw: Raw, other: SessionId,
                                        a: TaskId, b: TaskId)
    returns (schedule: seq<Action>, end: State)
    requires Invariant(spec, before) && !before.open && Coerce(spec.kind, raw).Ok? && other != w
    requires a !in before.tasks && b !in before.tasks && a != b
    ensures schedule ==
            [SetSetting(w, raw), Invalidate, Start(a, other), ReadRow(a), Finish(a), Commit(w), Start(b, other)]
    ensures Exec(spec, before, schedule) == Some(end)
    ensures end.versions[end.Latest()].row == Some(Coerce(spec.kind, raw).value.ToRaw())
    ensures b in end.tasks && end.tasks[b].at.Returned? && end.tasks[b].seen == |end.versions|
    ensures end.tasks[b].at.reading.value == Effective(spec, before.versions[before.Latest()].row)
  {
    var set_ := AfterSet(spec, before, w, raw);
    var s := Do(spec, set_, Invalidate).value;
    ExecTwo(spec, before, SetSetting(w, raw), set_, Invalidate, s);
    var rest;
    rest, end := CommitAfterInvalidateIsStale(spec, s, w, other, a, b);
    schedule := [SetSetting(w, raw), Invalidate] + rest;
    ExecOfSum(spec, before, [SetSetting(w, raw), Invalidate], rest);
    assert s.versions == before.versions && s.drafts[|s.drafts| - 1].row == Some(Coerce(spec.kind, raw).value.ToRaw());
  }

  lemma {:induction false} ExecOfSum(spec: Spec, s: State, first: seq<Action>, rest: seq<Action>)
    requires s.Wf() && Exec(spec, s, first).Some?
    ensures Exec(spec, s, first + rest) == Exec(spec, Exec(spec, s, first).value, rest)
  {
    if rest == [] {
      assert first + rest == first;
    } else {
      var n := |rest| - 1;
      ExecOfSum(spec, s, first, rest[..n]);
      assert (first + rest)[..|first + rest| - 1] == first + rest[..n];
    }
  }

  // ---------------------------------------------------------------------------
  // Values that were never committed
  // ---------------------------------------------------------------------------

  // No session reads the row it is itself writing.
  predicate ReadsCommitted(s: State, a: Action)
    requires s.Wf()
  {
    a.ReadRow? && a.t in s.tasks ==> !s.Writing(s.tasks[a.t].session)
  }

  ghost predicate ReadsCommittedOnly(spec: Spec, s: State, schedule: seq<Action>)
    requires s.Wf()
  {
    schedule != [] ==>
      var n := |schedule| - 1;
      && ReadsCommittedOnly(spec, s, schedule[..n])
      && (Exec(spec, s, schedule[..n]).Some? ==> ReadsCommitted(Exec(spec, s, schedule[..n]).value, schedule[n]))
  }

  ghost predicate AllCommitted(s: State) {
    && (s.cache.Some? ==> s.cache.value.reading.origin.Committed?)
    && (forall t :: t in s.tasks && !s.tasks[t].at.Waiting? ==> s.tasks[t].at.reading.origin.Committed?)
  }

  /** As long as no session's get misses the cache while that session has a write flushed and
      not committed, only committed rows are ever returned. */
  lemma {:induction false} OnlyCommittedIsServed(spec: Spec, s: State, schedule: seq<Action>)
    requires s.Wf() && AllCommitted(s) && ReadsCommittedOnly(spec, s, schedule) && Exec(spec, s, schedule).Some?
    ensures AllCommitted(Exec(spec, s, schedule).value)
  {
    if schedule == [] {
    } else {
      var n := |schedule| - 1;
      OnlyCommittedIsServed(spec, s, schedule[..n]);
      CommittedStep(spec, Exec(spec, s, schedule[..n]).value, schedule[n]);
    }
  }

  lemma CommittedStep(spec: Spec, s: State, a: Action)
    requires s.Wf() && AllCommitted(s) && ReadsCommitted(s, a) && Do(spec, s, a).Some?
    ensures AllCommitted(Do(spec, s, a).value)
  {
  }

  lemma OwnRead(spec: Spec, s: State, reader: TaskId) returns (one: State)
    requires s.Wf() && reader in s.tasks && s.tasks[reader].at.Waiting? && s.Writing(s.tasks[reader].session)
    ensures Do(spec, s, ReadRow(reader)) == Some(one) && one.tasks.Keys == s.tasks.Keys
    ensures one.versions == s.versions && one.drafts == s.drafts && one.open == s.open && one.now == s.now
    ensures one.tasks[reader].startedAt == s.tasks[reader].startedAt
    ensures one.tasks[reader].at ==
            Holding(Reading(Effective(spec, s.drafts[|s.drafts| - 1].row), Own(|s.drafts| - 1), s.now))
  {
    one := Do(spec, s, ReadRow(reader)).value;
  }

  lemma OwnFinish(spec: Spec, s: State, reader: TaskId) returns (one: State)
    requires s.Wf() && reader in s.tasks && s.tasks[reader].at.Holding?
    ensures Do(spec, s, Finish(reader)) == Some(one) && one.tasks.Keys == s.tasks.Keys
    ensures one.versions == s.versions && one.drafts == s.drafts && one.open == s.open && one.now == s.now
    ensures one.cache == Some(Entry(s.tasks[reader].startedAt + CACHE_TTL_SECONDS, s.tasks[reader].at.reading))
  {
    one := Do(spec, s, Finish(reader)).value;
  }

  /** Each time one does, the row can be rolled back and still be served to another session. */
  lemma RolledBackValueIsServed(spec: Spec, s: State, w: SessionId, other: SessionId, reader: TaskId, t: TaskId)
    returns (schedule: seq<Action>, end: State)
    requires Invariant(spec, s) && s.Writing(w) && WillCache(s, reader) && t !in s.tasks
    requires s.tasks[reader].at.Waiting? && !ReadsCommitted(s, ReadRow(reader)) && other != w
    ensures schedule == [ReadRow(reader), Finish(reader), Rollback(w), Start(t, other)]
    ensures Exec(spec, s, schedule) == Some(end) && !end.open && end.versions == s.versions
    ensures t in end.tasks && end.tasks[t].at.Returned? && VersionOf(end, end.tasks[t].at.reading).None?
    ensures end.tasks[t].at.reading.value == Effective(spec, s.drafts[|s.drafts| - 1].row)
  {
    var one := OwnRead(spec, s, reader);
    end := OwnFinish(spec, one, reader);
    schedule := [ReadRow(reader), Finish(reader)];
    ExecTwo(spec, s, ReadRow(reader), one, Finish(reader), end);
    schedule, end := Advance(spec, s, schedule, end, Rollback(w));
    schedule, end := Advance(spec, s, schedule, end, Start(t, other));
  }
}
