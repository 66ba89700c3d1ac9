/**
 What the marker protocol guarantees over every interleaving, and the one schedule
 shape its guarantees do not survive.
 */
module IdempotencyTheorems {
  import opened Wrappers
  import opened IdempotencyProtocol

  /** An in-flight marker whose request is over. */
  predicate Abandoned(s: State) {
    && s.committed.Some? && s.committed.value.response.None?
    && s.committed.value.owner in s.requests && !s.requests[s.committed.value.owner].Live()
  }

  /** A re-claim, like a purge, deletes only an abandoned marker. */
  predicate Careful(s: State, a: Action) {
    (a.DeleteStale? || a.Purge?) && s.committed.Some? ==> Abandoned(s)
  }

  predicate CarefulRun(schedule: seq<Action>) {
    schedule != [] ==>
      var n := |schedule| - 1;
      && CarefulRun(schedule[..n])
      && (Exec(schedule[..n]).Some? ==> Careful(Exec(schedule[..n]).value, schedule[n]))
  }

  // ---------------------------------------------------------------------------
  // The invariant
  // ---------------------------------------------------------------------------

  ghost predicate OwnMarker(s: State, r: RequestId, q: Request) {
    && (q.at.Inserted? ==>
          && Owns(s, r) && s.committed.None? && s.pending.value.row.Some?
          && s.pending.value.row.value.(createdAt := 0) == Row(q.fp, None, 0, r))
    && (q.Holding() ==>
          && s.committed.Some? && s.committed.value.(createdAt := 0) == Row(q.fp, None, 0, r))
  }

  ghost predicate OwnTransaction(s: State, r: RequestId, q: Request) {
    && ((q.at.Running? || q.at.Returned? || q.at.Trailing?) && q.saved.Some? ==> Owns(s, r))
    && (q.at.Returned? ==> q.saved == Some(q.at.response))
    && (q.at.Trailing? ==> q.sent.Some? && q.saved == q.sent && q.sent.value.status >= 400)
    && (q.at.Settling? ==> Owns(s, r))
    && ((q.at.Failed? || q.at.Settling?) ==> q.failure == Some(q.at.how) && q.rolledBack)
    && (q.Holding() ==> q.claimed && (q.rolledBack <==> (q.at.Failed? || q.at.Settling?)))
    && (q.rolledBack ==> q.settled)
    && (q.failure.Some? ==> q.rolledBack && q.claimed)
    && ((q.at.Running? || q.at.Returned? || q.at.Trailing? || q.at.Begin? || q.at.Inserted?
         || q.at.Conflicted? || q.at.Reclaiming? || q.at.Deleted?) ==> !q.settled && !q.rolledBack)
    && ((q.at.Begin? || q.at.Inserted? || q.at.Conflicted? || q.at.Reclaiming? || q.at.Deleted?)
        ==> !q.claimed && q.saved.None?)
    && (q.failure.Some? && q.failure.value.Close? ==> q.failure.value.response.status >= 400)
  }

  ghost predicate WhatIsPending(s: State) {
    s.pending.Some? ==>
      var w := s.pending.value.writer;
      && w in s.requests
      && var q := s.requests[w];
         && (q.at.Inserted? || q.at.Running? || q.at.Returned? || q.at.Trailing? || q.at.Settling? || q.at.Deleted?)
         && (q.at.Running? || q.at.Returned? || q.at.Trailing? ==>
               && q.saved.Some? && s.committed.Some?
               && s.pending.value.row == ClosedWith(q.saved.value)(s.committed.value))
         && (q.at.Settling? ==>
               s.committed.Some? && s.pending.value.row == SettlementOf(q.at.how)(s.committed.value))
         && (q.at.Deleted? ==> s.pending.value.row.None? && Abandoned(s))
  }

  /** What a request has been, or is about to be, told. */
  function Told(q: Request): Option<Response> {
    if q.at.Answering? then Some(q.at.response) else if q.at.Done? then q.sent else None
  }

  ghost predicate ToldTruth(s: State, r: RequestId, q: Request) {
    && (q.at.Done? ==> q.sent.Some?)
    && (Told(q).Some? ==>
          var told := Told(q).value;
          && (told.status < 400 ==> (q.fp, told) in s.closed && q.settled)
          && (r in s.effects || (!q.claimed && told != CONFLICT) ==> (q.fp, told) in s.closed)
          && (q.claimed && !q.rolledBack ==> r in s.effects)
          && (q.claimed && q.rolledBack ==> told.status >= 400)
          && (q.failure.Some? && q.failure.value.Close? ==>
                told == q.failure.value.response && (q.fp, told) in s.closed)
          && (q.failure == Some(Delete) ==>
                told == SERVER_ERROR && (s.committed.Some? ==> s.committed.value.owner != r)))
  }

  ghost predicate Effects(s: State) {
    && |s.effects| <= 1
    && (s.effects != [] ==> s.committed.Some? && s.committed.value.response.Some?)
    && (forall r :: r in s.effects ==>
          r in s.requests && s.requests[r].claimed && !s.requests[r].rolledBack && !s.requests[r].Live())
  }

  ghost predicate Marker(s: State) {
    s.committed.Some? ==>
      var row := s.committed.value;
      && row.owner in s.requests && s.requests[row.owner].claimed && s.requests[row.owner].fp == row.fp
      && (row.response.Some? ==> (row.fp, row.response.value) in s.closed)
  }

  ghost predicate RequestOk(s: State, r: RequestId) {
    r in s.requests ==>
      var q := s.requests[r];
      OwnMarker(s, r, q) && OwnTransaction(s, r, q) && ToldTruth(s, r, q)
  }

  ghost predicate Invariant(s: State) {
    WhatIsPending(s) && Effects(s) && Marker(s) && forall r :: RequestOk(s, r)
  }

  lemma InitialInvariant()
    ensures Invariant(INITIAL)
  {
  }

  // The requests a step reasons about: the actor, the marker's owner, the row's writer.
  lemma KeyRequests(s: State, r: RequestId)
    requires Invariant(s)
    ensures RequestOk(s, r)
    ensures s.committed.Some? ==> RequestOk(s, s.committed.value.owner)
    ensures s.pending.Some? ==> RequestOk(s, s.pending.value.writer)
  {
  }

  // A request that takes no part in a step keeps its clause when what it holds is untouched.
  lemma BystanderOk(s: State, s': State, r: RequestId)
    requires RequestOk(s, r)
    requires r in s'.requests ==> r in s.requests && s'.requests[r] == s.requests[r]
    requires r in s.requests && s.requests[r].Live() ==>
               s'.committed == s.committed && (Owns(s, r) ==> s'.pending == s.pending)
    requires s.closed <= s'.closed && (r in s'.effects <==> r in s.effects)
    requires s'.committed.Some? && s'.committed.value.owner == r ==> s.committed.Some? && s.committed.value.owner == r
    ensures RequestOk(s', r)
  {
  }

  // A live request owns the marker or is about to; so no one else is live.
  lemma OneHolder(s: State, r: RequestId, other: RequestId)
    requires Invariant(s) && r in s.requests && other in s.requests && r != other
    requires s.requests[r].Live()
    ensures !s.requests[other].Live()
  {
    assert RequestOk(s, r) && RequestOk(s, other);
  }

  lemma NoEffectsYet(s: State, r: RequestId)
    requires Invariant(s) && r in s.requests && s.requests[r].Holding()
    ensures s.effects == []
  {
    assert RequestOk(s, r);
  }

  lemma AbortKeepsInvariant(s: State, r: RequestId, q: Request, next: Counter)
    requires Invariant(s) && r in s.requests && s.requests[r] == q
    requires q.at.Running? || q.at.Returned? || (q.at.Conflicted? && next.Answering?)
    requires next.Answering? || next.Failed?
    requires next.Answering? && q.claimed ==> next.response.status >= 400
    requires next.Answering? && !q.claimed && next.response != CONFLICT ==> (q.fp, next.response) in s.closed
    requires next.Failed? && next.how.Close? ==> next.how.response.status >= 400
    ensures Invariant(Abort(s, r, q, next))
  {
    KeyRequests(s, r);
    var s' := Abort(s, r, q, next);
    forall other ensures RequestOk(s', other)
    {
      if other != r { BystanderOk(s, s', other); }
    }
  }

  lemma ClaimKeepsInvariant(s: State, a: Action)
    requires a.Insert? || a.CommitMarker?
    requires Invariant(s) && Careful(s, a) && Do(s, a).Some?
    ensures Invariant(Do(s, a).value)
  {
    KeyRequests(s, a.r);
    forall r ensures RequestOk(Do(s, a).value, r)
    {
      if r != a.r { BystanderOk(s, Do(s, a).value, r); }
    }
  }

  lemma ConflictedOnKeepsInvariant(s: State, r: RequestId, q: Request, next: Counter)
    requires Invariant(s) && r in s.requests && s.requests[r] == q && q.at.Conflicted?
    requires next.Begin? || next.Reclaiming?
    ensures Invariant(With(s, r, q.(at := next)))
  {
    var s' := With(s, r, q.(at := next));
    KeyRequests(s, r);
    forall other ensures RequestOk(s', other) { assert RequestOk(s, other); }
  }

  lemma LookupKeepsInvariant(s: State, r: RequestId)
    requires Invariant(s) && Do(s, Read(r)).Some?
    ensures Invariant(Do(s, Read(r)).value)
  {
    var q := s.requests[r];
    assert RequestOk(s, r);
    if s.committed.None? {
      ConflictedOnKeepsInvariant(s, r, q, Begin);
    } else {
      FoundMarkerKeepsInvariant(s, r, q);
    }
  }

  lemma FoundMarkerKeepsInvariant(s: State, r: RequestId, q: Request)
    requires Invariant(s) && r in s.requests && s.requests[r] == q && q.at.Conflicted? && s.committed.Some?
    ensures Invariant(ReadMarker(s, r, q))
  {
    var row := s.committed.value;
    assert RequestOk(s, r);
    if row.fp != q.fp {
      AbortKeepsInvariant(s, r, q, Answering(CONFLICT));
    } else if row.response.Some? {
      AbortKeepsInvariant(s, r, q, Answering(row.response.value));
    } else if row.createdAt < s.now - IN_FLIGHT_TTL {
      ConflictedOnKeepsInvariant(s, r, q, Reclaiming);
    } else {
      AbortKeepsInvariant(s, r, q, Answering(CONFLICT));
    }
  }

  lemma DeleteKeepsInvariant(s: State, r: RequestId)
    requires Invariant(s) && Careful(s, DeleteStale(r)) && Do(s, DeleteStale(r)).Some?
    ensures Invariant(Do(s, DeleteStale(r)).value)
  {
    var s' := Do(s, DeleteStale(r)).value;
    KeyRequests(s, r);
    forall other ensures RequestOk(s', other)
    {
      if other != r { BystanderOk(s, s', other); }
    }
  }

  lemma CommitDeleteKeepsInvariant(s: State, r: RequestId)
    requires Invariant(s) && Do(s, CommitDelete(r)).Some?
    ensures Invariant(Do(s, CommitDelete(r)).value)
  {
    var s' := Do(s, CommitDelete(r)).value;
    KeyRequests(s, r);
    forall other ensures RequestOk(s', other)
    {
      if other != r { BystanderOk(s, s', other); }
    }
  }

  lemma HandlerKeepsInvariant(s: State, a: Action)
    requires a.Save? || a.Return?
    requires Invariant(s) && Careful(s, a) && Do(s, a).Some?
    ensures Invariant(Do(s, a).value)
  {
    KeyRequests(s, a.r);
    forall r ensures RequestOk(Do(s, a).value, r)
    {
      if r != a.r { BystanderOk(s, Do(s, a).value, r); }
    }
  }

  lemma RaiseKeepsInvariant(s: State, a: Action)
    requires a.RaiseRefusal? || a.RaiseHttp? || a.RaiseBug? || a.CommitFails?
    requires Invariant(s) && Do(s, a).Some?
    ensures Invariant(Do(s, a).value)
  {
    KeyRequests(s, a.r);
    var q := s.requests[a.r];
    AbortKeepsInvariant(s, a.r, q, Do(s, a).value.requests[a.r].at);
  }

  lemma AppliedKeepsInvariant(s: State, r: RequestId, q: Request, next: Counter)
    requires Invariant(s) && r in s.requests && s.requests[r] == q && !q.settled
    requires (q.at.Returned? && next == Answering(q.at.response)) || (q.at.Trailing? && next.Done?)
    ensures Invariant(Applied(s, r, q, next))
  {
    var s' := Applied(s, r, q, next);
    KeyRequests(s, r);
    NoEffectsYet(s, r);
    assert Owns(s, r) && s'.committed.Some?;
    forall other ensures RequestOk(s', other)
    {
      if other != r { BystanderOk(s, s', other); }
    }
  }

  lemma CommitKeepsInvariant(s: State, r: RequestId)
    requires Invariant(s) && Do(s, CommitResponse(r)).Some?
    ensures Invariant(Do(s, CommitResponse(r)).value)
  {
    var q := s.requests[r];
    AppliedKeepsInvariant(s, r, q, if q.at.Returned? then Answering(q.at.response) else Done);
  }

  lemma SettleKeepsInvariant(s: State, r: RequestId)
    requires Invariant(s) && Do(s, Settle(r)).Some?
    ensures Invariant(Do(s, Settle(r)).value)
  {
    var s' := Do(s, Settle(r)).value;
    KeyRequests(s, r);
    forall other ensures RequestOk(s', other)
    {
      if other != r { BystanderOk(s, s', other); }
    }
  }

  lemma CommitSettlementKeepsInvariant(s: State, r: RequestId)
    requires Invariant(s) && Do(s, CommitSettlement(r)).Some?
    ensures Invariant(Do(s, CommitSettlement(r)).value)
  {
    var s' := Do(s, CommitSettlement(r)).value;
    KeyRequests(s, r);
    forall other ensures RequestOk(s', other)
    {
      if other != r { BystanderOk(s, s', other); }
    }
  }

  lemma SentKeepsInvariant(s: State, r: RequestId, q: Request)
    requires Invariant(s) && r in s.requests && s.requests[r] == q && q.at.Answering?
    ensures Invariant(With(s, r, q.(at := Done, sent := Some(q.at.response))))
  {
    var s' := With(s, r, q.(at := Done, sent := Some(q.at.response)));
    KeyRequests(s, r);
    forall other ensures RequestOk(s', other)
    {
      if other != r { BystanderOk(s, s', other); }
    }
  }

  lemma TrailingKeepsInvariant(s: State, r: RequestId, q: Request)
    requires Invariant(s) && r in s.requests && s.requests[r] == q && q.at.Returned? && q.at.response.status >= 400
    ensures Invariant(With(s, r, q.(at := Trailing, sent := Some(q.at.response))))
  {
    var s' := With(s, r, q.(at := Trailing, sent := Some(q.at.response)));
    KeyRequests(s, r);
    forall other ensures RequestOk(s', other)
    {
      if other != r { BystanderOk(s, s', other); }
    }
  }

  lemma AnswerKeepsInvariant(s: State, r: RequestId)
    requires Invariant(s) && Do(s, Send(r)).Some?
    ensures Invariant(Do(s, Send(r)).value)
  {
    var q := s.requests[r];
    if q.at.Answering? {
      SentKeepsInvariant(s, r, q);
    } else {
      TrailingKeepsInvariant(s, r, q);
    }
  }

  lemma CrashedKeepsInvariant(s: State, r: RequestId, q: Request)
    requires Invariant(s) && r in s.requests && s.requests[r] == q && !q.at.Done?
    ensures Invariant(With(Rollback(s, r), r, q.(at := Crashed)))
  {
    var s' := With(Rollback(s, r), r, q.(at := Crashed));
    KeyRequests(s, r);
    forall other ensures RequestOk(s', other)
    {
      if other != r { BystanderOk(s, s', other); }
    }
  }

  lemma CrashKeepsInvariant(s: State, r: RequestId)
    requires Invariant(s) && Do(s, Crash(r)).Some?
    ensures Invariant(Do(s, Crash(r)).value)
  {
    CrashedKeepsInvariant(s, r, s.requests[r]);
  }

  lemma PurgeKeepsInvariant(s: State)
    requires Invariant(s) && Careful(s, Purge) && Do(s, Purge).Some?
    ensures Invariant(Do(s, Purge).value)
  {
    forall r ensures RequestOk(Do(s, Purge).value, r) { assert RequestOk(s, r); }
  }

  /** Every step of a careful run keeps the invariant. */
  lemma StepKeepsInvariant(s: State, a: Action)
    requires Invariant(s) && Careful(s, a) && Do(s, a).Some?
    ensures Invariant(Do(s, a).value)
  {
    match a
    case Arrive(_, _) | Tick(_) =>
      forall r ensures RequestOk(Do(s, a).value, r) { assert RequestOk(s, r); }
    case Insert(_) | CommitMarker(_) => ClaimKeepsInvariant(s, a);
    case Read(r) => LookupKeepsInvariant(s, r);
    case DeleteStale(r) => DeleteKeepsInvariant(s, r);
    case CommitDelete(r) => CommitDeleteKeepsInvariant(s, r);
    case Save(_, _) | Return(_) => HandlerKeepsInvariant(s, a);
    case RaiseRefusal(_, _) | RaiseHttp(_, _) | RaiseBug(_) | CommitFails(_) => RaiseKeepsInvariant(s, a);
    case CommitResponse(r) => CommitKeepsInvariant(s, r);
    case Settle(r) => SettleKeepsInvariant(s, r);
    case CommitSettlement(r) => CommitSettlementKeepsInvariant(s, r);
    case Send(r) => AnswerKeepsInvariant(s, r);
    case Crash(r) => CrashKeepsInvariant(s, r);
    case Purge => PurgeKeepsInvariant(s);
  }

  lemma {:induction false} ReachableInvariant(schedule: seq<Action>)
    requires CarefulRun(schedule) && Exec(schedule).Some?
    ensures Invariant(Exec(schedule).value)
  {
    if schedule == [] {
      InitialInvariant();
    } else {
      var n := |schedule| - 1;
      ReachableInvariant(schedule[..n]);
      StepKeepsInvariant(Exec(schedule[..n]).value, schedule[n]);
    }
  }

  // ---------------------------------------------------------------------------
  // Exclusivity, at most once, replay
  // ---------------------------------------------------------------------------

  /** At most one handler is live, and its fingerprint is the marker's. */
  lemma HandlersAreExclusive(schedule: seq<Action>, r: RequestId, other: RequestId)
    requires CarefulRun(schedule) && Exec(schedule).Some?
    requires var s := Exec(schedule).value; r in s.requests && s.requests[r].Live()
    ensures var s := Exec(schedule).value;
            && (other in s.requests && s.requests[other].Live() ==> other == r)
            && (s.committed.Some? ==> s.committed.value.fp == s.requests[r].fp)
  {
    ReachableInvariant(schedule);
    var s := Exec(schedule).value;
    assert RequestOk(s, r);
    if other in s.requests && other != r {
      OneHolder(s, r, other);
    }
  }

  /** However many duplicates race, one handler transaction commits at most, and once
      it has, no handler is live again. */
  lemma EffectsHappenAtMostOnce(schedule: seq<Action>)
    requires CarefulRun(schedule) && Exec(schedule).Some?
    ensures var s := Exec(schedule).value;
            |s.effects| <= 1 && (s.effects != [] ==> forall r :: r in s.requests ==> !s.requests[r].Live())
  {
    ReachableInvariant(schedule);
    var s := Exec(schedule).value;
    if s.effects != [] {
      assert s.effects[0] in s.effects;
      forall r | r in s.requests ensures !s.requests[r].Live() { assert RequestOk(s, r); }
    }
  }

  /** A request that never ran a handler was told either a conflict or a response
      committed earlier for the same fingerprint. */
  lemma ReplaysAreSaved(schedule: seq<Action>, r: RequestId)
    requires CarefulRun(schedule) && Exec(schedule).Some?
    requires var s := Exec(schedule).value;
             r in s.requests && s.requests[r].at.Done? && !s.requests[r].claimed
    ensures var s := Exec(schedule).value;
            && s.requests[r].sent.Some? && r !in s.effects
            && (s.requests[r].sent != Some(CONFLICT) ==> (s.requests[r].fp, s.requests[r].sent.value) in s.closed)
  {
    ReachableInvariant(schedule);
    assert RequestOk(Exec(schedule).value, r);
  }

  // No step that can lead to the marker's deletion.
  predicate KeepsMarker(a: Action) {
    !a.DeleteStale? && !a.Purge? && !a.RaiseBug? && !a.CommitFails?
  }

  ghost predicate MarkerStays(s: State) {
    forall r :: r in s.requests ==>
                  var q := s.requests[r];
                  && (q.claimed ==> s.committed.Some? && s.committed.value.owner == r)
                  && !q.at.Deleted? && q.failure != Some(Delete)
  }

  lemma MarkerIsKept(s: State, a: Action)
    requires Invariant(s) && MarkerStays(s) && KeepsMarker(a) && Do(s, a).Some? && s.committed.Some?
    ensures var marker := Do(s, a).value.committed;
            marker.Some? && marker.value.owner == s.committed.value.owner
  {
    if !a.Arrive? && !a.Tick? {
      KeyRequests(s, a.r);
    }
  }

  lemma MarkerStaysStep(s: State, a: Action)
    requires Invariant(s) && MarkerStays(s) && KeepsMarker(a) && Do(s, a).Some?
    ensures MarkerStays(Do(s, a).value)
  {
    if s.committed.Some? { MarkerIsKept(s, a); }
    if !a.Arrive? && !a.Tick? {
      KeyRequests(s, a.r);
      ActorKeepsMarker(s, a);
      forall r | r != a.r && r in Do(s, a).value.requests
        ensures r in s.requests && Do(s, a).value.requests[r] == s.requests[r]
      {
        OthersAreNotTouched(s, a, r);
      }
    }
  }

  lemma ActorKeepsMarker(s: State, a: Action)
    requires !a.Arrive? && !a.Tick? && KeepsMarker(a)
    requires Invariant(s) && MarkerStays(s) && Do(s, a).Some?
    requires s.committed.Some? ==> Do(s, a).value.committed.Some?
                                   && Do(s, a).value.committed.value.owner == s.committed.value.owner
    ensures var s' := Do(s, a).value;
            var q := s'.requests[a.r];
            && (q.claimed ==> s'.committed.Some? && s'.committed.value.owner == a.r)
            && !q.at.Deleted? && q.failure != Some(Delete)
  {
    KeyRequests(s, a.r);
  }

  /** Until something deletes the marker, only the request that inserted it ever runs its
      handler: a duplicate, or the same key with another fingerprint, never does. */
  lemma {:induction false} OnlyTheFirstRuns(schedule: seq<Action>, r: RequestId)
    requires Exec(schedule).Some? && forall a :: a in schedule ==> KeepsMarker(a)
    ensures CarefulRun(schedule) && MarkerStays(Exec(schedule).value)
    ensures var s := Exec(schedule).value;
            r in s.requests && s.requests[r].claimed ==>
              && s.committed.Some? && s.committed.value.owner == r && s.committed.value.fp == s.requests[r].fp
              && forall other :: other in s.requests && s.requests[other].claimed ==> other == r
  {
    if schedule != [] {
      var n := |schedule| - 1;
      OnlyTheFirstRuns(schedule[..n], r);
      ReachableInvariant(schedule[..n]);
      MarkerStaysStep(Exec(schedule[..n]).value, schedule[n]);
    }
    ReachableInvariant(schedule);
  }

  /** What `closed` records is what a commit put into the marker, under the saver's fingerprint. */
  lemma ClosedWithACommit(s: State, a: Action, entry: (Fingerprint, Response))
    requires Invariant(s) && Careful(s, a) && Do(s, a).Some?
    requires entry in Do(s, a).value.closed && entry !in s.closed
    ensures a.CommitResponse? || a.CommitSettlement?
    ensures var marker := Do(s, a).value.committed;
            marker.Some? && marker.value.owner == a.r && marker.value.response == Some(entry.1)
            && marker.value.fp == entry.0
  {
    if a.CommitResponse? {
      KeyRequests(s, a.r);
    } else if a.CommitSettlement? {
      KeyRequests(s, a.r);
    } else {
      OnlyCommitsClose(s, a);
    }
  }

  lemma OnlyCommitsClose(s: State, a: Action)
    requires Do(s, a).Some? && !a.CommitResponse? && !a.CommitSettlement?
    ensures Do(s, a).value.closed == s.closed
  {
  }

  // ---------------------------------------------------------------------------
  // One outcome per request
  // ---------------------------------------------------------------------------

  /** The handler's effects and its saved response are committed in one step, before
      the response is sent. */
  lemma SuccessCommitsTogether(s: State, r: RequestId)
    requires Invariant(s) && Do(s, CommitResponse(r)).Some?
    ensures var s' := Do(s, CommitResponse(r)).value;
            && s'.effects == s.effects + [r]
            && s'.committed.Some? && s'.committed.value.owner == r
            && s'.committed.value.response == s.requests[r].saved && s.requests[r].saved.Some?
            && (s'.requests[r].at.Done? || s'.requests[r].at == Answering(s'.committed.value.response.value))
  {
    KeyRequests(s, r);
  }

  /** A refusal is stored for replay; a server failure leaves no marker. Neither has effects. */
  lemma FailureSettlesTheMarker(s: State, r: RequestId)
    requires Invariant(s) && Do(s, CommitSettlement(r)).Some?
    ensures var s' := Do(s, CommitSettlement(r)).value;
            var how := s.requests[r].at.how;
            && r !in s'.effects && s'.effects == s.effects
            && (how.Close? ==>
                  && s'.committed.Some? && s'.committed.value.response == Some(how.response)
                  && s'.requests[r].at == Answering(how.response))
            && (how.Delete? ==> s'.committed.None? && s'.requests[r].at == Answering(SERVER_ERROR))
  {
    KeyRequests(s, r);
  }

  // A committed response is never changed by a careful step.
  lemma ResponseStays(s: State, a: Action)
    requires Invariant(s) && Careful(s, a) && Do(s, a).Some?
    requires s.committed.Some? && s.committed.value.response.Some?
    ensures Do(s, a).value.committed == s.committed
  {
    if !a.Arrive? && !a.Tick? && !a.Purge? {
      KeyRequests(s, a.r);
    }
  }

  // The marker is this request's and holds this response.
  predicate Stored(s: State, r: RequestId, response: Option<Response>) {
    s.committed.Some? && s.committed.value.owner == r && s.committed.value.response == response && response.Some?
  }

  // What a committed handler or an answered refusal left in the marker is still there.
  ghost predicate StillStored(s: State, r: RequestId) {
    r in s.requests ==>
      var q := s.requests[r];
      && (r in s.effects ==> Stored(s, r, q.saved) && (Told(q).Some? ==> Told(q) == q.saved))
      && (q.failure.Some? && q.failure.value.Close? && Told(q).Some? ==> Stored(s, r, Some(q.failure.value.response)))
  }

  lemma BystanderStored(s: State, a: Action, r: RequestId)
    requires Invariant(s) && Careful(s, a) && Do(s, a).Some? && StillStored(s, r)
    requires a.Arrive? || a.Tick? || a.Purge? || a.r != r
    ensures StillStored(Do(s, a).value, r)
  {
    if s.committed.Some? && s.committed.value.response.Some? { ResponseStays(s, a); }
    if !a.Arrive? && !a.Tick? && !a.Purge? { OthersAreNotTouched(s, a, r); }
  }

  lemma CommitStores(s: State, r: RequestId)
    requires Invariant(s) && Do(s, CommitResponse(r)).Some?
    ensures StillStored(Do(s, CommitResponse(r)).value, r)
  {
    KeyRequests(s, r);
    SuccessCommitsTogether(s, r);
  }

  lemma SettlementStores(s: State, r: RequestId)
    requires Invariant(s) && Do(s, CommitSettlement(r)).Some?
    ensures StillStored(Do(s, CommitSettlement(r)).value, r)
  {
    KeyRequests(s, r);
    FailureSettlesTheMarker(s, r);
  }

  lemma SendStores(s: State, r: RequestId)
    requires Invariant(s) && Do(s, Send(r)).Some? && StillStored(s, r)
    ensures StillStored(Do(s, Send(r)).value, r)
  {
    KeyRequests(s, r);
  }

  // The steps of a request that neither commit nor send leave nothing new to hold.
  lemma OtherStepStores(s: State, a: Action)
    requires !a.Arrive? && !a.Tick? && !a.Purge? && !a.CommitResponse? && !a.CommitSettlement? && !a.Send?
    requires Invariant(s) && Careful(s, a) && Do(s, a).Some? && StillStored(s, a.r)
    ensures StillStored(Do(s, a).value, a.r)
  {
    KeyRequests(s, a.r);
    if s.committed.Some? && s.committed.value.response.Some? { ResponseStays(s, a); }
    if s.requests[a.r].Holding() { NoEffectsYet(s, a.r); }
    assert Do(s, a).value.effects == s.effects;
  }

  lemma {:induction false} ReachableStillStored(schedule: seq<Action>, r: RequestId)
    requires CarefulRun(schedule) && Exec(schedule).Some?
    ensures StillStored(Exec(schedule).value, r)
  {
    if schedule == [] {
    } else {
      var n := |schedule| - 1;
      var s, a := Exec(schedule[..n]).value, schedule[n];
      ReachableInvariant(schedule[..n]);
      ReachableStillStored(schedule[..n], r);
      if a.Arrive? || a.Tick? || a.Purge? || a.r != r {
        BystanderStored(s, a, r);
      } else if a.CommitResponse? {
        CommitStores(s, r);
      } else if a.CommitSettlement? {
        SettlementStores(s, r);
      } else if a.Send? {
        SendStores(s, r);
      } else {
        OtherStepStores(s, a);
      }
    }
  }

  ghost predicate Outcome(s: State, r: RequestId, q: Request) {
    && q.sent.Some?
    && (r in s.effects <==> !q.rolledBack)
    && (r in s.effects ==> Stored(s, r, q.sent) && (q.fp, q.sent.value) in s.closed)
    && (q.sent.value.status < 400 ==> r in s.effects)
    && (q.failure.Some? && q.failure.value.Close? ==>
          q.sent == Some(q.failure.value.response) && Stored(s, r, q.sent) && (q.fp, q.sent.value) in s.closed)
    && (q.failure == Some(Delete) ==>
          q.sent == Some(SERVER_ERROR) && (s.committed.Some? ==> s.committed.value.owner != r))
  }

  lemma OutcomeOfFinished(s: State, r: RequestId)
    requires Invariant(s) && r in s.requests && s.requests[r].at.Done? && s.requests[r].claimed
    requires TransactionOk(s, r) && StillStored(s, r)
    ensures Outcome(s, r, s.requests[r])
  {
    assert RequestOk(s, r);
  }

  /** How a finished request that ran its handler ended: effects committed and the marker
      holding the sent response; or no effects and the marker holding the sent refusal; or no
      effects, a 500 and no marker of its own; or no effects and an unsettled HTTP error. */
  lemma OneOutcome(schedule: seq<Action>, r: RequestId)
    requires CarefulRun(schedule) && Exec(schedule).Some?
    requires var s := Exec(schedule).value; r in s.requests && s.requests[r].at.Done? && s.requests[r].claimed
    ensures Outcome(Exec(schedule).value, r, Exec(schedule).value.requests[r])
  {
    ReachableInvariant(schedule);
    ReachableStillStored(schedule, r);
    CommitComesBeforeResponse(schedule, r);
    OutcomeOfFinished(Exec(schedule).value, r);
  }

  // ---------------------------------------------------------------------------
  // The request transaction, in every run
  // ---------------------------------------------------------------------------

  ghost predicate TransactionOk(s: State, r: RequestId) {
    && (r in s.effects ==> r in s.requests)
    && (r in s.requests ==>
          var q := s.requests[r];
          && (q.rolledBack ==> q.settled && r !in s.effects)
          && (r in s.effects ==> q.settled)
          && (q.settled ==> q.rolledBack || r in s.effects)
          && ((q.at.Running? || q.at.Returned? || q.at.Trailing? || q.at.Begin? || q.at.Inserted?
               || q.at.Conflicted? || q.at.Reclaiming? || q.at.Deleted?) ==> !q.settled)
          && ((q.at.Failed? || q.at.Settling?) ==> q.rolledBack)
          && (q.at.Answering? ==> q.settled)
          && (q.sent.Some? && q.sent.value.status < 400 ==> q.settled))
  }

  /** In every run, re-claims and purges included: nothing below 400 is sent before its
      transaction is settled, a settled transaction was either committed or rolled back,
      and nothing is committed after a rollback. */
  lemma {:induction false} CommitComesBeforeResponse(schedule: seq<Action>, r: RequestId)
    requires Exec(schedule).Some?
    ensures TransactionOk(Exec(schedule).value, r)
  {
    if schedule == [] {
    } else {
      var n := |schedule| - 1;
      CommitComesBeforeResponse(schedule[..n], r);
      TransactionStep(Exec(schedule[..n]).value, schedule[n], r);
    }
  }

  lemma TransactionStep(s: State, a: Action, r: RequestId)
    requires TransactionOk(s, r) && Do(s, a).Some?
    ensures TransactionOk(Do(s, a).value, r)
  {
    if !a.Arrive? && !a.Tick? && !a.Purge? {
      if a.r == r {
        ActorTransactionStep(s, a);
      } else {
        OthersAreNotTouched(s, a, r);
      }
    }
  }

  lemma OthersAreNotTouched(s: State, a: Action, r: RequestId)
    requires !a.Arrive? && !a.Tick? && !a.Purge? && Do(s, a).Some? && a.r != r
    ensures var s' := Do(s, a).value;
            && (r in s'.requests <==> r in s.requests) && (r in s.requests ==> s'.requests[r] == s.requests[r])
            && (r in s'.effects <==> r in s.effects)
  {
  }

  lemma ActorTransactionStep(s: State, a: Action)
    requires !a.Arrive? && !a.Tick? && !a.Purge? && Do(s, a).Some? && TransactionOk(s, a.r)
    ensures TransactionOk(Do(s, a).value, a.r)
  {
    if a.CommitResponse? {
      CommitTransactionStep(s, a.r);
    } else if a.Send? {
      SendTransactionStep(s, a.r);
    } else if a.Read? {
      ReadTransactionStep(s, a.r);
    } else if a.RaiseRefusal? || a.RaiseHttp? || a.RaiseBug? || a.CommitFails? {
      RaiseTransactionStep(s, a);
    } else {
      OtherTransactionStep(s, a);
    }
  }

  lemma CommitTransactionStep(s: State, r: RequestId)
    requires Do(s, CommitResponse(r)).Some? && TransactionOk(s, r)
    ensures TransactionOk(Do(s, CommitResponse(r)).value, r)
  {
    assert Do(s, CommitResponse(r)).value.effects == s.effects + [r];
  }

  lemma SendTransactionStep(s: State, r: RequestId)
    requires Do(s, Send(r)).Some? && TransactionOk(s, r)
    ensures TransactionOk(Do(s, Send(r)).value, r)
  {
    assert Do(s, Send(r)).value.effects == s.effects;
  }

  lemma ReadTransactionStep(s: State, r: RequestId)
    requires Do(s, Read(r)).Some? && TransactionOk(s, r)
    ensures TransactionOk(Do(s, Read(r)).value, r)
  {
    assert Do(s, Read(r)).value.effects == s.effects;
  }

  lemma RaiseTransactionStep(s: State, a: Action)
    requires a.RaiseRefusal? || a.RaiseHttp? || a.RaiseBug? || a.CommitFails?
    requires Do(s, a).Some? && TransactionOk(s, a.r)
    ensures TransactionOk(Do(s, a).value, a.r)
  {
    assert Do(s, a).value.effects == s.effects;
  }

  lemma OtherTransactionStep(s: State, a: Action)
    requires !a.Arrive? && !a.Tick? && !a.Purge? && Do(s, a).Some? && TransactionOk(s, a.r)
    requires !a.CommitResponse? && !a.Send? && !a.Read?
    requires !a.RaiseRefusal? && !a.RaiseHttp? && !a.RaiseBug? && !a.CommitFails?
    ensures TransactionOk(Do(s, a).value, a.r)
  {
    assert Do(s, a).value.effects == s.effects && Do(s, a).value.requests.Keys == s.requests.Keys;
  }

  // ---------------------------------------------------------------------------
  // Overlapping re-claims
  // ---------------------------------------------------------------------------

  lemma OneMore(schedule: seq<Action>, a: Action)
    ensures Exec(schedule + [a]) == if Exec(schedule).None? then None else Do(Exec(schedule).value, a)
  {
    assert (schedule + [a])[..|schedule|] == schedule;
  }

  lemma Advance(schedule: seq<Action>, s: State, a: Action) returns (longer: seq<Action>, next: State)
    requires Exec(schedule) == Some(s) && Do(s, a).Some?
    ensures Exec(longer) == Some(next) && Some(next) == Do(s, a)
  {
    OneMore(schedule, a);
    longer, next := schedule + [a], Do(s, a).value;
  }

  function At(at: Counter): Request {
    Request("fp", at, false, None, false, false, None, None)
  }

  function Handling(saved: Option<Response>): Request {
    Request("fp", Running, true, saved, false, false, None, None)
  }

  const LATE := IN_FLIGHT_TTL + 1

  // The marker and the requests 1 and 2, with nothing uncommitted and no effects.
  predicate Shows(s: State, marker: Row, one: Request, two: Request) {
    && s.committed == Some(marker) && s.pending.None? && s.effects == [] && s.now == LATE
    && 1 in s.requests && s.requests[1] == one && 2 in s.requests && s.requests[2] == two
  }

  lemma FirstInserts() returns (schedule: seq<Action>, s: State)
    ensures Exec(schedule) == Some(s) && s.committed.None?
    ensures s.pending == Some(Pending(0, Some(Row("fp", None, 0, 0))))
    ensures s.effects == [] && s.now == 0 && s.requests.Keys == {0} && s.requests[0].at == Inserted
  {
    schedule, s := Advance([], INITIAL, Arrive(0, "fp"));
    schedule, s := Advance(schedule, s, Insert(0));
  }

  lemma FirstRuns() returns (schedule: seq<Action>, s: State)
    ensures Exec(schedule) == Some(s) && s.committed == Some(Row("fp", None, 0, 0)) && s.pending.None?
    ensures s.effects == [] && s.now == 0 && s.requests.Keys == {0} && s.requests[0].at == Running
  {
    schedule, s := FirstInserts();
    schedule, s := Advance(schedule, s, CommitMarker(0));
  }

  // Request 0 dies in flight.
  lemma FirstDies() returns (schedule: seq<Action>, s: State)
    ensures Exec(schedule) == Some(s) && s.committed == Some(Row("fp", None, 0, 0)) && s.pending.None?
    ensures s.effects == [] && s.now == LATE && s.requests.Keys == {0}
  {
    schedule, s := FirstRuns();
    schedule, s := Advance(schedule, s, Crash(0));
    schedule, s := Advance(schedule, s, Tick(LATE));
  }

  // Five minutes later 1 and 2 both read its marker as stale.
  lemma BothReadStale() returns (schedule: seq<Action>, s: State)
    ensures Exec(schedule) == Some(s) && Shows(s, Row("fp", None, 0, 0), At(Reclaiming), At(Reclaiming))
  {
    schedule, s := FirstDies();
    schedule, s := Advance(schedule, s, Arrive(1, "fp"));
    schedule, s := Advance(schedule, s, Insert(1));
    schedule, s := Advance(schedule, s, Read(1));
    schedule, s := Advance(schedule, s, Arrive(2, "fp"));
    schedule, s := Advance(schedule, s, Insert(2));
    schedule, s := Advance(schedule, s, Read(2));
  }

  // 1 re-claims the marker and runs.
  lemma FirstReclaims() returns (schedule: seq<Action>, s: State)
    ensures Exec(schedule) == Some(s) && Shows(s, Row("fp", None, LATE, 1), Handling(None), At(Reclaiming))
  {
    schedule, s := BothReadStale();
    schedule, s := Advance(schedule, s, DeleteStale(1));
    schedule, s := Advance(schedule, s, CommitDelete(1));
    schedule, s := Advance(schedule, s, Insert(1));
    schedule, s := Advance(schedule, s, CommitMarker(1));
  }

  // 2's delete, by key and user only, takes 1's live marker: two live handlers.
  lemma OverlappingReclaimsBothRun() returns (schedule: seq<Action>, s: State)
    ensures Exec(schedule) == Some(s) && Shows(s, Row("fp", None, LATE, 2), Handling(None), Handling(None))
    ensures s.requests[1].Live() && s.requests[2].Live()
  {
    schedule, s := FirstReclaims();
    assert !Careful(s, DeleteStale(2));
    schedule, s := Advance(schedule, s, DeleteStale(2));
    schedule, s := Advance(schedule, s, CommitDelete(2));
    schedule, s := Advance(schedule, s, Insert(2));
    schedule, s := Advance(schedule, s, CommitMarker(2));
  }

  lemma FirstCommits() returns (schedule: seq<Action>, s: State)
    ensures Exec(schedule) == Some(s) && s.effects == [1] && s.pending.None? && s.committed.Some?
    ensures 2 in s.requests && s.requests[2] == Handling(None)
  {
    schedule, s := OverlappingReclaimsBothRun();
    schedule, s := Advance(schedule, s, Save(1, Response(200, "first")));
    schedule, s := Advance(schedule, s, Return(1));
    schedule, s := Advance(schedule, s, CommitResponse(1));
  }

  /** Outside careful runs the guarantee is lost: two overlapping re-claims of one dead
      request commit the same request's effects twice. */
  lemma OverlappingReclaimsCommitTwice() returns (schedule: seq<Action>, s: State)
    ensures Exec(schedule) == Some(s) && s.effects == [1, 2]
  {
    schedule, s := FirstCommits();
    schedule, s := Advance(schedule, s, Save(2, Response(200, "second")));
    schedule, s := Advance(schedule, s, Return(2));
    schedule, s := Advance(schedule, s, CommitResponse(2));
  }

  /** The condition on re-claims is exact: whenever a re-claim deletes a marker that is not
      abandoned, it can go on to run its handler beside the marker's live owner, or after a
      response was committed that is now forgotten. */
  lemma CarelessReclaim(s: State, r: RequestId) returns (end: State)
    requires Invariant(s) && Do(s, DeleteStale(r)).Some? && !Careful(s, DeleteStale(r))
    ensures After(s, [DeleteStale(r), CommitDelete(r), Insert(r), CommitMarker(r)]) == Some(end)
    ensures end.committed.Some? && end.committed.value.owner == r && end.committed.value.response.None?
    ensures r in end.requests && end.requests[r].at == Running
    ensures var gone := s.committed.value;
            || (gone.owner != r && gone.owner in end.requests && end.requests[gone.owner].Live())
            || (gone.response.Some? && (gone.fp, gone.response.value) in end.closed)
  {
    KeyRequests(s, r);
    var one := Do(s, DeleteStale(r)).value;
    var two := Do(one, CommitDelete(r)).value;
    var three := Do(two, Insert(r)).value;
    end := Do(three, CommitMarker(r)).value;
    AfterFour(s, DeleteStale(r), CommitDelete(r), Insert(r), CommitMarker(r));
  }

  lemma AfterFour(s: State, a: Action, b: Action, c: Action, d: Action)
    requires Do(s, a).Some? && Do(Do(s, a).value, b).Some? && Do(Do(Do(s, a).value, b).value, c).Some?
    ensures After(s, [a, b, c, d]) == Do(Do(Do(Do(s, a).value, b).value, c).value, d)
  {
    AfterOneMore(s, [], a);
    AfterOneMore(s, [a], b);
    AfterOneMore(s, [a, b], c);
    AfterOneMore(s, [a, b, c], d);
    assert [] + [a] == [a] && [a] + [b] == [a, b] && [a, b] + [c] == [a, b, c] && [a, b, c] + [d] == [a, b, c, d];
  }

  /** So is the condition on purges: a purge of a marker that is not abandoned lets a request
      that arrives afterwards run beside the live owner, or after a response now forgotten. */
  lemma CarelessPurge(s: State, r: RequestId, fp: Fingerprint) returns (end: State)
    requires Invariant(s) && Do(s, Purge).Some? && !Careful(s, Purge) && r !in s.requests
    ensures After(s, [Purge, Arrive(r, fp), Insert(r), CommitMarker(r)]) == Some(end)
    ensures end.committed.Some? && end.committed.value.owner == r && end.committed.value.response.None?
    ensures r in end.requests && end.requests[r].at == Running
    ensures var gone := s.committed.value;
            || (gone.owner != r && gone.owner in end.requests && end.requests[gone.owner].Live())
            || (gone.response.Some? && (gone.fp, gone.response.value) in end.closed)
  {
    assert RequestOk(s, s.committed.value.owner);
    var one := Do(s, Purge).value;
    var two := Do(one, Arrive(r, fp)).value;
    var three := Do(two, Insert(r)).value;
    end := Do(three, CommitMarker(r)).value;
    AfterFour(s, Purge, Arrive(r, fp), Insert(r), CommitMarker(r));
  }

  /** The state after some further steps, when every one of them is enabled. */
  function After(s: State, steps: seq<Action>): Option<State> {
    if steps == [] then Some(s)
    else
      var before := After(s, steps[..|steps| - 1]);
      if before.None? then None else Do(before.value, steps[|steps| - 1])
  }

  lemma AfterOneMore(s: State, steps: seq<Action>, a: Action)
    ensures After(s, steps + [a]) == if After(s, steps).None? then None else Do(After(s, steps).value, a)
  {
    assert (steps + [a])[..|steps|] == steps;
  }
}
