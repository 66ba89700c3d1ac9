/**
 What a request is sent, over every continuation: its handler's own answer, or the
 answer of the request that stored one in the marker, or a conflict.
 */
module IdempotencyReplay {
  import opened Wrappers
  import opened IdempotencyProtocol
  import opened IdempotencyTheorems

  /** Further steps, each of them careful where it is taken. */
  predicate CarefulFrom(s: State, steps: seq<Action>) {
    steps != [] ==>
      var n := |steps| - 1;
      && CarefulFrom(s, steps[..n])
      && (After(s, steps[..n]).Some? ==> Careful(After(s, steps[..n]).value, steps[n]))
  }

  // ---------------------------------------------------------------------------
  // A stored response answers every later request
  // ---------------------------------------------------------------------------

  // Nothing is uncommitted once the marker holds a response.
  lemma StoredMeansIdle(s: State)
    requires Invariant(s) && s.committed.Some? && s.committed.value.response.Some?
    ensures s.pending.None?
  {
    if s.pending.Some? {
      assert RequestOk(s, s.pending.value.writer);
    }
  }

  // What the marker `row` tells a request with this fingerprint.
  function Reply(row: Row, fp: Fingerprint): Option<Response> {
    if fp == row.fp then row.response else Some(Response(409, "ERR-SYS-005"))
  }

  // A request that had not read the marker before it held a response.
  predicate Late(s: State, row: Row, late: RequestId) {
    late in s.requests ==>
      var q := s.requests[late];
      || q.at.Begin? || q.at.Conflicted? || q.at.Crashed?
      || (q.at.Answering? && Some(q.at.response) == Reply(row, q.fp))
      || (q.at.Done? && q.sent == Reply(row, q.fp))
  }

  lemma LateStep(s: State, a: Action, late: RequestId)
    requires Invariant(s) && Careful(s, a) && Do(s, a).Some?
    requires s.committed.Some? && s.committed.value.response.Some? && Late(s, s.committed.value, late)
    ensures Do(s, a).value.committed == s.committed && Late(Do(s, a).value, s.committed.value, late)
  {
    ResponseStays(s, a);
    if !a.Arrive? && !a.Tick? && !a.Purge? {
      if a.r != late { OthersAreNotTouched(s, a, late); }
    }
  }

  lemma {:induction false} StoredAnswersLate(s: State, steps: seq<Action>, late: RequestId)
    requires Invariant(s) && CarefulFrom(s, steps) && After(s, steps).Some?
    requires s.committed.Some? && s.committed.value.response.Some? && Late(s, s.committed.value, late)
    ensures var end := After(s, steps).value;
            Invariant(end) && end.committed == s.committed && Late(end, s.committed.value, late)
  {
    if steps != [] {
      var n := |steps| - 1;
      StoredAnswersLate(s, steps[..n], late);
      StepKeepsInvariant(After(s, steps[..n]).value, steps[n]);
      LateStep(After(s, steps[..n]).value, steps[n], late);
    }
  }

  // `r` is finished, and its response is in the marker.
  predicate FinishedAndStored(s: State, r: RequestId) {
    && r in s.requests && s.requests[r].at.Done? && s.requests[r].claimed
    && (r in s.effects || (s.requests[r].failure.Some? && s.requests[r].failure.value.Close?))
  }

  lemma FinishedIsStored(schedule: seq<Action>, r: RequestId)
    requires CarefulRun(schedule) && Exec(schedule).Some? && FinishedAndStored(Exec(schedule).value, r)
    ensures var s := Exec(schedule).value;
            && Invariant(s) && s.committed.Some? && s.committed.value.response.Some?
            && s.committed.value.fp == s.requests[r].fp && s.committed.value.response == s.requests[r].sent
  {
    OneOutcome(schedule, r);
    ReachableInvariant(schedule);
    assert RequestOk(Exec(schedule).value, r);
  }

  /** Once a request that ran its handler is finished and its response stored, every request that
      had not read the marker by then, whenever it arrives and whatever the others do, is sent
      that same response if its fingerprint is the same, and 409 ERR-SYS-005 if not. */
  lemma LaterRequestsAreReplayed(schedule: seq<Action>, r: RequestId, steps: seq<Action>, late: RequestId)
    requires CarefulRun(schedule) && Exec(schedule).Some? && FinishedAndStored(Exec(schedule).value, r)
    requires var s := Exec(schedule).value;
             && CarefulFrom(s, steps) && After(s, steps).Some?
             && (late in s.requests ==> s.requests[late].at.Begin? || s.requests[late].at.Conflicted?)
    ensures var s, end := Exec(schedule).value, After(Exec(schedule).value, steps).value;
            && s.requests[r].sent.Some? && end.committed == s.committed
            && (late in end.requests && end.requests[late].at.Done? ==>
                  end.requests[late].sent ==
                  if end.requests[late].fp == s.requests[r].fp then s.requests[r].sent
                  else Some(Response(409, "ERR-SYS-005")))
  {
    FinishedIsStored(schedule, r);
    StoredAnswersLate(Exec(schedule).value, steps, late);
  }

  /** And it is answered without waiting: a retry that arrives then inserts, reads and is sent that
      answer in four enabled steps, which leave the marker and the committed effects alone. */
  lemma RetryIsReplayed(schedule: seq<Action>, r: RequestId, retry: RequestId, fp: Fingerprint) returns (end: State)
    requires CarefulRun(schedule) && Exec(schedule).Some? && FinishedAndStored(Exec(schedule).value, r)
    requires retry !in Exec(schedule).value.requests
    ensures var s := Exec(schedule).value;
            && After(s, [Arrive(retry, fp), Insert(retry), Read(retry), Send(retry)]) == Some(end)
            && end.committed == s.committed && end.effects == s.effects
            && retry in end.requests && end.requests[retry].at.Done? && !end.requests[retry].claimed
            && end.requests[retry].sent ==
               if fp == s.requests[r].fp then s.requests[r].sent else Some(Response(409, "ERR-SYS-005"))
  {
    var s := Exec(schedule).value;
    FinishedIsStored(schedule, r);
    StoredMeansIdle(s);
    var arrived := Do(s, Arrive(retry, fp)).value;
    var conflicted := Do(arrived, Insert(retry)).value;
    var read := Do(conflicted, Read(retry)).value;
    end := Do(read, Send(retry)).value;
    AfterFour(s, Arrive(retry, fp), Insert(retry), Read(retry), Send(retry));
  }

  // ---------------------------------------------------------------------------
  // A decided answer is the one that is sent
  // ---------------------------------------------------------------------------

  // The answer `x` is decided for the request, and nothing else has been sent.
  predicate Decided(q: Request, x: Response) {
    match q.at
    case Running => q.saved == Some(x)
    case Returned(response) => response == x
    case Trailing => q.sent == Some(x)
    case Failed(how) => x == if how.Close? then how.response else Response(500, "ERR-SYS-001")
    case Settling(how) => x == if how.Close? then how.response else Response(500, "ERR-SYS-001")
    case Answering(response) => response == x
    case Done => q.sent == Some(x)
    case Crashed => true
    case _ => false
  }

  // The steps that decide a request's answer anew.
  predicate Decides(a: Action, r: RequestId) {
    (a.Save? || a.RaiseRefusal? || a.RaiseHttp? || a.RaiseBug? || a.CommitFails?) && a.r == r
  }

  function Decision(a: Action): Response {
    match a
    case Save(_, response) => response
    case RaiseRefusal(_, response) => response
    case RaiseHttp(_, response) => response
    case _ => Response(500, "ERR-SYS-001")
  }

  lemma DecidedStep(s: State, a: Action, r: RequestId, x: Response)
    requires Do(s, a).Some? && !Decides(a, r) && r in s.requests && Decided(s.requests[r], x)
    ensures r in Do(s, a).value.requests && Decided(Do(s, a).value.requests[r], x)
  {
    if !a.Arrive? && !a.Tick? && !a.Purge? {
      if a.r != r { OthersAreNotTouched(s, a, r); }
    }
  }

  lemma {:induction false} DecidedStays(s: State, steps: seq<Action>, r: RequestId, x: Response)
    requires After(s, steps).Some? && r in s.requests && Decided(s.requests[r], x)
    requires forall a :: a in steps ==> !Decides(a, r)
    ensures r in After(s, steps).value.requests && Decided(After(s, steps).value.requests[r], x)
  {
    if steps != [] {
      var n := |steps| - 1;
      DecidedStays(s, steps[..n], r, x);
      DecidedStep(After(s, steps[..n]).value, steps[n], r, x);
    }
  }

  /** In every run, re-claims and purges included: a request that ran its handler is sent what it
      decided last, and that is the saved response, the refusal or HTTP error it raised, or
      500 ERR-SYS-001 after a bug or a failed commit. */
  lemma LastDecisionIsSent(s: State, a: Action, r: RequestId, steps: seq<Action>)
    requires Decides(a, r) && Do(s, a).Some? && After(Do(s, a).value, steps).Some?
    requires forall later :: later in steps ==> !Decides(later, r)
    ensures var end := After(Do(s, a).value, steps).value;
            && r in end.requests
            && (end.requests[r].at.Done? ==> end.requests[r].sent == Some(Decision(a)))
  {
    DecidedStays(Do(s, a).value, steps, r, Decision(a));
  }

  // `x` is on its way out, or sent, and there is no more to decide.
  predicate Answered(q: Request, x: Response) {
    (q.at.Answering? || q.at.Done? || q.at.Crashed?) && Decided(q, x)
  }

  lemma AnsweredStep(s: State, a: Action, r: RequestId, x: Response)
    requires Do(s, a).Some? && r in s.requests && Answered(s.requests[r], x)
    ensures r in Do(s, a).value.requests && Answered(Do(s, a).value.requests[r], x)
  {
    if !a.Arrive? && !a.Tick? && !a.Purge? {
      if a.r != r { OthersAreNotTouched(s, a, r); }
    }
  }

  lemma {:induction false} AnsweredStays(s: State, steps: seq<Action>, r: RequestId, x: Response)
    requires After(s, steps).Some? && r in s.requests && Answered(s.requests[r], x)
    ensures r in After(s, steps).value.requests && Answered(After(s, steps).value.requests[r], x)
  {
    if steps != [] {
      var n := |steps| - 1;
      AnsweredStays(s, steps[..n], r, x);
      AnsweredStep(After(s, steps[..n]).value, steps[n], r, x);
    }
  }

  /** In every run: a request that reads the marker of another one is sent the response found
      there if the fingerprints agree, and 409 ERR-SYS-005 if they do not or if there is no
      response yet and the marker is at most 300 seconds old, whatever happens before it is sent. */
  lemma ReadAnswerIsSent(s: State, r: RequestId, steps: seq<Action>)
    requires Do(s, Read(r)).Some? && s.committed.Some? && After(Do(s, Read(r)).value, steps).Some?
    requires var row := s.committed.value;
             row.fp != s.requests[r].fp || row.response.Some? || s.now <= row.createdAt + 300
    ensures var row, end := s.committed.value, After(Do(s, Read(r)).value, steps).value;
            && r in end.requests
            && (end.requests[r].at.Done? ==>
                  end.requests[r].sent ==
                  if row.fp == s.requests[r].fp && row.response.Some? then row.response
                  else Some(Response(409, "ERR-SYS-005")))
  {
    AnsweredStays(Do(s, Read(r)).value, steps, r, Do(s, Read(r)).value.requests[r].at.response);
  }

  // ---------------------------------------------------------------------------
  // Nobody is stuck
  // ---------------------------------------------------------------------------

  // The step a request takes next, if its handler does nothing more.
  function NextStep(r: RequestId, q: Request): Action {
    match q.at
    case Begin => Insert(r)
    case Inserted => CommitMarker(r)
    case Conflicted => Read(r)
    case Reclaiming => DeleteStale(r)
    case Deleted => CommitDelete(r)
    case Running => if q.saved.Some? then Return(r) else RaiseBug(r)
    case Returned(response) => if response.status < 400 then CommitResponse(r) else Send(r)
    case Trailing => CommitResponse(r)
    case Failed(_) => Settle(r)
    case Settling(_) => CommitSettlement(r)
    case _ => Send(r)
  }

  predicate Finished(q: Request) {
    q.at.Done? || q.at.Crashed?
  }

  /** A request waits only for another one's uncommitted marker, and never for long: as long as
      some request is unfinished, it or the one it waits for can take its next step. */
  lemma SomeoneCanMove(schedule: seq<Action>, r: RequestId) returns (mover: RequestId)
    requires CarefulRun(schedule) && Exec(schedule).Some?
    requires var s := Exec(schedule).value; r in s.requests && !Finished(s.requests[r])
    ensures var s := Exec(schedule).value;
            && (mover == r || (s.pending.Some? && mover == s.pending.value.writer))
            && mover in s.requests && !Finished(s.requests[mover])
            && Do(s, NextStep(mover, s.requests[mover])).Some?
  {
    var s := Exec(schedule).value;
    ReachableInvariant(schedule);
    mover := if s.pending.Some? then s.pending.value.writer else r;
    WriterCanMove(s, mover);
  }

  lemma WriterCanMove(s: State, r: RequestId)
    requires Invariant(s) && r in s.requests && !Finished(s.requests[r])
    requires s.pending.Some? ==> Owns(s, r)
    ensures Do(s, NextStep(r, s.requests[r])).Some?
  {
    var q := s.requests[r];
    assert RequestOk(s, r);
    if q.at.Reclaiming? || q.at.Failed? {
      UnlockedRowIsWritten(s, r);
    } else if q.at.Begin? {
      assert s.pending.None?;
    } else if q.at.Returned? || q.at.Trailing? {
      assert !q.settled;
    }
  }

  lemma UnlockedRowIsWritten(s: State, r: RequestId)
    requires r in s.requests && (s.requests[r].at.Reclaiming? || s.requests[r].at.Failed?)
    requires s.pending.Some? ==> Owns(s, r)
    ensures Do(s, NextStep(r, s.requests[r])).Some?
  {
  }

  /** A live handler waits for nobody: it can save and then return, or raise, at any time. */
  lemma HandlerIsNotBlocked(schedule: seq<Action>, r: RequestId, response: Response)
    requires CarefulRun(schedule) && Exec(schedule).Some?
    requires r in Exec(schedule).value.requests && Exec(schedule).value.requests[r].at.Running?
    ensures var s := Exec(schedule).value;
            && Do(s, Save(r, response)).Some? && Do(Do(s, Save(r, response)).value, Return(r)).Some?
            && (response.status >= 400 ==>
                  Do(s, RaiseRefusal(r, response)).Some? && Do(s, RaiseHttp(r, response)).Some?)
            && Do(s, RaiseBug(r)).Some?
  {
    var s := Exec(schedule).value;
    ReachableInvariant(schedule);
    OnlyTheHolderWrites(s, r);
    UnlockedHandler(s, r, response);
    RunningCanRaise(s, r, response);
  }

  // Beside a live handler no other request has anything uncommitted.
  lemma OnlyTheHolderWrites(s: State, r: RequestId)
    requires Invariant(s) && r in s.requests && s.requests[r].Holding()
    ensures s.pending.Some? ==> Owns(s, r)
  {
    if s.pending.Some? {
      var w := s.pending.value.writer;
      KeyRequests(s, r);
      if w != r { OneHolder(s, r, w); }
    }
  }

  lemma RunningCanRaise(s: State, r: RequestId, response: Response)
    requires r in s.requests && s.requests[r].at.Running?
    ensures response.status >= 400 ==> Do(s, RaiseRefusal(r, response)).Some? && Do(s, RaiseHttp(r, response)).Some?
    ensures Do(s, RaiseBug(r)).Some?
  {
  }

  lemma UnlockedHandler(s: State, r: RequestId, response: Response)
    requires r in s.requests && s.requests[r].at.Running? && (s.pending.Some? ==> Owns(s, r))
    ensures Do(s, Save(r, response)).Some? && Do(Do(s, Save(r, response)).value, Return(r)).Some?
  {
  }

  // ---------------------------------------------------------------------------
  // A marker in flight is respected for five minutes
  // ---------------------------------------------------------------------------

  // `r` inserted its marker at `since`, and any marker of its own is that one.
  predicate InsertedAt(s: State, r: RequestId, since: int) {
    && r in s.requests
    && !s.requests[r].at.Begin? && !s.requests[r].at.Conflicted?
    && !s.requests[r].at.Reclaiming? && !s.requests[r].at.Deleted?
    && (s.committed.Some? && s.committed.value.owner == r ==> s.committed.value.createdAt == since)
    && (s.pending.Some? && s.pending.value.row.Some? && s.pending.value.row.value.owner == r ==>
          s.pending.value.row.value.createdAt == since)
  }

  lemma InsertedAtStep(s: State, a: Action, r: RequestId, since: int)
    requires Do(s, a).Some? && InsertedAt(s, r, since)
    ensures InsertedAt(Do(s, a).value, r, since)
  {
    if !a.Arrive? && !a.Tick? && !a.Purge? {
      if a.r != r { RivalKeepsTime(s, a, r, since); } else { OwnStepKeepsTime(s, a, since); }
    }
  }

  lemma RivalKeepsTime(s: State, a: Action, r: RequestId, since: int)
    requires !a.Arrive? && !a.Tick? && !a.Purge? && a.r != r && Do(s, a).Some? && InsertedAt(s, r, since)
    ensures InsertedAt(Do(s, a).value, r, since)
  {
    OthersAreNotTouched(s, a, r);
  }

  lemma OwnStepKeepsTime(s: State, a: Action, since: int)
    requires !a.Arrive? && !a.Tick? && !a.Purge? && Do(s, a).Some? && InsertedAt(s, a.r, since)
    ensures InsertedAt(Do(s, a).value, a.r, since)
  {
    if a.Save? || a.Settle? {
      OwnWriteKeepsTime(s, a, since);
    } else if a.CommitMarker? || a.CommitResponse? || a.CommitSettlement? {
      OwnCommitKeepsTime(s, a, since);
    } else {
      assert Do(s, a).value == Do(s, a).value.(committed := s.committed);
    }
  }

  lemma OwnWriteKeepsTime(s: State, a: Action, since: int)
    requires (a.Save? || a.Settle?) && Do(s, a).Some? && InsertedAt(s, a.r, since)
    ensures InsertedAt(Do(s, a).value, a.r, since)
  {
  }

  lemma OwnCommitKeepsTime(s: State, a: Action, since: int)
    requires a.CommitMarker? || a.CommitResponse? || a.CommitSettlement?
    requires Do(s, a).Some? && InsertedAt(s, a.r, since)
    ensures InsertedAt(Do(s, a).value, a.r, since)
  {
  }

  lemma {:induction false} InsertedAtStays(s: State, steps: seq<Action>, r: RequestId, since: int)
    requires After(s, steps).Some? && InsertedAt(s, r, since)
    ensures InsertedAt(After(s, steps).value, r, since)
  {
    if steps != [] {
      var n := |steps| - 1;
      InsertedAtStays(s, steps[..n], r, since);
      InsertedAtStep(After(s, steps[..n]).value, steps[n], r, since);
    }
  }

  /** While a request's marker is in flight, a duplicate that reads it is refused with
      409 ERR-SYS-005 up to 300 seconds after the insert, and re-claims it from then on; with
      another fingerprint it is refused at any time. */
  lemma InFlightIsRespected(s: State, r: RequestId, steps: seq<Action>, rival: RequestId)
    requires Do(s, Insert(r)).Some? && s.committed.None? && After(Do(s, Insert(r)).value, steps).Some?
    requires var later := After(Do(s, Insert(r)).value, steps).value;
             && later.committed.Some? && later.committed.value.owner == r && later.committed.value.response.None?
             && rival in later.requests && later.requests[rival].at.Conflicted?
    ensures var later := After(Do(s, Insert(r)).value, steps).value;
            && Do(later, Read(rival)).Some?
            && Do(later, Read(rival)).value.requests[rival].at ==
               if later.requests[rival].fp == later.committed.value.fp && later.now > s.now + 300 then Reclaiming
               else Answering(Response(409, "ERR-SYS-005"))
  {
    InsertedAtStays(Do(s, Insert(r)).value, steps, r, s.now);
  }
}
