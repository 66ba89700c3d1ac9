/**
 Requests racing on one idempotency marker: `begin`, the handler's transaction,
 `save`, the commit before the response, and the settling of a failed request.

 Every statement of the source names the marker by key and user, so markers do not
 interact and one is modelled. Each SQL statement and each commit is one step; a
 request is a program counter. An uncommitted write holds the row: a rival insert
 waits for it, and so does a rival update or delete of a committed row, while an
 update or delete that sees no committed row changes nothing.
 */
module IdempotencyProtocol {
  import opened Wrappers

  type RequestId = nat

  type Fingerprint = string

  datatype Response = Response(status: int, body: string)

  const SERVER_ERROR := Response(500, "ERR-SYS-001")
  const CONFLICT := Response(409, "ERR-SYS-005")
  const IN_FLIGHT_TTL := 300

  /** The marker row. `owner` is not a column: it names the request that inserted it. */
  datatype Row = Row(fp: Fingerprint, response: Option<Response>, createdAt: int, owner: RequestId)

  /** What an open transaction would leave in the marker's place: a row, or nothing. */
  datatype Pending = Pending(writer: RequestId, row: Option<Row>)

  datatype Settlement = Close(response: Response) | Delete

  datatype Counter =
    | Begin                      // about to insert-if-absent
    | Inserted                   // own marker inserted, not committed
    | Conflicted                 // the insert found a marker; about to read it
    | Reclaiming                 // read a stale in-flight marker; about to delete it
    | Deleted                    // about to commit that delete
    | Running                    // the handler is live, its transaction open
    | Returned(response: Response)
    | Trailing                   // a response of 400 or more is out, its transaction still open
    | Failed(how: Settlement)    // session rolled back; marker to be settled in a fresh one
    | Settling(how: Settlement)  // settled, not committed
    | Answering(response: Response)
    | Done
    | Crashed

  datatype Request = Request(
    fp: Fingerprint, at: Counter,
    claimed: bool,                 // `begin` returned a context
    saved: Option<Response>,     // what the handler passed to `save`
    settled: bool,               // RequestTransaction.settled
    rolledBack: bool,
    failure: Option<Settlement>, // how its failure is to be settled
    sent: Option<Response>)
  {
    predicate Live() {
      at.Inserted? || Holding()
    }

    // Past its own marker commit, and not finished with it.
    predicate Holding() {
      at.Running? || at.Returned? || at.Trailing? || at.Failed? || at.Settling?
    }
  }

  datatype State = State(
    committed: Option<Row>, pending: Option<Pending>,
    requests: map<RequestId, Request>, now: int,
    effects: seq<RequestId>,                  // handler transactions committed, in order
    closed: set<(Fingerprint, Response)>)     // responses committed, with the saver's fingerprint

  const INITIAL := State(None, None, map[], 0, [], {})

  datatype Action =
    | Arrive(r: RequestId, fp: Fingerprint)
    | Insert(r: RequestId)
    | CommitMarker(r: RequestId)
    | Read(r: RequestId)
    | DeleteStale(r: RequestId)
    | CommitDelete(r: RequestId)
    | Save(r: RequestId, response: Response)
    | Return(r: RequestId)
    | RaiseRefusal(r: RequestId, response: Response)  // DomainError, RequestValidationError
    | RaiseHttp(r: RequestId, response: Response)     // HTTPException: settled by nobody
    | RaiseBug(r: RequestId)
    | CommitResponse(r: RequestId)
    | CommitFails(r: RequestId)
    | Settle(r: RequestId)
    | CommitSettlement(r: RequestId)
    | Send(r: RequestId)
    | Crash(r: RequestId)
    | Tick(seconds: nat)
    | Purge

  // ---------------------------------------------------------------------------
  // Steps
  // ---------------------------------------------------------------------------

  function With(s: State, r: RequestId, q: Request): State {
    s.(requests := s.requests[r := q])
  }

  predicate Owns(s: State, r: RequestId) {
    s.pending.Some? && s.pending.value.writer == r
  }

  // Rollback: whatever the transaction of `r` wrote is gone.
  function Rollback(s: State, r: RequestId): State {
    if Owns(s, r) then s.(pending := None) else s
  }

  function Publish(s: State, r: RequestId): State {
    if Owns(s, r) then s.(committed := s.pending.value.row, pending := None) else s
  }

  // UPDATE or DELETE by key and user: nothing to do without a committed row, else the row lock.
  function Write(s: State, r: RequestId, change: Row -> Option<Row>): Option<State> {
    if s.committed.None? then Some(s)
    else if s.pending.Some? && !Owns(s, r) then None
    else Some(s.(pending := Some(Pending(r, change(s.committed.value)))))
  }

  function ClosedWith(response: Response): Row -> Option<Row> {
    (row: Row) => Some(row.(response := Some(response)))
  }

  function SettlementOf(how: Settlement): Row -> Option<Row> {
    if how.Close? then ClosedWith(how.response) else (row: Row) => None
  }

  // `get_db` on an exception.
  function Abort(s: State, r: RequestId, q: Request, next: Counter): State {
    var failure := if next.Failed? then Some(next.how) else None;
    With(Rollback(s, r), r, q.(at := next, settled := true, rolledBack := true, failure := failure))
  }

  // `begin` after its insert conflicted.
  function ReadMarker(s: State, r: RequestId, q: Request): State {
    if s.committed.None? then With(s, r, q.(at := Begin))
    else
      var row := s.committed.value;
      if row.fp != q.fp then Abort(s, r, q, Answering(CONFLICT))
      else if row.response.Some? then Abort(s, r, q, Answering(row.response.value))
      else if row.createdAt < s.now - IN_FLIGHT_TTL then With(s, r, q.(at := Reclaiming))
      else Abort(s, r, q, Answering(CONFLICT))
  }

  // The middleware's commit (`settled` first), or `get_db`'s own after a response of 400 or more.
  function CommitHandler(s: State, r: RequestId, q: Request): Option<State> {
    if q.settled then None
    else if q.at.Returned? && q.at.response.status < 400 then
      Some(Applied(s, r, q, Answering(q.at.response)))
    else if q.at.Trailing? then
      Some(Applied(s, r, q, Done))
    else None
  }

  function Applied(s: State, r: RequestId, q: Request, next: Counter): State {
    var saved := if Owns(s, r) && q.saved.Some? then {(q.fp, q.saved.value)} else {};
    With(Publish(s, r).(effects := s.effects + [r], closed := s.closed + saved), r,
         q.(at := next, settled := true))
  }

  // The middleware commits before it lets a response below 400 start; any other goes out as it is.
  function SendResponse(s: State, r: RequestId, q: Request): Option<State> {
    match q.at
    case Answering(response) => Some(With(s, r, q.(at := Done, sent := Some(response))))
    case Returned(response) =>
      if response.status < 400 then None
      else Some(With(s, r, q.(at := Trailing, sent := Some(response))))
    case _ => None
  }

  function Settled(s: State, r: RequestId, q: Request, how: Settlement): State {
    var saved := if Owns(s, r) && how.Close? then {(q.fp, how.response)} else {};
    With(Publish(s, r).(closed := s.closed + saved), r,
         q.(at := Answering(if how.Close? then how.response else SERVER_ERROR)))
  }

  /** The state after `a`, or None when `a` is blocked or not the request's next step. */
  function Do(s: State, a: Action): Option<State> {
    match a
    case Arrive(r, fp) =>
      if r in s.requests then None
      else Some(With(s, r, Request(fp, Begin, false, None, false, false, None, None)))
    case Tick(seconds) => Some(s.(now := s.now + seconds))
    case Purge => if s.pending.Some? then None else Some(s.(committed := None))
    case _ =>
      if a.r !in s.requests then None else Act(s, a, s.requests[a.r])
  }

  function Act(s: State, a: Action, q: Request): Option<State>
    requires !a.Arrive? && !a.Tick? && !a.Purge?
  {
    var r := a.r;
    match a
    case Insert(_) =>
      if !q.at.Begin? || s.pending.Some? then None
      else if s.committed.Some? then Some(With(s, r, q.(at := Conflicted)))
      else Some(With(s.(pending := Some(Pending(r, Some(Row(q.fp, None, s.now, r))))), r, q.(at := Inserted)))
    case CommitMarker(_) =>
      if !q.at.Inserted? then None else Some(With(Publish(s, r), r, q.(at := Running, claimed := true)))
    case Read(_) =>
      if !q.at.Conflicted? then None else Some(ReadMarker(s, r, q))
    case DeleteStale(_) =>
      if !q.at.Reclaiming? then None
      else
        var written := Write(s, r, row => None);
        if written.None? then None else Some(With(written.value, r, q.(at := Deleted)))
    case CommitDelete(_) =>
      if !q.at.Deleted? then None else Some(With(Publish(s, r), r, q.(at := Begin)))
    case Save(_, response) =>
      if !q.at.Running? then None
      else
        var written := Write(s, r, ClosedWith(response));
        if written.None? then None else Some(With(written.value, r, q.(saved := Some(response))))
    case Return(_) =>
      if !q.at.Running? || q.saved.None? then None
      else Some(With(s, r, q.(at := Returned(q.saved.value))))
    case RaiseRefusal(_, response) =>
      if !q.at.Running? || response.status < 400 then None
      else Some(Abort(s, r, q, Failed(Close(response))))
    case RaiseHttp(_, response) =>
      if !q.at.Running? || response.status < 400 then None
      else Some(Abort(s, r, q, Answering(response)))
    case RaiseBug(_) =>
      if !q.at.Running? then None else Some(Abort(s, r, q, Failed(Delete)))
    case CommitResponse(_) => CommitHandler(s, r, q)
    case CommitFails(_) =>
      if !q.at.Returned? || q.at.response.status >= 400 then None
      else Some(Abort(s, r, q, Failed(Delete)))
    case Settle(_) =>
      if !q.at.Failed? then None
      else
        var written := Write(s, r, SettlementOf(q.at.how));
        if written.None? then None else Some(With(written.value, r, q.(at := Settling(q.at.how))))
    case CommitSettlement(_) =>
      if !q.at.Settling? then None else Some(Settled(s, r, q, q.at.how))
    case Send(_) => SendResponse(s, r, q)
    case Crash(_) =>
      if q.at.Done? || q.at.Crashed? then None else Some(With(Rollback(s, r), r, q.(at := Crashed)))
  }

  // ---------------------------------------------------------------------------
  // Runs
  // ---------------------------------------------------------------------------

  /** The state reached by a schedule, when every step of it is enabled. */
  function Exec(schedule: seq<Action>): Option<State> {
    if schedule == [] then Some(INITIAL)
    else
      var before := Exec(schedule[..|schedule| - 1]);
      if before.None? then None else Do(before.value, schedule[|schedule| - 1])
  }
}
