/**
 The in-memory token-bucket limiter as a transition relation on values, and what
 holds of its runs. `RateLimiter` proves the mutable implementation against it.

 Token counts and clock readings are reals. Which of several equally old buckets
 the cap pass drops is left open, so every theorem covers every tie-break.
 */
module RateLimitSpec {

  datatype Key = Key(scope: string, ip: string)

  datatype Level = Level(tokens: real, updated: real)

  type Levels = map<Key, Level>

  datatype Config = Config(idle: real, maxBuckets: nat, sweepEvery: real)
  {
    ghost predicate Valid() {
      idle > 0.0 && maxBuckets >= 1
    }

    // A bucket idle for a minute is full whatever its limit is.
    ghost predicate Lossless() {
      Valid() && idle >= 60.0
    }
  }

  const PRODUCTION := Config(60.0, 20_000, 1.0)

  /** What is proved of lossless configurations covers the shipped one. */
  lemma ProductionIsLossless()
    ensures PRODUCTION.Lossless()
  {
  }

  datatype State = State(levels: Levels, lastSweep: real)

  const EMPTY := State(map[], 0.0)

  /** One call of `consume`: the setting it read and the clock it saw. */
  datatype Request = Request(key: Key, perMinute: int, now: real)

  datatype Outcome = Admitted | Refused(retryAfter: int)

  // ---------------------------------------------------------------------------
  // One call
  // ---------------------------------------------------------------------------

  function Limit(perMinute: int): int {
    if perMinute < 1 then 1 else perMinute
  }

  function Min(a: real, b: real): real {
    if a <= b then a else b
  }

  // Tokens that `elapsed` seconds add under `limit` tokens a minute.
  function Refill(elapsed: real, limit: int): real {
    elapsed * limit as real / 60.0
  }

  function Refilled(level: Level, limit: int, now: real): Level {
    Level(Min(limit as real, level.tokens + Refill(now - level.updated, limit)), now)
  }

  function Touched(levels: Levels, req: Request): Level {
    if req.key in levels
    then Refilled(levels[req.key], Limit(req.perMinute), req.now)
    else Level(Limit(req.perMinute) as real, req.now)
  }

  function Ceiling(x: real): int {
    -((-x).Floor)
  }

  function Verdict(level: Level, limit: int): Outcome
    requires limit >= 1
  {
    if level.tokens < 1.0
    then Refused(Ceiling((1.0 - level.tokens) * 60.0 / limit as real))
    else Admitted
  }

  function Charged(level: Level): Level {
    if level.tokens < 1.0 then level else level.(tokens := level.tokens - 1.0)
  }

  function InScope(keys: set<Key>, scope: string): set<Key> {
    set k | k in keys && k.scope == scope
  }

  ghost predicate OverCap(cfg: Config, levels: Levels) {
    exists s :: |InScope(levels.Keys, s)| > cfg.maxBuckets
  }

  function WithoutIdle(cfg: Config, levels: Levels, now: real, keep: Key): Levels {
    map k | k in levels && (k == keep || now - levels[k].updated < cfg.idle) :: levels[k]
  }

  /** `after` is `before` without its least recently touched keys other than `keep`. */
  ghost predicate OldestDropped(before: Levels, after: Levels, keep: Key) {
    && after.Keys <= before.Keys
    && (forall k :: k in after ==> after[k] == before[k])
    && (keep in before ==> keep in after)
    && (forall d, k :: d in before && d !in after && k in after && k != keep && d.scope == k.scope
                       ==> before[d].updated <= before[k].updated)
  }

  ghost predicate CapPass(cfg: Config, before: Levels, after: Levels, keep: Key) {
    && OldestDropped(before, after, keep)
    && (forall s ::
          |InScope(after.Keys, s)| ==
          if |InScope(before.Keys, s)| <= cfg.maxBuckets then |InScope(before.Keys, s)| else cfg.maxBuckets)
  }

  ghost predicate SweepStep(cfg: Config, before: State, after: State, now: real, keep: Key) {
    if now - before.lastSweep < cfg.sweepEvery && !OverCap(cfg, before.levels) then
      after == before
    else
      && after.lastSweep == now
      && var kept := WithoutIdle(cfg, before.levels, now, keep);
         if !OverCap(cfg, kept) then after.levels == kept
         else CapPass(cfg, kept, after.levels, keep)
  }

  /** Around the sweep: the caller's bucket is stored, the rest swept, the bucket charged. */
  ghost predicate ChargeAround(cfg: Config, before: State, key: Key, level: Level, now: real, swept: State,
                               after: State) {
    && SweepStep(cfg, before.(levels := before.levels[key := level]), swept, now, key)
    && after == swept.(levels := swept.levels[key := Charged(level)])
  }

  ghost predicate ConsumeStep(cfg: Config, before: State, req: Request, after: State, out: Outcome) {
    var level := Touched(before.levels, req);
    && out == Verdict(level, Limit(req.perMinute))
    && exists swept :: ChargeAround(cfg, before, req.key, level, req.now, swept, after)
  }

  // ---------------------------------------------------------------------------
  // Runs
  // ---------------------------------------------------------------------------

  /** One process lifetime, from an empty dict, call by call. */
  datatype Run = Start | Next(prev: Run, req: Request, out: Outcome, after: State)
  {
    function Last(): State {
      if Start? then EMPTY else after
    }

    ghost predicate Valid(cfg: Config) {
      Next? ==> prev.Valid(cfg) && ConsumeStep(cfg, prev.Last(), req, after, out)
    }

    // The clock never goes back, and has not passed `now`.
    ghost predicate Until(now: real) {
      Next? ==> prev.Until(req.now) && req.now <= now
    }

    // The clock moves between any two calls, and has passed the last one at `now`.
    ghost predicate Before(now: real) {
      Next? ==> prev.Before(req.now) && req.now < now
    }

    // The calls of one scope, with their results.
    function Results(scope: string): seq<(Request, Outcome)> {
      if Start? then []
      else prev.Results(scope) + if req.key.scope == scope then [(req, out)] else []
    }

    function Requests(scope: string): seq<Request> {
      if Start? then []
      else prev.Requests(scope) + if req.key.scope == scope then [req] else []
    }

    ghost predicate OnlyScope(scope: string) {
      Next? ==> prev.OnlyScope(scope) && req.key.scope == scope
    }
  }

  /** What every reachable state satisfies between two calls. */
  ghost predicate Invariant(cfg: Config, state: State, latest: real) {
    && (forall s :: |InScope(state.levels.Keys, s)| <= cfg.maxBuckets)
    && (forall k :: k in state.levels ==> state.levels[k].tokens >= 0.0 && state.levels[k].updated <= latest)
  }

  // ---------------------------------------------------------------------------
  // The state invariant
  // ---------------------------------------------------------------------------

  lemma RefillGrows(shorter: real, longer: real, limit: int)
    requires shorter <= longer && limit >= 1
    ensures Refill(shorter, limit) <= Refill(longer, limit)
    ensures Refill(0.0, limit) == 0.0 && Refill(60.0, limit) == limit as real
  {
    var l := limit as real;
    assert (longer - shorter) * l >= 0.0;
    assert shorter * l <= longer * l;
    assert 60.0 * l / 60.0 == l;
  }

  lemma RefillIsBounded(levels: Levels, req: Request)
    requires req.key in levels ==> levels[req.key].tokens >= 0.0 && levels[req.key].updated <= req.now
    ensures 0.0 <= Touched(levels, req).tokens <= Limit(req.perMinute) as real
    ensures Touched(levels, req).updated == req.now
  {
    if req.key in levels {
      RefillGrows(0.0, req.now - levels[req.key].updated, Limit(req.perMinute));
    }
  }

  lemma ChargeAroundKeepsInvariant(cfg: Config, before: State, key: Key, level: Level, now: real,
                                   swept: State, after: State)
    requires cfg.Valid() && Invariant(cfg, before, now)
    requires level.tokens >= 0.0 && level.updated == now
    requires ChargeAround(cfg, before, key, level, now, swept, after)
    ensures Invariant(cfg, after, now)
    ensures key in after.levels && after.levels[key] == Charged(level)
  {
    assert key in swept.levels;
    assert after.levels.Keys == swept.levels.Keys;
  }

  /** Every state of every run: caps hold, budgets are never negative, and the
      caller's own bucket has survived its call, charged. */
  lemma {:induction false} ReachableInvariant(cfg: Config, run: Run, latest: real)
    requires cfg.Valid() && run.Valid(cfg) && run.Until(latest)
    ensures Invariant(cfg, run.Last(), latest)
    ensures run.Next? ==>
              && run.req.key in run.after.levels
              && run.after.levels[run.req.key] == Charged(Touched(run.prev.Last().levels, run.req))
  {
    if run.Start? {
      assert forall s :: InScope(EMPTY.levels.Keys, s) == {};
    } else {
      var before := run.prev.Last();
      ReachableInvariant(cfg, run.prev, run.req.now);
      RefillIsBounded(before.levels, run.req);
      var level := Touched(before.levels, run.req);
      var swept :| ChargeAround(cfg, before, run.req.key, level, run.req.now, swept, run.after);
      ChargeAroundKeepsInvariant(cfg, before, run.req.key, level, run.req.now, swept, run.after);
    }
  }
}
