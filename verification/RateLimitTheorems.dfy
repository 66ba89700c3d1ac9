/**
 What the limiter promises over whole runs. The key step: seen through its live
 (recently touched) buckets, each scope is an eager least-recently-used budget
 table that only its own requests change. The throttled global sweep is invisible.
 */
module RateLimitTheorems {
  import opened Collections
  import opened RateLimitSpec

  // ---------------------------------------------------------------------------
  // A scope seen through its live buckets
  // ---------------------------------------------------------------------------

  function Live(cfg: Config, levels: Levels, scope: string, now: real): Levels {
    map k | k in levels && k.scope == scope && now - levels[k].updated < cfg.idle :: levels[k]
  }

  ghost predicate Trimmed(cfg: Config, before: Levels, after: Levels, keep: Key) {
    && OldestDropped(before, after, keep)
    && |after.Keys| == if |before.Keys| <= cfg.maxBuckets then |before.Keys| else cfg.maxBuckets
  }

  ghost predicate TrimAround(cfg: Config, live: Levels, key: Key, level: Level, trimmed: Levels, live': Levels) {
    && Trimmed(cfg, live[key := level], trimmed, key)
    && live' == trimmed[key := Charged(level)]
  }

  /** The specification machine of one scope: refill, trim at once, charge. */
  ghost predicate ScopeStep(cfg: Config, live: Levels, req: Request, live': Levels, out: Outcome) {
    var level := Touched(live, req);
    && out == Verdict(level, Limit(req.perMinute))
    && exists trimmed :: TrimAround(cfg, live, req.key, level, trimmed, live')
  }

  lemma SameLive(cfg: Config, a: Levels, b: Levels, scope: string, now: real)
    requires forall k :: k in a && k.scope == scope ==> k in b && a[k] == b[k]
    requires forall k :: k in b && k.scope == scope ==> k in a
    ensures Live(cfg, a, scope, now) == Live(cfg, b, scope, now)
  {
  }

  lemma SweepSparesOtherScopes(cfg: Config, before: State, after: State, now: real, keep: Key, scope: string)
    requires cfg.Valid() && SweepStep(cfg, before, after, now, keep)
    requires |InScope(before.levels.Keys, scope)| <= cfg.maxBuckets
    ensures Live(cfg, after.levels, scope, now) == Live(cfg, before.levels, scope, now)
  {
    var kept := WithoutIdle(cfg, before.levels, now, keep);
    assert Live(cfg, kept, scope, now) == Live(cfg, before.levels, scope, now);
    if CapPass(cfg, kept, after.levels, keep) {
      SubsetSize(InScope(kept.Keys, scope), InScope(before.levels.Keys, scope));
      SubsetSize(InScope(after.levels.Keys, scope), InScope(kept.Keys, scope));
      assert forall k :: k in kept && k.scope == scope ==> k in InScope(kept.Keys, scope);
    }
  }

  // The live buckets of a scope, when what is kept of it is all live.
  lemma KeptIsLive(cfg: Config, before: Levels, now: real, keep: Key)
    requires cfg.Valid() && keep in before && before[keep].updated == now
    ensures var kept := WithoutIdle(cfg, before, now, keep);
            Live(cfg, before, keep.scope, now) == Live(cfg, kept, keep.scope, now)
            && Live(cfg, kept, keep.scope, now).Keys == InScope(kept.Keys, keep.scope)
  {
  }

  lemma CapPassTrimsLive(cfg: Config, kept: Levels, after: Levels, now: real, keep: Key)
    requires CapPass(cfg, kept, after, keep) && Live(cfg, kept, keep.scope, now).Keys == InScope(kept.Keys, keep.scope)
    ensures Trimmed(cfg, Live(cfg, kept, keep.scope, now), Live(cfg, after, keep.scope, now), keep)
  {
    assert forall k :: k in InScope(after.Keys, keep.scope) ==> k in InScope(kept.Keys, keep.scope);
    assert Live(cfg, after, keep.scope, now).Keys == InScope(after.Keys, keep.scope);
  }

  lemma NothingTrimmed(cfg: Config, live: Levels, keep: Key)
    requires |live.Keys| <= cfg.maxBuckets
    ensures Trimmed(cfg, live, live, keep)
  {
  }

  lemma SweepTrimsOwnScope(cfg: Config, before: State, after: State, now: real, keep: Key)
    requires cfg.Valid() && SweepStep(cfg, before, after, now, keep)
    requires keep in before.levels && before.levels[keep].updated == now
    ensures Trimmed(cfg, Live(cfg, before.levels, keep.scope, now), Live(cfg, after.levels, keep.scope, now), keep)
  {
    var kept := WithoutIdle(cfg, before.levels, now, keep);
    var live := Live(cfg, before.levels, keep.scope, now);
    KeptIsLive(cfg, before.levels, now, keep);
    if after.levels == before.levels || after.levels == kept {
      SubsetSize(live.Keys, InScope(after.levels.Keys, keep.scope));
      if !OverCap(cfg, after.levels) {
        NothingTrimmed(cfg, live, keep);
      } else {
        CapPassTrimsLive(cfg, kept, after.levels, now, keep);
      }
    } else {
      CapPassTrimsLive(cfg, kept, after.levels, now, keep);
    }
  }

  /** Recreating an idle bucket gives exactly what keeping it would have given. */
  lemma IdleBucketIsFull(cfg: Config, levels: Levels, req: Request)
    requires cfg.Lossless()
    requires req.key in levels && levels[req.key].tokens >= 0.0
    requires req.now - levels[req.key].updated >= cfg.idle
    ensures Touched(levels, req) == Touched(map[], req)
  {
    RefillGrows(60.0, req.now - levels[req.key].updated, Limit(req.perMinute));
  }

  lemma TouchedThroughLive(cfg: Config, levels: Levels, req: Request)
    requires cfg.Lossless()
    requires req.key in levels ==> levels[req.key].tokens >= 0.0
    ensures Touched(levels, req) == Touched(Live(cfg, levels, req.key.scope, req.now), req)
  {
    if req.key in levels && req.now - levels[req.key].updated >= cfg.idle {
      IdleBucketIsFull(cfg, levels, req);
    }
  }

  lemma LiveUpdate(cfg: Config, levels: Levels, key: Key, level: Level, now: real)
    requires cfg.Valid() && level.updated == now
    ensures Live(cfg, levels[key := level], key.scope, now) == Live(cfg, levels, key.scope, now)[key := level]
  {
  }

  /** A request of another scope leaves this scope's live buckets alone. */
  lemma OtherScopeStep(cfg: Config, before: State, req: Request, after: State, out: Outcome, scope: string)
    requires cfg.Valid() && Invariant(cfg, before, req.now)
    requires ConsumeStep(cfg, before, req, after, out) && req.key.scope != scope
    ensures Live(cfg, after.levels, scope, req.now) == Live(cfg, before.levels, scope, req.now)
  {
    var level := Touched(before.levels, req);
    var swept :| ChargeAround(cfg, before, req.key, level, req.now, swept, after);
    var touched := before.(levels := before.levels[req.key := level]);
    assert InScope(touched.levels.Keys, scope) == InScope(before.levels.Keys, scope);
    SweepSparesOtherScopes(cfg, touched, swept, req.now, req.key, scope);
    SameLive(cfg, touched.levels, before.levels, scope, req.now);
    SameLive(cfg, after.levels, swept.levels, scope, req.now);
  }

  /** A request is one step of its scope's specification machine, verdict included. */
  lemma OwnScopeStep(cfg: Config, before: State, req: Request, after: State, out: Outcome)
    requires cfg.Lossless() && Invariant(cfg, before, req.now)
    requires ConsumeStep(cfg, before, req, after, out)
    ensures ScopeStep(cfg, Live(cfg, before.levels, req.key.scope, req.now), req,
                      Live(cfg, after.levels, req.key.scope, req.now), out)
  {
    var scope, now := req.key.scope, req.now;
    var level := Touched(before.levels, req);
    var swept :| ChargeAround(cfg, before, req.key, level, now, swept, after);
    TouchedThroughLive(cfg, before.levels, req);
    SweepTrimsOwnScope(cfg, before.(levels := before.levels[req.key := level]), swept, now, req.key);
    LiveUpdate(cfg, before.levels, req.key, level, now);
    LiveUpdate(cfg, swept.levels, req.key, Charged(level), now);
    assert TrimAround(cfg, Live(cfg, before.levels, scope, now), req.key, level,
                      Live(cfg, swept.levels, scope, now), Live(cfg, after.levels, scope, now));
  }

  // ---------------------------------------------------------------------------
  // Cross-scope isolation
  // ---------------------------------------------------------------------------

  // No two buckets were touched at the same reading, and all before `now`.
  ghost predicate DistinctTimes(levels: Levels, now: real) {
    && (forall k :: k in levels ==> levels[k].updated < now)
    && ApartInTime(levels)
  }

  ghost predicate ApartInTime(levels: Levels) {
    forall a, b :: a in levels && b in levels && a != b ==> levels[a].updated != levels[b].updated
  }

  lemma MutuallyDropped(before: Levels, a: Levels, b: Levels, keep: Key, x: Key, y: Key)
    requires OldestDropped(before, a, keep) && OldestDropped(before, b, keep) && keep in before
    requires x.scope == y.scope && x in a && x !in b && y in b && y !in a
    ensures before[x].updated == before[y].updated
  {
  }

  lemma TrimIsDeterministic(cfg: Config, before: Levels, a: Levels, b: Levels, keep: Key)
    requires Trimmed(cfg, before, a, keep) && Trimmed(cfg, before, b, keep)
    requires keep in before && forall k :: k in before ==> k.scope == keep.scope
    requires ApartInTime(before)
    ensures a == b
  {
    var onlyA, onlyB := a.Keys - b.Keys, b.Keys - a.Keys;
    assert onlyA == {} || onlyB == {} by {
      forall x, y | x in onlyA && y in onlyB ensures x == y
      {
        MutuallyDropped(before, a, b, keep, x, y);
      }
    }
    if onlyA == {} {
      assert forall k :: k in a.Keys ==> k !in onlyA;
      SubsetSize(a.Keys, b.Keys);
    } else {
      assert forall k :: k in b.Keys ==> k !in onlyB;
      SubsetSize(b.Keys, a.Keys);
    }
  }

  lemma ScopeStepIsDeterministic(cfg: Config, live: Levels, req: Request, a: Levels, b: Levels,
                                 outA: Outcome, outB: Outcome)
    requires ScopeStep(cfg, live, req, a, outA) && ScopeStep(cfg, live, req, b, outB)
    requires DistinctTimes(live, req.now) && forall k :: k in live ==> k.scope == req.key.scope
    ensures a == b && outA == outB
  {
    var level := Touched(live, req);
    var trimmedA :| TrimAround(cfg, live, req.key, level, trimmedA, a);
    var trimmedB :| TrimAround(cfg, live, req.key, level, trimmedB, b);
    TouchedTimes(live, req, level);
    TrimAroundIsDeterministic(cfg, live, req.key, level, trimmedA, a, trimmedB, b);
  }

  lemma TrimAroundIsDeterministic(cfg: Config, live: Levels, key: Key, level: Level,
                                  trimmedA: Levels, a: Levels, trimmedB: Levels, b: Levels)
    requires TrimAround(cfg, live, key, level, trimmedA, a) && TrimAround(cfg, live, key, level, trimmedB, b)
    requires forall k :: k in live ==> k.scope == key.scope
    requires ApartInTime(live[key := level])
    ensures a == b
  {
    TrimIsDeterministic(cfg, live[key := level], trimmedA, trimmedB, key);
  }

  lemma TouchedTimes(live: Levels, req: Request, level: Level)
    requires DistinctTimes(live, req.now) && level.updated == req.now
    ensures ApartInTime(live[req.key := level])
  {
  }

  /** A strictly increasing clock never leaves two buckets touched at one reading. */
  lemma {:induction false} RunHasDistinctTimes(cfg: Config, run: Run, now: real)
    requires cfg.Valid() && run.Valid(cfg) && run.Before(now)
    ensures DistinctTimes(run.Last().levels, now)
  {
    if run.Start? {
    } else {
      RunHasDistinctTimes(cfg, run.prev, run.req.now);
      var before := run.prev.Last();
      var level := Touched(before.levels, run.req);
      var swept :| ChargeAround(cfg, before, run.req.key, level, run.req.now, swept, run.after);
      DistinctAfterCharge(cfg, before, run.req.key, level, run.req.now, swept, run.after, now);
    }
  }

  lemma DistinctAfterCharge(cfg: Config, before: State, key: Key, level: Level, at: real, swept: State,
                            after: State, now: real)
    requires ChargeAround(cfg, before, key, level, at, swept, after) && level.updated == at < now
    requires DistinctTimes(before.levels, at)
    ensures DistinctTimes(after.levels, now)
  {
    assert forall k :: k in after.levels && k != key ==> k in before.levels && after.levels[k] == before.levels[k];
  }

  lemma LaterLive(cfg: Config, a: Levels, b: Levels, scope: string, earlier: real, later: real)
    requires Live(cfg, a, scope, earlier) == Live(cfg, b, scope, earlier) && earlier <= later
    ensures Live(cfg, a, scope, later) == Live(cfg, b, scope, later)
  {
    var liveA, liveB := Live(cfg, a, scope, earlier), Live(cfg, b, scope, earlier);
    assert forall k :: k in liveA <==> k in liveB;
    assert forall k :: k in liveA ==> a[k] == liveA[k] == liveB[k] == b[k];
    assert Live(cfg, a, scope, later) == map k | k in liveA && later - liveA[k].updated < cfg.idle :: liveA[k];
    assert Live(cfg, b, scope, later) == map k | k in liveB && later - liveB[k].updated < cfg.idle :: liveB[k];
  }

  lemma BeforeUntil(run: Run, now: real)
    requires run.Before(now)
    ensures run.Until(now)
  {
  }

  /** The results of scope `scope`, retry hints included, are those of a process that
      received only this scope's requests, whatever the other scopes did. */
  lemma {:induction false} ScopesAreIsolated(cfg: Config, run: Run, alone: Run, scope: string, now: real)
    requires cfg.Lossless() && run.Valid(cfg) && alone.Valid(cfg)
    requires run.Before(now) && alone.OnlyScope(scope)
    requires alone.Requests(scope) == run.Requests(scope)
    ensures alone.Results(scope) == run.Results(scope)
    ensures alone.Before(now)
    ensures Live(cfg, run.Last().levels, scope, now) == Live(cfg, alone.Last().levels, scope, now)
  {
    if run.Next? {
      var req := run.req;
      if req.key.scope != scope {
        ScopesAreIsolated(cfg, run.prev, alone, scope, req.now);
        BeforeUntil(run.prev, req.now);
        ReachableInvariant(cfg, run.prev, req.now);
        OtherScopeStep(cfg, run.prev.Last(), req, run.after, run.out, scope);
        WiderBefore(alone, req.now, now);
      } else {
        assert alone.Next?;
        assert alone.Requests(scope) == alone.prev.Requests(scope) + [alone.req];
        assert run.Requests(scope)[|run.Requests(scope)| - 1] == req;
        assert run.prev.Requests(scope) == run.Requests(scope)[..|run.Requests(scope)| - 1];
        ScopesAreIsolated(cfg, run.prev, alone.prev, scope, req.now);
        IsolatedStep(cfg, run, alone, scope);
      }
      LaterLive(cfg, run.after.levels, alone.Last().levels, scope, req.now, now);
    } else {
      assert alone.Start?;
    }
  }

  lemma WiderBefore(run: Run, now: real, later: real)
    requires run.Before(now) && now <= later
    ensures run.Before(later)
  {
  }

  lemma IsolatedStep(cfg: Config, run: Run, alone: Run, scope: string)
    requires cfg.Lossless() && run.Valid(cfg) && alone.Valid(cfg) && run.Next? && alone.Next?
    requires run.req == alone.req && run.req.key.scope == scope
    requires run.prev.Before(run.req.now) && alone.prev.Before(run.req.now)
    requires Live(cfg, run.prev.Last().levels, scope, run.req.now)
             == Live(cfg, alone.prev.Last().levels, scope, run.req.now)
    ensures run.out == alone.out
    ensures Live(cfg, run.after.levels, scope, run.req.now) == Live(cfg, alone.after.levels, scope, run.req.now)
  {
    var req := run.req;
    BeforeUntil(run.prev, req.now);
    BeforeUntil(alone.prev, req.now);
    ReachableInvariant(cfg, run.prev, req.now);
    ReachableInvariant(cfg, alone.prev, req.now);
    OwnScopeStep(cfg, run.prev.Last(), req, run.after, run.out);
    OwnScopeStep(cfg, alone.prev.Last(), req, alone.after, alone.out);
    RunHasDistinctTimes(cfg, run.prev, req.now);
    ScopeStepIsDeterministic(cfg, Live(cfg, run.prev.Last().levels, scope, req.now), req,
                             Live(cfg, run.after.levels, scope, req.now),
                             Live(cfg, alone.after.levels, scope, req.now), run.out, alone.out);
  }

  // ---------------------------------------------------------------------------
  // The sweep against a limiter that never deletes
  // ---------------------------------------------------------------------------

  /** The plain token-bucket map after the same requests. */
  function Plain(run: Run): Levels {
    if run.Start? then map[]
    else
      var levels := Plain(run.prev);
      levels[run.req.key := Charged(Touched(levels, run.req))]
  }

  function Outcomes(run: Run): seq<Outcome> {
    if run.Start? then [] else Outcomes(run.prev) + [run.out]
  }

  function PlainOutcomes(run: Run): seq<Outcome> {
    if run.Start? then []
    else PlainOutcomes(run.prev) + [Verdict(Touched(Plain(run.prev), run.req), Limit(run.req.perMinute))]
  }

  /** The keys of a scope that some request touched less than `idle` seconds before `now`. */
  function Recent(cfg: Config, run: Run, scope: string, now: real): set<Key> {
    if run.Start? then {}
    else
      Recent(cfg, run.prev, scope, now)
      + if run.req.key.scope == scope && now - run.req.now < cfg.idle then {run.req.key} else {}
  }

  /** No call ever finds more than `maxBuckets` recently touched keys in its scope. */
  ghost predicate Uncrowded(cfg: Config, run: Run) {
    run.Next? ==>
      && Uncrowded(cfg, run.prev)
      && |Recent(cfg, run, run.req.key.scope, run.req.now)| <= cfg.maxBuckets
  }

  lemma {:induction false} LiveIsRecent(cfg: Config, run: Run, scope: string, now: real)
    requires run.Valid(cfg)
    ensures Live(cfg, run.Last().levels, scope, now).Keys <= Recent(cfg, run, scope, now)
  {
    if run.Start? {
    } else {
      LiveIsRecent(cfg, run.prev, scope, now);
      var before := run.prev.Last();
      var level := Touched(before.levels, run.req);
      var swept :| ChargeAround(cfg, before, run.req.key, level, run.req.now, swept, run.after);
      LiveGrowsByOne(cfg, before, run.req.key, level, run.req.now, swept, run.after, scope, now);
    }
  }

  lemma LiveGrowsByOne(cfg: Config, before: State, key: Key, level: Level, at: real, swept: State,
                       after: State, scope: string, now: real)
    requires ChargeAround(cfg, before, key, level, at, swept, after) && level.updated == at
    ensures Live(cfg, after.levels, scope, now).Keys
            <= Live(cfg, before.levels, scope, now).Keys
               + if key.scope == scope && now - at < cfg.idle then {key} else {}
  {
    assert forall k :: k in after.levels && k != key ==> k in before.levels && after.levels[k] == before.levels[k];
    assert after.levels[key] == Charged(level);
  }

  /** In a scope that is not crowded, a call touches its own bucket and nothing else live. */
  lemma UncrowdedStep(cfg: Config, run: Run)
    requires cfg.Lossless() && run.Valid(cfg) && run.Next? && run.Until(run.req.now)
    requires |Recent(cfg, run, run.req.key.scope, run.req.now)| <= cfg.maxBuckets
    ensures var live := Live(cfg, run.prev.Last().levels, run.req.key.scope, run.req.now);
            && run.out == Verdict(Touched(live, run.req), Limit(run.req.perMinute))
            && Live(cfg, run.after.levels, run.req.key.scope, run.req.now)
               == live[run.req.key := Charged(Touched(live, run.req))]
  {
    var req, scope := run.req, run.req.key.scope;
    var live := Live(cfg, run.prev.Last().levels, scope, req.now);
    ReachableInvariant(cfg, run.prev, req.now);
    OwnScopeStep(cfg, run.prev.Last(), req, run.after, run.out);
    var level := Touched(live, req);
    LiveIsRecent(cfg, run.prev, scope, req.now);
    SubsetSize(live[req.key := level].Keys, Recent(cfg, run, scope, req.now));
    SmallScopeIsNotTrimmed(cfg, live, req.key, level, Live(cfg, run.after.levels, scope, req.now));
  }

  lemma SmallScopeIsNotTrimmed(cfg: Config, live: Levels, key: Key, level: Level, live': Levels)
    requires |live[key := level].Keys| <= cfg.maxBuckets
    requires exists trimmed :: TrimAround(cfg, live, key, level, trimmed, live')
    ensures live' == live[key := Charged(level)]
  {
    var trimmed :| TrimAround(cfg, live, key, level, trimmed, live');
    SubsetSize(trimmed.Keys, live[key := level].Keys);
    assert trimmed == live[key := level];
  }

  /** The swept limiter answers exactly as one that never deletes a bucket, even if
      the limit changes between requests. */
  lemma {:induction false} SweepIsLossless(cfg: Config, run: Run, scope: string, now: real)
    requires cfg.Lossless() && run.Valid(cfg) && run.Until(now) && Uncrowded(cfg, run)
    ensures Outcomes(run) == PlainOutcomes(run)
    ensures Live(cfg, run.Last().levels, scope, now) == Live(cfg, Plain(run), scope, now)
    decreases run, 0
  {
    if run.Next? {
      var req := run.req;
      SweepIsLossless(cfg, run.prev, scope, req.now);
      SweepIsLossless(cfg, run.prev, req.key.scope, req.now);
      UncrowdedStep(cfg, run);
      PlainInvariant(run.prev, req.now);
      TouchedThroughLive(cfg, Plain(run.prev), req);
      if scope == req.key.scope {
        LiveUpdate(cfg, Plain(run.prev), req.key, Charged(Touched(Plain(run.prev), req)), req.now);
      } else {
        ReachableInvariant(cfg, run.prev, req.now);
        OtherScopeStep(cfg, run.prev.Last(), req, run.after, run.out, scope);
        SameLive(cfg, Plain(run.prev), Plain(run), scope, req.now);
      }
      LaterLive(cfg, run.after.levels, Plain(run), scope, req.now, now);
    }
  }

  lemma {:induction false} PlainInvariant(run: Run, now: real)
    requires run.Until(now)
    ensures forall k :: k in Plain(run) ==> Plain(run)[k].tokens >= 0.0 && Plain(run)[k].updated <= now
  {
    if run.Start? {
    } else {
      PlainInvariant(run.prev, run.req.now);
      RefillIsBounded(Plain(run.prev), run.req);
    }
  }

  /** A shorter idle time is not lossless: a spent bucket comes back full too early. */
  lemma ShortIdleIsLossy(cfg: Config) returns (run: Run, now: real)
    requires cfg.Valid() && cfg.idle < 60.0
    ensures run.Valid(cfg) && run.Until(now) && Uncrowded(cfg, run)
    ensures Outcomes(run) != PlainOutcomes(run)
  {
    var one, two := SpentThenSwept(cfg);
    now := two.req.now;
    run := QuietCall(cfg, two, Request(one.req.key, 1, now));
    assert one.Until(now) && two.Until(now);
    LossyRunIsUncrowded(cfg, one, two, run);
    LossyRunDiffers(one, two, run);
  }

  // Just idle long enough, a spent bucket is swept by a call of another scope.
  lemma SpentThenSwept(cfg: Config) returns (one: Run, two: Run)
    requires cfg.Valid()
    ensures one.Next? && one.prev == Start && two.Next? && two.prev == one && two.Valid(cfg)
    ensures one.req.key.scope != two.req.key.scope && one.req.perMinute == 1
    ensures two.req.now == one.req.now + cfg.idle && two.after.levels.Keys == {two.req.key}
  {
    var spent, other := Key("login", "a"), Key("qr", "b");
    assert |"login"| != |"qr"|;
    var start := if cfg.sweepEvery <= cfg.idle then 0.0 else cfg.sweepEvery - cfg.idle;
    one := QuietCall(cfg, Start, Request(spent, 1, start));
    two := QuietCall(cfg, one, Request(other, 1, start + cfg.idle));
  }

  // A call that finds no bucket of its own, and no other one in its scope, is admitted.
  lemma QuietCall(cfg: Config, run: Run, req: Request) returns (next: Run)
    requires cfg.Valid() && run.Valid(cfg) && req.perMinute >= 1 && req.key !in run.Last().levels
    requires forall a, b :: a in run.Last().levels && b in run.Last().levels && a.scope == b.scope ==> a == b
    requires forall k :: k in run.Last().levels ==> k.scope != req.key.scope
    ensures next.Next? && next.prev == run && next.req == req && next.out == Admitted && next.Valid(cfg)
    ensures next.after.lastSweep ==
            if req.now - run.Last().lastSweep < cfg.sweepEvery then run.Last().lastSweep else req.now
    ensures req.key in next.after.levels && next.after.levels[req.key].updated == req.now
    ensures forall k :: k in next.after.levels ==>
                          k == req.key || (k in run.Last().levels
                                           && (req.now - run.Last().levels[k].updated < cfg.idle
                                               || (req.now - run.Last().lastSweep < cfg.sweepEvery)))
  {
    var before, level := run.Last(), Level(req.perMinute as real, req.now);
    var touched := before.levels[req.key := level];
    FewKeysAreUnderCap(cfg, touched);
    var throttled := req.now - before.lastSweep < cfg.sweepEvery;
    var kept := if throttled then touched else WithoutIdle(cfg, touched, req.now, req.key);
    FewKeysAreUnderCap(cfg, kept);
    var swept := State(kept, if throttled then before.lastSweep else req.now);
    next := Next(run, req, Admitted, swept.(levels := kept[req.key := Charged(level)]));
    assert ChargeAround(cfg, before, req.key, level, req.now, swept, next.after);
  }

  // A call of a scope that no recent call touched is not crowded.
  lemma UncrowdedAlone(cfg: Config, run: Run)
    requires cfg.Valid() && run.Next? && Recent(cfg, run.prev, run.req.key.scope, run.req.now) == {}
    ensures |Recent(cfg, run, run.req.key.scope, run.req.now)| <= cfg.maxBuckets
  {
    SubsetSize(Recent(cfg, run, run.req.key.scope, run.req.now), {run.req.key});
  }

  lemma LossyRunIsUncrowded(cfg: Config, one: Run, two: Run, run: Run)
    requires cfg.Valid() && one.Next? && one.prev.Start? && two.Next? && two.prev == one && run.Next? && run.prev == two
    requires one.req.key == run.req.key && one.req.key.scope != two.req.key.scope
    requires two.req.now == run.req.now == one.req.now + cfg.idle
    ensures Uncrowded(cfg, run)
  {
    UncrowdedAlone(cfg, one);
    UncrowdedAlone(cfg, two);
    assert Recent(cfg, one, run.req.key.scope, run.req.now) == {};
    assert Recent(cfg, two, run.req.key.scope, run.req.now) == {};
    UncrowdedAlone(cfg, run);
    assert Uncrowded(cfg, one);
  }

  lemma LossyRunDiffers(one: Run, two: Run, run: Run)
    requires one.Next? && one.prev.Start? && two.Next? && two.prev == one && run.Next? && run.prev == two
    requires one.req.key == run.req.key != two.req.key
    requires one.req.perMinute == run.req.perMinute == 1 && run.req.now - one.req.now < 60.0
    requires run.out == Admitted
    ensures Outcomes(run) != PlainOutcomes(run)
  {
    assert Plain(one)[one.req.key] == Level(0.0, one.req.now) && Plain(two)[one.req.key] == Plain(one)[one.req.key];
    assert Touched(Plain(two), run.req).tokens < 1.0;
    assert PlainOutcomes(run)[|PlainOutcomes(run)| - 1] != Admitted;
    assert Outcomes(run)[|Outcomes(run)| - 1] == Admitted;
  }

  lemma FewKeysAreUnderCap(cfg: Config, levels: Levels)
    requires cfg.Valid()
    requires forall a, b :: a in levels && b in levels && a.scope == b.scope ==> a == b
    ensures !OverCap(cfg, levels)
  {
    forall s ensures |InScope(levels.Keys, s)| <= 1
    {
      var keys := InScope(levels.Keys, s);
      if k :| k in keys {
        assert keys == {k};
      }
    }
  }

  // ---------------------------------------------------------------------------
  // The rate itself
  // ---------------------------------------------------------------------------

  /** `run` continues `from`, every later request reading a clock in [start, now]. */
  ghost predicate Window(from: Run, run: Run, start: real, now: real) {
    if run == from then start <= now
    else run.Next? && Window(from, run.prev, start, run.req.now) && start <= run.req.now <= now
  }

  function AdmittedSince(from: Run, run: Run, key: Key): nat {
    if run == from || run.Start? then 0
    else AdmittedSince(from, run.prev, key) + if run.req.key == key && run.out == Admitted then 1 else 0
  }

  ghost predicate LimitSince(from: Run, run: Run, key: Key, limit: int) {
    run != from && run.Next? ==>
      && LimitSince(from, run.prev, key, limit)
      && (run.req.key == key ==> (if run.req.perMinute < 1 then 1 else run.req.perMinute) == limit)
  }

  /** The cap pass never takes `key` while it is live. */
  ghost predicate NeverTrimmed(cfg: Config, from: Run, run: Run, key: Key) {
    run != from && run.Next? ==>
      && NeverTrimmed(cfg, from, run.prev, key)
      && (key in Live(cfg, run.prev.Last().levels, key.scope, run.req.now) ==> key in run.after.levels)
  }

  /** Where scopes are not crowded, the cap pass takes nothing live. */
  lemma {:induction false} UncrowdedIsNeverTrimmed(cfg: Config, from: Run, run: Run, key: Key, now: real)
    requires cfg.Lossless() && run.Valid(cfg) && run.Until(now) && Uncrowded(cfg, run)
    ensures NeverTrimmed(cfg, from, run, key)
  {
    if run != from && run.Next? {
      UncrowdedIsNeverTrimmed(cfg, from, run.prev, key, run.req.now);
      var live := Live(cfg, run.prev.Last().levels, key.scope, run.req.now);
      if run.req.key.scope == key.scope {
        UncrowdedStep(cfg, run);
      } else {
        ReachableInvariant(cfg, run.prev, run.req.now);
        OtherScopeStep(cfg, run.prev.Last(), run.req, run.after, run.out, key.scope);
      }
      assert key in live ==> key in Live(cfg, run.after.levels, key.scope, run.req.now);
    }
  }

  /** What `key` could spend at `now` if it asked. */
  function Credit(levels: Levels, key: Key, limit: int, now: real): real {
    if key in levels then Refilled(levels[key], limit, now).tokens else limit as real
  }

  lemma CreditGrows(levels: Levels, key: Key, limit: int, earlier: real, later: real)
    requires limit >= 1 && earlier <= later
    ensures Credit(levels, key, limit, later) <= Credit(levels, key, limit, earlier) + Refill(later - earlier, limit)
  {
    RefillGrows(0.0, later - earlier, limit);
    if key in levels {
      var l, u := limit as real, levels[key].updated;
      assert (later - u) * l == (earlier - u) * l + (later - earlier) * l;
    }
  }

  lemma CreditOfOwn(before: Levels, req: Request, after: Levels)
    requires req.key in before ==> before[req.key].tokens >= 0.0 && before[req.key].updated <= req.now
    requires req.key in after && after[req.key] == Charged(Touched(before, req))
    ensures var limit := Limit(req.perMinute);
            Credit(after, req.key, limit, req.now)
            + (if Verdict(Touched(before, req), limit) == Admitted then 1.0 else 0.0)
            == Credit(before, req.key, limit, req.now)
  {
    RefillIsBounded(before, req);
    RefillGrows(0.0, 0.0, Limit(req.perMinute));
  }

  lemma CreditOfOther(cfg: Config, before: Levels, after: Levels, key: Key, limit: int, now: real)
    requires cfg.Lossless() && limit >= 1
    requires key in before ==> before[key].tokens >= 0.0
    requires key in after ==> key in before && after[key] == before[key]
    requires key in before && now - before[key].updated < cfg.idle ==> key in after
    ensures Credit(after, key, limit, now) == Credit(before, key, limit, now)
  {
    if key in before && now - before[key].updated >= cfg.idle {
      RefillGrows(60.0, now - before[key].updated, limit);
    }
  }

  lemma OthersAreKept(cfg: Config, before: State, req: Request, after: State, out: Outcome, key: Key)
    requires ConsumeStep(cfg, before, req, after, out) && key != req.key
    ensures key in after.levels ==> key in before.levels && after.levels[key] == before.levels[key]
  {
    var level := Touched(before.levels, req);
    var swept :| ChargeAround(cfg, before, req.key, level, req.now, swept, after);
  }

  lemma CreditStep(cfg: Config, run: Run, key: Key, limit: int)
    requires cfg.Lossless() && run.Valid(cfg) && run.Next? && run.Until(run.req.now) && limit >= 1
    requires run.req.key == key ==> Limit(run.req.perMinute) == limit
    requires key in Live(cfg, run.prev.Last().levels, key.scope, run.req.now) ==> key in run.after.levels
    ensures Credit(run.after.levels, key, limit, run.req.now)
            + (if run.req.key == key && run.out == Admitted then 1.0 else 0.0)
            == Credit(run.prev.Last().levels, key, limit, run.req.now)
  {
    var before := run.prev.Last();
    ReachableInvariant(cfg, run.prev, run.req.now);
    if key == run.req.key {
      ReachableInvariant(cfg, run, run.req.now);
      CreditOfOwn(before.levels, run.req, run.after.levels);
    } else {
      OthersAreKept(cfg, before, run.req, run.after, run.out, key);
      CreditOfOther(cfg, before.levels, run.after.levels, key, limit, run.req.now);
    }
  }

  // What was spent since the window began, and what is left, is paid for by refill.
  lemma {:induction false} SpendingIsCovered(cfg: Config, from: Run, run: Run, key: Key, limit: int,
                                             start: real, now: real)
    requires cfg.Lossless() && run.Valid(cfg) && run.Until(now) && Window(from, run, start, now) && limit >= 1
    requires LimitSince(from, run, key, limit) && NeverTrimmed(cfg, from, run, key)
    ensures AdmittedSince(from, run, key) as real + Credit(run.Last().levels, key, limit, now)
            <= limit as real + Refill(now - start, limit)
  {
    ReachableInvariant(cfg, run, now);
    if run == from {
      RefillGrows(0.0, now - start, limit);
      CreditBounds(run.Last().levels, key, limit, now);
    } else {
      var at := run.req.now;
      SpendingIsCovered(cfg, from, run.prev, key, limit, start, at);
      CreditStep(cfg, run, key, limit);
      CreditGrows(run.after.levels, key, limit, at, now);
      RefillAdds(start, at, now, limit);
      AddUp(AdmittedSince(from, run.prev, key), if run.req.key == key && run.out == Admitted then 1 else 0,
            Credit(run.prev.Last().levels, key, limit, at), Credit(run.after.levels, key, limit, at),
            Credit(run.after.levels, key, limit, now), Refill(at - start, limit), Refill(now - at, limit), limit);
    }
  }

  lemma AddUp(spent: nat, one: nat, before: real, after: real, later: real, refill: real, more: real, limit: int)
    requires spent as real + before <= limit as real + refill
    requires after + one as real == before && later <= after + more
    ensures (spent + one) as real + later <= limit as real + (refill + more)
  {
  }

  /** A key never trimmed by the cap gets at most `limit + T * limit / 60` admissions in T seconds. */
  lemma RateBound(cfg: Config, from: Run, run: Run, key: Key, limit: int, start: real, now: real)
    requires cfg.Lossless() && run.Valid(cfg) && run.Until(now) && Window(from, run, start, now) && limit >= 1
    requires LimitSince(from, run, key, limit) && NeverTrimmed(cfg, from, run, key)
    ensures AdmittedSince(from, run, key) as real <= limit as real + (now - start) * limit as real / 60.0
  {
    ReachableInvariant(cfg, run, now);
    SpendingIsCovered(cfg, from, run, key, limit, start, now);
    CreditBounds(run.Last().levels, key, limit, now);
  }

  lemma CreditBounds(levels: Levels, key: Key, limit: int, now: real)
    requires limit >= 1 && (key in levels ==> levels[key].tokens >= 0.0 && levels[key].updated <= now)
    ensures 0.0 <= Credit(levels, key, limit, now) <= limit as real
  {
    if key in levels {
      RefillGrows(0.0, now - levels[key].updated, limit);
    }
  }

  lemma RefillAdds(start: real, middle: real, end: real, limit: int)
    ensures Refill(middle - start, limit) + Refill(end - middle, limit) == Refill(end - start, limit)
  {
    var l := limit as real;
    assert (middle - start) * l + (end - middle) * l == (end - start) * l;
  }

  // ---------------------------------------------------------------------------
  // A burst
  // ---------------------------------------------------------------------------

  /** `run` continues `from` by calls of one key with one setting at one clock reading. */
  ghost predicate Burst(from: Run, run: Run, key: Key, perMinute: int, now: real) {
    run == from || (run.Next? && Burst(from, run.prev, key, perMinute, now) && run.req == Request(key, perMinute, now))
  }

  function Calls(from: Run, run: Run): nat {
    if run == from || run.Start? then 0 else Calls(from, run.prev) + 1
  }

  // `limit` tokens a minute do not make one in so many seconds.
  predicate MakesNoToken(seconds: nat, limit: int) {
    seconds as real * limit as real / 60.0 < 1.0
  }

  lemma BurstStep(cfg: Config, run: Run, limit: int, spent: nat, wait: nat)
    requires cfg.Valid() && run.Valid(cfg) && run.Next?
    requires limit == if run.req.perMinute < 1 then 1 else run.req.perMinute
    requires var levels := run.prev.Last().levels;
             if spent == 0 then run.req.key !in levels
             else run.req.key in levels && levels[run.req.key] ==
                  Level(if spent <= limit then (limit - spent) as real else 0.0, run.req.now)
    ensures run.out.Admitted? <==> spent < limit
    ensures run.out.Refused? ==> (wait < run.out.retryAfter <==> MakesNoToken(wait, limit))
    ensures run.req.key in run.after.levels
            && run.after.levels[run.req.key] ==
               Level(if spent + 1 <= limit then (limit - spent - 1) as real else 0.0, run.req.now)
  {
    var before, level := run.prev.Last(), Touched(run.prev.Last().levels, run.req);
    RefillGrows(0.0, 0.0, limit);
    var swept :| ChargeAround(cfg, before, run.req.key, level, run.req.now, swept, run.after);
    assert level.tokens == if spent <= limit then (limit - spent) as real else 0.0;
    assert limit == Limit(run.req.perMinute) && run.out == Verdict(level, limit);
    if spent >= limit { EmptyBucketHint(level, limit, wait); }
  }

  lemma EmptyBucketHint(level: Level, limit: int, wait: nat)
    requires limit >= 1 && level.tokens == 0.0
    ensures Verdict(level, limit).Refused? && (wait < Verdict(level, limit).retryAfter <==> MakesNoToken(wait, limit))
  {
    HintIsExact(level, limit, wait);
  }

  /** A key without a bucket that calls again and again at one clock reading is admitted on
      exactly its first max(1, setting) calls, and then told to wait the least whole number of
      seconds in which max(1, setting) a minute make one token. */
  lemma {:induction false} BurstIsAdmittedUpToLimit(cfg: Config, from: Run, run: Run, key: Key, perMinute: int,
                                                    now: real, wait: nat)
    requires cfg.Valid() && run.Valid(cfg) && Burst(from, run, key, perMinute, now) && key !in from.Last().levels
    ensures var limit := if perMinute < 1 then 1 else perMinute;
            && (run != from ==>
                  && (run.out.Admitted? <==> Calls(from, run) <= limit)
                  && (run.out.Refused? ==>
                        (wait < run.out.retryAfter <==> MakesNoToken(wait, limit)))
                  && key in run.after.levels
                  && run.after.levels[key] ==
                     Level(if Calls(from, run) <= limit then (limit - Calls(from, run)) as real else 0.0, now))
            && AdmittedSince(from, run, key) == if Calls(from, run) <= limit then Calls(from, run) else limit
  {
    if run == from {
    } else {
      BurstIsAdmittedUpToLimit(cfg, from, run.prev, key, perMinute, now, wait);
      BurstStep(cfg, run, if perMinute < 1 then 1 else perMinute, Calls(from, run.prev), wait);
    }
  }

  // ---------------------------------------------------------------------------
  // The retry hint
  // ---------------------------------------------------------------------------

  lemma CeilingIsLeast(x: real, n: int)
    ensures x <= n as real <==> Ceiling(x) <= n
  {
  }

  lemma EnoughWait(missing: real, wait: real, limit: int)
    requires limit >= 1
    ensures Refill(wait, limit) >= missing <==> wait >= missing * 60.0 / limit as real
  {
    var l := limit as real;
    var needed := missing * 60.0 / l;
    assert needed * l == missing * 60.0;
    if wait >= needed {
      assert (wait - needed) * l >= 0.0;
      assert wait * l >= needed * l;
    } else {
      assert (needed - wait) * l > 0.0;
      assert wait * l < needed * l;
    }
  }

  /** The hint is exact to the second: while the bucket stays, waiting fewer whole
      seconds is refused and waiting that many is admitted. */
  lemma RetryHintIsExact(level: Level, limit: int, wait: int)
    requires limit >= 1 && 0.0 <= level.tokens && Verdict(level, limit).Refused? && wait >= 0
    ensures Verdict(Refilled(level, limit, level.updated + wait as real), limit) == Admitted
            <==> wait >= Verdict(level, limit).retryAfter
  {
    EnoughWait(1.0 - level.tokens, wait as real, limit);
    CeilingIsLeast((1.0 - level.tokens) * 60.0 / limit as real, wait);
  }

  /** What one call answers and leaves. With `tokens` the bucket's tokens plus a sixtieth of the
      limit a second since it was last touched, it is admitted if and only if that is at least
      one; the hint is the least whole number of seconds after which it would be; and the bucket
      keeps the rest, never more than the limit. */
  lemma CallIsExact(cfg: Config, before: State, req: Request, after: State, out: Outcome, wait: nat)
    requires cfg.Valid() && ConsumeStep(cfg, before, req, after, out)
    ensures var limit := if req.perMinute < 1 then 1.0 else req.perMinute as real;
            var tokens := if req.key !in before.levels then limit
                          else before.levels[req.key].tokens
                               + (req.now - before.levels[req.key].updated) * limit / 60.0;
            && (out.Admitted? <==> tokens >= 1.0)
            && (out.Refused? ==> (wait < out.retryAfter <==> tokens + wait as real * limit / 60.0 < 1.0))
            && req.key in after.levels && after.levels[req.key].updated == req.now
            && after.levels[req.key].tokens ==
               if tokens < 1.0 then tokens else if tokens < limit then tokens - 1.0 else limit - 1.0
  {
    var level := Touched(before.levels, req);
    var swept :| ChargeAround(cfg, before, req.key, level, req.now, swept, after);
    assert after.levels[req.key] == Charged(level);
    HintIsExact(level, Limit(req.perMinute), wait);
  }

  lemma HintIsExact(level: Level, limit: int, wait: nat)
    requires limit >= 1
    ensures var tokens := level.tokens + wait as real * limit as real / 60.0;
            Verdict(level, limit).Refused? ==> (wait < Verdict(level, limit).retryAfter <==> tokens < 1.0)
  {
    EnoughWait(1.0 - level.tokens, wait as real, limit);
    CeilingIsLeast((1.0 - level.tokens) * 60.0 / limit as real, wait);
  }

  /** `run` continues `from` without a request for `key`. */
  ghost predicate Quiet(from: Run, run: Run, key: Key) {
    run == from || (run.Next? && Quiet(from, run.prev, key) && run.req.key != key)
  }

  /** A caller told to wait r seconds who makes no call for r seconds is then
      admitted, whatever happened in between, unless the limit was lowered. */
  lemma RefusedCallerIsLaterAdmitted(cfg: Config, from: Run, run: Run)
    requires cfg.Valid() && run.Valid(cfg) && run.Next? && run.Until(run.req.now)
    requires from.Valid(cfg) && from.Next? && from.out.Refused? && from.Until(from.req.now)
    requires Quiet(from, run.prev, from.req.key) && run.req.key == from.req.key
    requires run.req.now >= from.req.now + from.out.retryAfter as real
    requires (if run.req.perMinute < 1 then 1 else run.req.perMinute)
             >= if from.req.perMinute < 1 then 1 else from.req.perMinute
    ensures run.out == Admitted
  {
    ReachableInvariant(cfg, from, from.req.now);
    QuietKeepsBucket(cfg, from, run.prev, from.req.key);
    var level := Touched(from.prev.Last().levels, from.req);
    TouchedNow(from.prev.Last().levels, from.req);
    WaitIsEnough(level, Limit(from.req.perMinute), Limit(run.req.perMinute), run.req.now);
  }

  lemma TouchedNow(levels: Levels, req: Request)
    ensures Touched(levels, req).updated == req.now
  {
  }

  lemma WaitIsEnough(level: Level, limit: int, later: int, now: real)
    requires 1 <= limit <= later && Verdict(level, limit).Refused?
    requires now >= level.updated + Verdict(level, limit).retryAfter as real
    ensures Verdict(Refilled(level, later, now), later) == Admitted
  {
    var wait := now - level.updated;
    EnoughWait(1.0 - level.tokens, wait, limit);
    CeilingIsLeast((1.0 - level.tokens) * 60.0 / limit as real, Verdict(level, limit).retryAfter);
    PositiveWait(1.0 - level.tokens, limit);
    HigherLimitRefillsMore(wait, limit, later);
  }

  lemma PositiveWait(missing: real, limit: int)
    requires missing > 0.0 && limit >= 1
    ensures missing * 60.0 / limit as real > 0.0
  {
  }

  lemma HigherLimitRefillsMore(wait: real, low: int, high: int)
    requires wait >= 0.0 && 1 <= low <= high
    ensures Refill(wait, low) <= Refill(wait, high)
  {
    assert wait * (high - low) as real >= 0.0;
    assert wait * high as real == wait * low as real + wait * (high - low) as real;
  }

  lemma {:induction false} QuietKeepsBucket(cfg: Config, from: Run, run: Run, key: Key)
    requires run.Valid(cfg) && Quiet(from, run, key) && key in from.Last().levels
    ensures key in run.Last().levels ==> run.Last().levels[key] == from.Last().levels[key]
  {
    if run == from {
    } else {
      QuietKeepsBucket(cfg, from, run.prev, key);
      var before := run.prev.Last();
      var level := Touched(before.levels, run.req);
      var swept :| ChargeAround(cfg, before, run.req.key, level, run.req.now, swept, run.after);
      assert key in run.after.levels ==> key in before.levels && run.after.levels[key] == before.levels[key];
    }
  }

  // ---------------------------------------------------------------------------
  // What a sweep leaves
  // ---------------------------------------------------------------------------

  /** A call at least the sweep interval after the last sweep leaves no idle bucket but its
      own, and so does every call that swept; the others leave the time of the last sweep. */
  lemma SweepLeavesNoIdle(cfg: Config, before: State, req: Request, after: State, out: Outcome)
    requires cfg.Valid() && ConsumeStep(cfg, before, req, after, out)
    ensures req.now - before.lastSweep >= cfg.sweepEvery ==> after.lastSweep == req.now
    ensures after.lastSweep != req.now ==> after.lastSweep == before.lastSweep
    ensures after.lastSweep != before.lastSweep || req.now - before.lastSweep >= cfg.sweepEvery ==>
              forall k :: k in after.levels && k != req.key ==> req.now - after.levels[k].updated < cfg.idle
  {
    var level := Touched(before.levels, req);
    var swept :| ChargeAround(cfg, before, req.key, level, req.now, swept, after);
    assert forall k :: k in swept.levels && k != req.key ==> after.levels[k] == swept.levels[k];
  }

  /** A bucket that a call removes is another key's, and had been idle long enough; or its scope
      held more buckets than the cap, is now at the cap, and every other bucket left in it was
      touched no earlier. */
  lemma OnlyIdleOrOldestGo(cfg: Config, before: State, req: Request, after: State, out: Outcome, gone: Key, left: Key)
    requires cfg.Valid() && ConsumeStep(cfg, before, req, after, out)
    requires gone in before.levels && gone !in after.levels
    ensures gone != req.key
    ensures || req.now - before.levels[gone].updated >= cfg.idle
            || (&& |InScope(before.levels.Keys + {req.key}, gone.scope)| > cfg.maxBuckets
                && |InScope(after.levels.Keys, gone.scope)| == cfg.maxBuckets
                && (left in after.levels && left.scope == gone.scope && left != req.key ==>
                      left in before.levels && before.levels[gone].updated <= before.levels[left].updated))
  {
    var level := Touched(before.levels, req);
    var swept :| ChargeAround(cfg, before, req.key, level, req.now, swept, after);
    OnlyIdleOrOldestSwept(cfg, before, req.key, level, req.now, swept, after, gone, left);
  }

  lemma OnlyIdleOrOldestSwept(cfg: Config, before: State, key: Key, level: Level, now: real, swept: State,
                              after: State, gone: Key, left: Key)
    requires ChargeAround(cfg, before, key, level, now, swept, after)
    requires gone in before.levels && gone !in after.levels
    ensures gone != key
    ensures || now - before.levels[gone].updated >= cfg.idle
            || (&& |InScope(before.levels.Keys + {key}, gone.scope)| > cfg.maxBuckets
                && |InScope(after.levels.Keys, gone.scope)| == cfg.maxBuckets
                && (left in after.levels && left.scope == gone.scope && left != key ==>
                      left in before.levels && before.levels[gone].updated <= before.levels[left].updated))
  {
    var touched := before.levels[key := level];
    SweptKeys(cfg, before, key, level, now, swept, after);
    if now - before.levels[gone].updated < cfg.idle {
      LiveGoesByTheCap(cfg, before.(levels := touched), swept, now, key, gone);
      TrimmedIsOldest(cfg, touched, WithoutIdle(cfg, touched, now, key), swept.levels, key, gone, left);
    }
  }

  lemma SweptKeys(cfg: Config, before: State, key: Key, level: Level, now: real, swept: State, after: State)
    requires ChargeAround(cfg, before, key, level, now, swept, after)
    ensures key in after.levels && after.levels.Keys == swept.levels.Keys
    ensures before.levels[key := level].Keys == before.levels.Keys + {key}
  {
  }

  lemma LiveGoesByTheCap(cfg: Config, touched: State, swept: State, now: real, keep: Key, gone: Key)
    requires SweepStep(cfg, touched, swept, now, keep)
    requires gone in touched.levels && gone !in swept.levels && now - touched.levels[gone].updated < cfg.idle
    ensures var kept := WithoutIdle(cfg, touched.levels, now, keep);
            gone in kept && CapPass(cfg, kept, swept.levels, keep)
  {
  }

  lemma TrimmedIsOldest(cfg: Config, touched: Levels, kept: Levels, after: Levels, keep: Key, gone: Key, left: Key)
    requires kept.Keys <= touched.Keys && (forall k :: k in kept ==> kept[k] == touched[k])
    requires CapPass(cfg, kept, after, keep) && gone in kept && gone !in after
    ensures |InScope(touched.Keys, gone.scope)| > cfg.maxBuckets == |InScope(after.Keys, gone.scope)|
    ensures left in after && left.scope == gone.scope && left != keep ==>
              left in touched && touched[gone].updated <= touched[left].updated
  {
    var scope := gone.scope;
    SubsetSize(InScope(kept.Keys, scope), InScope(touched.Keys, scope));
    SubsetSize(InScope(after.Keys, scope), InScope(kept.Keys, scope) - {gone});
  }
}
