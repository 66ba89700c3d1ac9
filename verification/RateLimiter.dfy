/**
 `app/core/ratelimit.py` as it runs: the bucket dict, the redundant per-scope
 counts and the time of the last sweep, changed in place by `Consume`.
 Every method is proved against the relations of `RateLimitSpec`.
 */
module RateLimiter {
  import opened Collections
  import opened RateLimitSpec

  /** `counts` holds one entry per scope that has buckets, and no zeros. */
  ghost predicate CountsMatch(counts: map<string, int>, keys: set<Key>) {
    && (forall s :: s in counts ==> counts[s] == |InScope(keys, s)| && counts[s] > 0)
    && (forall k :: k in keys ==> k.scope in counts)
  }

  lemma InScopeWithout(keys: set<Key>, key: Key, scope: string)
    ensures InScope(keys - {key}, scope)
            == if scope == key.scope then InScope(keys, scope) - {key} else InScope(keys, scope)
  {
  }

  lemma InScopeWith(keys: set<Key>, key: Key, scope: string)
    ensures InScope(keys + {key}, scope)
            == if scope == key.scope then InScope(keys, scope) + {key} else InScope(keys, scope)
  {
  }

  function Incremented(counts: map<string, int>, scope: string): map<string, int> {
    counts[scope := (if scope in counts then counts[scope] else 0) + 1]
  }

  function Decremented(counts: map<string, int>, scope: string): map<string, int>
    requires scope in counts
  {
    if counts[scope] == 1 then counts - {scope} else counts[scope := counts[scope] - 1]
  }

  lemma CountsAfterRemoval(counts: map<string, int>, keys: set<Key>, key: Key)
    requires CountsMatch(counts, keys) && key in keys
    ensures CountsMatch(Decremented(counts, key.scope), keys - {key})
  {
    var fewer := Decremented(counts, key.scope);
    assert key in InScope(keys, key.scope);
    forall s | s in fewer ensures fewer[s] == |InScope(keys - {key}, s)| && fewer[s] > 0
    {
      InScopeWithout(keys, key, s);
    }
    forall k | k in keys - {key} ensures k.scope in fewer
    {
      InScopeWithout(keys, key, k.scope);
      assert k in InScope(keys - {key}, k.scope);
      assert k.scope == key.scope ==> |InScope(keys - {key}, k.scope)| == counts[key.scope] - 1;
    }
  }

  lemma CountsAfterAddition(counts: map<string, int>, keys: set<Key>, key: Key)
    requires CountsMatch(counts, keys) && key !in keys
    ensures CountsMatch(Incremented(counts, key.scope), keys + {key})
  {
    var more := Incremented(counts, key.scope);
    if key.scope !in counts {
      assert InScope(keys, key.scope) == {};
    }
    forall s | s in more ensures more[s] == |InScope(keys + {key}, s)| && more[s] > 0
    {
      InScopeWith(keys, key, s);
    }
  }

  lemma CountsShowOverCap(cfg: Config, counts: map<string, int>, levels: Levels)
    requires CountsMatch(counts, levels.Keys)
    ensures OverCap(cfg, levels) <==> exists s :: s in counts && counts[s] > cfg.maxBuckets
  {
    if OverCap(cfg, levels) {
      var s :| |InScope(levels.Keys, s)| > cfg.maxBuckets;
      assert InScope(levels.Keys, s) != {};
      var k :| k in InScope(levels.Keys, s);
      assert s in counts;
    }
  }

  // ---------------------------------------------------------------------------
  // `sorted(keys, key=updated)`
  // ---------------------------------------------------------------------------

  ghost predicate SortedBy(age: map<Key, real>, keys: seq<Key>) {
    && (forall k :: k in keys ==> k in age)
    && (forall i, j :: 0 <= i < j < |keys| ==> age[keys[i]] <= age[keys[j]])
  }

  function Elements<T>(s: seq<T>): set<T> {
    set x | x in s
  }

  ghost predicate NoRepeats<T>(s: seq<T>) {
    forall i, j :: 0 <= i < j < |s| ==> s[i] != s[j]
  }

  function Insert(age: map<Key, real>, key: Key, sorted: seq<Key>): (r: seq<Key>)
    requires key in age && forall k :: k in sorted ==> k in age
    ensures |r| == |sorted| + 1
    ensures forall k :: k in r <==> k == key || k in sorted
  {
    if sorted == [] || age[key] <= age[sorted[0]] then [key] + sorted
    else [sorted[0]] + Insert(age, key, sorted[1..])
  }

  lemma {:induction false} InsertKeepsOrder(age: map<Key, real>, key: Key, sorted: seq<Key>)
    requires key in age && SortedBy(age, sorted)
    ensures SortedBy(age, Insert(age, key, sorted))
  {
    if sorted != [] && age[key] > age[sorted[0]] {
      InsertKeepsOrder(age, key, sorted[1..]);
      var rest := Insert(age, key, sorted[1..]);
      assert forall k :: k in rest ==> age[sorted[0]] <= age[k];
    }
  }

  lemma {:induction false} InsertAddsOnce(age: map<Key, real>, key: Key, sorted: seq<Key>)
    requires key in age && (forall k :: k in sorted ==> k in age) && NoRepeats(sorted) && key !in sorted
    ensures NoRepeats(Insert(age, key, sorted))
  {
    if sorted != [] && age[key] > age[sorted[0]] {
      InsertAddsOnce(age, key, sorted[1..]);
      assert sorted[0] !in Insert(age, key, sorted[1..]);
    }
  }

  method SortByAge(keys: set<Key>, age: map<Key, real>) returns (sorted: seq<Key>)
    requires keys <= age.Keys
    ensures |sorted| == |keys| && NoRepeats(sorted)
    ensures forall k :: k in sorted <==> k in keys
    ensures SortedBy(age, sorted)
  {
    sorted := [];
    var rest := keys;
    while rest != {}
      invariant rest <= keys && |sorted| + |rest| == |keys| && NoRepeats(sorted)
      invariant forall k :: k in sorted <==> k in keys - rest
      invariant SortedBy(age, sorted)
      decreases rest
    {
      var key :| key in rest;
      InsertKeepsOrder(age, key, sorted);
      InsertAddsOnce(age, key, sorted);
      sorted := Insert(age, key, sorted);
      rest := rest - {key};
    }
  }

  lemma {:induction false} ElementCount<T>(s: seq<T>)
    requires NoRepeats(s)
    ensures |Elements(s)| == |s|
  {
    if s == [] {
    } else {
      var init, last := s[..|s| - 1], s[|s| - 1];
      ElementCount(init);
      assert s == init + [last];
      assert last !in init;
      assert Elements(s) == Elements(init) + {last};
    }
  }

  function CappedSize(cfg: Config, keys: set<Key>, scope: string): nat {
    var size := |InScope(keys, scope)|;
    if size <= cfg.maxBuckets then size else cfg.maxBuckets
  }

  ghost predicate ScopeTrimmed(cfg: Config, before: Levels, after: Levels, scope: string, keep: Key) {
    && OldestDropped(before, after, keep)
    && (forall k :: k in before && k.scope != scope ==> k in after)
    && |InScope(after.Keys, scope)| == CappedSize(cfg, before.Keys, scope)
  }

  lemma DroppedPrefixIsOldest(before: Levels, keep: Key, scope: string, age: map<Key, real>, stale: seq<Key>, n: nat)
    requires SortedBy(age, stale) && n <= |stale|
    requires forall k :: k in stale <==> k in before && k.scope == scope && k != keep
    requires forall k :: k in before ==> k in age && age[k] == before[k].updated
    ensures OldestDropped(before, before - Elements(stale[..n]), keep)
    ensures forall k :: k in before && k.scope != scope ==> k in before - Elements(stale[..n])
  {
    var after := before - Elements(stale[..n]);
    forall d, k | d in before && d !in after && k in after && k != keep && d.scope == k.scope
      ensures before[d].updated <= before[k].updated
    {
      PrefixIsOlder(age, stale, n, d, k);
    }
  }

  /** Dropping a prefix of the age-sorted keys drops the oldest ones, down to the cap. */
  lemma DroppedPrefixTrims(cfg: Config, before: Levels, keep: Key, scope: string,
                           age: map<Key, real>, stale: seq<Key>, n: nat)
    requires SortedBy(age, stale) && NoRepeats(stale) && n <= |stale|
    requires n == |InScope(before.Keys, scope)| - cfg.maxBuckets
    requires forall k :: k in stale <==> k in InScope(before.Keys, scope) - {keep}
    requires forall k :: k in before ==> k in age && age[k] == before[k].updated
    ensures ScopeTrimmed(cfg, before, before - Elements(stale[..n]), scope, keep)
  {
    assert forall k :: k in before && k.scope == scope && k != keep ==> k in InScope(before.Keys, scope) - {keep};
    DroppedPrefixIsOldest(before, keep, scope, age, stale, n);
    DroppedPrefixSize(InScope(before.Keys, scope), stale, n);
    assert InScope((before - Elements(stale[..n])).Keys, scope)
        == InScope(before.Keys, scope) - Elements(stale[..n]);
  }

  lemma PrefixIsOlder(age: map<Key, real>, sorted: seq<Key>, n: nat, older: Key, younger: Key)
    requires n <= |sorted| && SortedBy(age, sorted)
    requires older in sorted[..n] && younger in sorted && younger !in sorted[..n]
    ensures age[older] <= age[younger]
  {
    var i :| 0 <= i < n && sorted[i] == older;
    var j :| 0 <= j < |sorted| && sorted[j] == younger;
    assert j >= n;
  }

  lemma DroppedPrefixSize(keys: set<Key>, stale: seq<Key>, n: nat)
    requires n <= |stale| && NoRepeats(stale) && forall k :: k in stale ==> k in keys
    ensures |keys - Elements(stale[..n])| == |keys| - n
  {
    ElementCount(stale[..n]);
    var dropped := Elements(stale[..n]);
    assert dropped <= keys && keys == (keys - dropped) + dropped;
  }

  /** The cap pass so far: the scopes of `done` are trimmed, the others untouched. */
  ghost predicate PartlyTrimmed(cfg: Config, kept: Levels, now: Levels, done: set<string>, keep: Key) {
    && OldestDropped(kept, now, keep)
    && (forall k :: k in kept && k.scope !in done ==> k in now)
    && (forall s :: s in done ==> |InScope(now.Keys, s)| == CappedSize(cfg, kept.Keys, s))
  }

  lemma NothingTrimmedYet(cfg: Config, kept: Levels, keep: Key)
    ensures PartlyTrimmed(cfg, kept, kept, {}, keep)
  {
  }

  lemma TrimOneMore(cfg: Config, kept: Levels, before: Levels, after: Levels, done: set<string>,
                    scope: string, keep: Key)
    requires PartlyTrimmed(cfg, kept, before, done, keep) && scope !in done
    requires ScopeTrimmed(cfg, before, after, scope, keep)
    ensures PartlyTrimmed(cfg, kept, after, done + {scope}, keep)
  {
    assert InScope(before.Keys, scope) == InScope(kept.Keys, scope);
    forall s | s in done ensures InScope(after.Keys, s) == InScope(before.Keys, s) {}
    forall d, k | d in kept && d !in after && k in after && k != keep && d.scope == k.scope
      ensures kept[d].updated <= kept[k].updated
    {
      if d in before {
        assert before[d].updated <= before[k].updated;
      }
    }
  }

  function ScopesOf(keys: set<Key>): (scopes: set<string>)
    ensures forall k :: k in keys ==> k.scope in scopes
  {
    set k | k in keys :: k.scope
  }

  lemma AllScopesTrimmed(cfg: Config, kept: Levels, after: Levels, keep: Key)
    requires PartlyTrimmed(cfg, kept, after, ScopesOf(kept.Keys), keep)
    ensures CapPass(cfg, kept, after, keep)
  {
    forall s | s !in ScopesOf(kept.Keys) ensures InScope(kept.Keys, s) == {} == InScope(after.Keys, s) {}
  }

  lemma MinusOneMore<T>(m: map<Key, T>, victims: set<Key>, rest: set<Key>, key: Key)
    requires key in rest && rest <= victims
    ensures m - (victims - rest) - {key} == m - (victims - (rest - {key}))
  {
  }

  class Limiter {
    const cfg: Config
    var buckets: Levels
    var scopeCounts: map<string, int>
    var lastSweep: real

    ghost predicate Valid()
      reads this
    {
      cfg.Valid() && CountsMatch(scopeCounts, buckets.Keys)
    }

    ghost function View(): State
      reads this
    {
      State(buckets, lastSweep)
    }

    constructor (cfg: Config)
      requires cfg.Valid()
      ensures Valid() && this.cfg == cfg && View() == EMPTY
    {
      this.cfg := cfg;
      buckets := map[];
      scopeCounts := map[];
      lastSweep := 0.0;
    }

    /** The only place a bucket is removed. */
    method Drop(key: Key)
      requires Valid() && key in buckets
      modifies this
      ensures Valid() && lastSweep == old(lastSweep)
      ensures buckets == old(buckets) - {key}
    {
      CountsAfterRemoval(scopeCounts, buckets.Keys, key);
      assert (buckets - {key}).Keys == buckets.Keys - {key};
      buckets := buckets - {key};
      var remaining := scopeCounts[key.scope] - 1;
      if remaining != 0 {
        scopeCounts := scopeCounts[key.scope := remaining];
      } else {
        scopeCounts := scopeCounts - {key.scope};
      }
    }

    method SomeScopeOverCap() returns (over: bool)
      requires Valid()
      ensures over <==> OverCap(cfg, buckets)
    {
      CountsShowOverCap(cfg, scopeCounts, buckets);
      over := exists s :: s in scopeCounts && scopeCounts[s] > cfg.maxBuckets;
    }

    method DropAll(victims: set<Key>)
      requires Valid() && victims <= buckets.Keys
      modifies this
      ensures Valid() && lastSweep == old(lastSweep)
      ensures buckets == old(buckets) - victims
    {
      var rest := victims;
      while rest != {}
        invariant Valid() && lastSweep == old(lastSweep)
        invariant rest <= victims && buckets == old(buckets) - (victims - rest)
        decreases rest
      {
        var key :| key in rest;
        MinusOneMore(old(buckets), victims, rest, key);
        Drop(key);
        rest := rest - {key};
      }
    }

    /** The TTL pass. */
    method DropIdle(now: real, keep: Key)
      requires Valid()
      modifies this
      ensures Valid() && lastSweep == old(lastSweep)
      ensures buckets == WithoutIdle(cfg, old(buckets), now, keep)
    {
      var idle := set k | k in buckets && k != keep && now - buckets[k].updated >= cfg.idle;
      MinusIdle(cfg, buckets, now, keep, idle);
      DropAll(idle);
    }

    /** The cap pass inside one scope: its least recently touched keys go, never `keep`. */
    method TrimScope(scope: string, keep: Key)
      requires Valid()
      modifies this
      ensures Valid() && lastSweep == old(lastSweep)
      ensures ScopeTrimmed(cfg, old(buckets), buckets, scope, keep)
    {
      var keys := set k | k in buckets && k.scope == scope;
      assert keys == InScope(buckets.Keys, scope);
      if |keys| > cfg.maxBuckets {
        var age := map k | k in buckets :: buckets[k].updated;
        var stale := SortByAge(keys - {keep}, age);
        var excess := |keys| - cfg.maxBuckets;
        DroppedPrefixTrims(cfg, buckets, keep, scope, age, stale, excess);
        DropAll(Elements(stale[..excess]));
      }
    }

    /** Drop refilled buckets, then trim each scope, at most once per `sweepEvery`
        seconds unless some scope is already over its cap. */
    method Sweep(now: real, keep: Key)
      requires Valid()
      modifies this
      ensures Valid() && SweepStep(cfg, old(View()), View(), now, keep)
      ensures keep in old(buckets) ==> keep in buckets && buckets[keep] == old(buckets)[keep]
    {
      var over := SomeScopeOverCap();
      if now - lastSweep < cfg.sweepEvery && !over {
        return;
      }
      lastSweep := now;
      DropIdle(now, keep);
      over := SomeScopeOverCap();
      if over {
        TrimAll(keep);
      }
    }

    /** The cap pass. */
    method TrimAll(keep: Key)
      requires Valid()
      modifies this
      ensures Valid() && lastSweep == old(lastSweep)
      ensures CapPass(cfg, old(buckets), buckets, keep)
    {
      var scopes := ScopesOf(buckets.Keys);
      var rest := scopes;
      NothingTrimmedYet(cfg, buckets, keep);
      while rest != {}
        invariant Valid() && lastSweep == old(lastSweep) && rest <= scopes
        invariant PartlyTrimmed(cfg, old(buckets), buckets, scopes - rest, keep)
        decreases rest
      {
        var scope :| scope in rest;
        ghost var before := buckets;
        TrimScope(scope, keep);
        TrimOneMore(cfg, old(buckets), before, buckets, scopes - rest, scope, keep);
        OneMoreDone(scopes, rest, scope);
        rest := rest - {scope};
      }
      AllScopesTrimmed(cfg, old(buckets), buckets, keep);
    }

    /** Find or create `key`'s bucket and refill it. */
    method Touch(key: Key, limit: int, now: real)
      requires Valid() && limit >= 1
      modifies this
      ensures Valid() && lastSweep == old(lastSweep)
      ensures buckets == old(buckets)[key := Touched(old(buckets), Request(key, limit, now))]
    {
      if key !in buckets {
        CountsAfterAddition(scopeCounts, buckets.Keys, key);
        assert buckets[key := Level(limit as real, now)].Keys == buckets.Keys + {key};
        buckets := buckets[key := Level(limit as real, now)];
        scopeCounts := Incremented(scopeCounts, key.scope);
      } else {
        assert buckets[key := Refilled(buckets[key], limit, now)].Keys == buckets.Keys;
        buckets := buckets[key := Refilled(buckets[key], limit, now)];
      }
    }

    /** Take one token from `key`'s bucket, or refuse with a retry hint. */
    method Consume(key: Key, perMinute: int, now: real) returns (out: Outcome)
      requires Valid()
      modifies this
      ensures Valid()
      ensures ConsumeStep(cfg, old(View()), Request(key, perMinute, now), View(), out)
    {
      var limit := Limit(perMinute);
      Touch(key, limit, now);
      var bucket := buckets[key];
      Sweep(now, key);
      ghost var swept := View();
      out := Verdict(bucket, limit);
      ChargedKeys(buckets, key);
      if out == Admitted {
        buckets := buckets[key := bucket.(tokens := bucket.tokens - 1.0)];
      }
      StepFromParts(cfg, old(View()), Request(key, perMinute, now), swept, View());
    }
  }

  lemma ChargedKeys(levels: Levels, key: Key)
    requires key in levels
    ensures levels[key := Charged(levels[key])].Keys == levels.Keys
    ensures levels[key].tokens < 1.0 ==> levels == levels[key := Charged(levels[key])]
  {
  }

  lemma StepFromParts(cfg: Config, before: State, req: Request, swept: State, after: State)
    requires SweepStep(cfg, before.(levels := before.levels[req.key := Touched(before.levels, req)]), swept,
                       req.now, req.key)
    requires after == swept.(levels := swept.levels[req.key := Charged(Touched(before.levels, req))])
    ensures ConsumeStep(cfg, before, req, after, Verdict(Touched(before.levels, req), Limit(req.perMinute)))
  {
    assert ChargeAround(cfg, before, req.key, Touched(before.levels, req), req.now, swept, after);
  }

  lemma MinusIdle(cfg: Config, levels: Levels, now: real, keep: Key, idle: set<Key>)
    requires idle == set k | k in levels && k != keep && now - levels[k].updated >= cfg.idle
    ensures levels - idle == WithoutIdle(cfg, levels, now, keep)
  {
  }
}
