// The negative-lookup filter and the breaker in front of the cache manager.
module Protection {
  import opened Wrappers
  import opened CacheLevels
  import opened CacheManager
  import opened Reals
  import opened Sequences

  // Times and durations are in nanoseconds.
  const BLOCK_DURATION: int := 300_000_000_000
  const MAX_BLOCKED_KEYS: nat := 10000
  const BREAKER_DURATION: int := 60_000_000_000
  const MIN_REQUESTS: int := 10
  const FAILURE_THRESHOLD: real := 0.5

  type Blocked = map<Key, int>

  datatype Breaker = Breaker(totalRequests: int, failedRequests: int, lastFailure: Option<int>)

  // ---------- The two filters as values ----------

  predicate IsBlocked(blocked: Blocked, key: Key, now: int) {
    key in blocked && now - blocked[key] <= BLOCK_DURATION
  }

  // Looking a key up forgets it when its time is over.
  function Looked(blocked: Blocked, key: Key, now: int): Blocked {
    if key in blocked && !IsBlocked(blocked, key, now) then blocked - {key} else blocked
  }

  function Missed(blocked: Blocked, key: Key, now: int): Blocked {
    if |blocked| >= MAX_BLOCKED_KEYS then blocked else blocked[key := now]
  }

  predicate Trips(b: Breaker, now: int) {
    || (b.lastFailure.Some? && now - b.lastFailure.value < BREAKER_DURATION)
    || (b.totalRequests >= MIN_REQUESTS
        && b.failedRequests as real / b.totalRequests as real > FAILURE_THRESHOLD)
  }

  function Succeed(b: Breaker): Breaker {
    if b.failedRequests > 0 then Breaker(b.totalRequests + 1, 0, None)
    else b.(totalRequests := b.totalRequests + 1)
  }

  function Fail(b: Breaker, now: int): Breaker {
    Breaker(b.totalRequests + 1, b.failedRequests + 1, Some(now))
  }

  // ---------- The protected cache as a value ----------

  datatype Guarded = Guarded(levels: Levels, blocked: Blocked, breaker: Breaker)

  datatype Reply = Hit(value: Value) | NoValue | Tripped

  function GuardedGet(g: Guarded, key: Key, now: int, f: Faults): (Reply, Guarded) {
    var h := g.(blocked := Looked(g.blocked, key, now));
    if IsBlocked(g.blocked, key, now) then (NoValue, h)
    else if Trips(g.breaker, now) then (Tripped, h)
    else
      var (r, levels) := CacheLevels.Get(g.levels, key, f);
      if r.Some? then (Hit(r.value), h.(levels := levels, breaker := Succeed(g.breaker)))
      else (NoValue, h.(levels := levels, blocked := Missed(h.blocked, key, now)))
  }

  function GuardedSet(g: Guarded, key: Key, value: Value, f: Faults): Guarded {
    g.(blocked := g.blocked - {key}, levels := CacheLevels.Set(g.levels, key, value, f))
  }

  // ---------- The objects ----------

  class PenetrationProtection {
    var blockedKeys: Blocked

    constructor ()
      ensures blockedKeys == map[]
    {
      blockedKeys := map[];
    }

    method IsBlockedKey(key: Key, now: int) returns (r: bool)
      modifies this
      ensures r == IsBlocked(old(blockedKeys), key, now) && blockedKeys == Looked(old(blockedKeys), key, now)
    {
      if key !in blockedKeys {
        return false;
      }
      if now - blockedKeys[key] > BLOCK_DURATION {
        blockedKeys := blockedKeys - {key};
        return false;
      }
      return true;
    }

    method RecordMiss(key: Key, now: int)
      modifies this
      ensures blockedKeys == Missed(old(blockedKeys), key, now)
    {
      if |blockedKeys| < MAX_BLOCKED_KEYS {
        blockedKeys := blockedKeys[key := now];
      }
    }

    method ClearBlockedKey(key: Key)
      modifies this
      ensures blockedKeys == old(blockedKeys) - {key}
    {
      blockedKeys := blockedKeys - {key};
    }
  }

  class AvalancheProtection {
    var totalRequests: int
    var failedRequests: int
    var lastFailureTime: Option<int>

    constructor ()
      ensures Value() == Breaker(0, 0, None)
    {
      totalRequests, failedRequests, lastFailureTime := 0, 0, None;
    }

    function Value(): Breaker
      reads this
    {
      Breaker(totalRequests, failedRequests, lastFailureTime)
    }

    method ShouldBlock(now: int) returns (r: bool)
      ensures r == Trips(Value(), now)
    {
      if lastFailureTime.Some? && now - lastFailureTime.value < BREAKER_DURATION {
        return true;
      }
      if totalRequests < MIN_REQUESTS {
        return false;
      }
      var failureRate := failedRequests as real / totalRequests as real;
      return failureRate > FAILURE_THRESHOLD;
    }

    method RecordSuccess()
      modifies this
      ensures Value() == Succeed(old(Value()))
    {
      totalRequests := totalRequests + 1;
      if failedRequests > 0 {
        failedRequests := 0;
        lastFailureTime := None;
      }
    }

    method RecordFailure(now: int)
      modifies this
      ensures Value() == Fail(old(Value()), now)
    {
      totalRequests := totalRequests + 1;
      failedRequests := failedRequests + 1;
      lastFailureTime := Some(now);
    }
  }

  class ProtectedCache {
    const manager: Manager
    const penetration: PenetrationProtection
    const avalanche: AvalancheProtection

    ghost predicate Valid() {
      manager.Valid()
    }

    function State(): Guarded
      reads manager.l1, manager.l2, penetration, avalanche
    {
      Guarded(manager.State(), penetration.blockedKeys, avalanche.Value())
    }

    constructor (manager: Manager)
      requires manager.Valid()
      ensures Valid() && this.manager == manager && fresh(penetration) && fresh(avalanche)
      ensures State() == Guarded(manager.State(), map[], Breaker(0, 0, None))
    {
      this.manager := manager;
      penetration := new PenetrationProtection();
      avalanche := new AvalancheProtection();
    }

    method GetWithProtection(key: Key, now: int, f: Faults) returns (r: Reply)
      requires Valid()
      modifies manager.l1, penetration, avalanche
      ensures (r, State()) == GuardedGet(old(State()), key, now, f)
    {
      var blocked := penetration.IsBlockedKey(key, now);
      if blocked {
        return NoValue;
      }
      var tripped := avalanche.ShouldBlock(now);
      if tripped {
        return Tripped;
      }
      var value := manager.Get(key, f);
      if value.None? {
        penetration.RecordMiss(key, now);
        return NoValue;
      }
      avalanche.RecordSuccess();
      return Hit(value.value);
    }

    method SetWithProtection(key: Key, value: Value, f: Faults)
      requires Valid()
      modifies manager.l1, manager.l2, penetration
      ensures State() == GuardedSet(old(State()), key, value, f)
    {
      penetration.ClearBlockedKey(key);
      manager.Set(key, value, f);
    }
  }

  // ---------- Protection is invisible ----------

  // No blocked key is held by any level.
  ghost predicate Hidden(g: Guarded) {
    forall k :: k in g.blocked ==> Find(g.levels.l1, k).None? && Find(g.levels.l2, k).None?
  }

  ghost predicate Inv(g: Guarded) {
    && Coherent(g.levels) && Hidden(g)
    && g.breaker.failedRequests == 0 && g.breaker.lastFailure == None && g.breaker.totalRequests >= 0
    && |g.blocked| <= MAX_BLOCKED_KEYS
  }

  // Reads and writes through the protection, and everything else directly on the
  // manager; each with the time at which it happens.
  datatype Call = Call(op: Op, now: int)

  function AsAnswer(r: Reply): Answer {
    match r
    case Hit(v) => Got(Some(v))
    case NoValue => Got(None)
    case Tripped => Nothing
  }

  function Serve(g: Guarded, c: Call): (Answer, Guarded) {
    match c.op
    case OpGet(k) => var (r, h) := GuardedGet(g, k, c.now, HEALTHY); (AsAnswer(r), h)
    case OpSet(k, v) => (Nothing, GuardedSet(g, k, v, HEALTHY))
    case _ => (Apply(g.levels, c.op).0, g.(levels := Apply(g.levels, c.op).1))
  }

  function Replies(g: Guarded, calls: seq<Call>): seq<Answer>
    decreases |calls|
  {
    if calls == [] then [] else
      var (a, h) := Serve(g, calls[0]);
      [a] + Replies(h, calls[1..])
  }

  function Ops(calls: seq<Call>): (r: seq<Op>)
    ensures |r| == |calls|
  {
    if calls == [] then [] else [calls[0].op] + Ops(calls[1..])
  }

  lemma ForgetSize(blocked: Blocked, key: Key)
    ensures |blocked - {key}| <= |blocked|
  {
    assert (blocked - {key}).Keys == blocked.Keys - {key};
    assert |(blocked - {key}).Keys| <= |blocked.Keys|;
  }

  lemma MissedSize(blocked: Blocked, key: Key, now: int)
    requires |blocked| <= MAX_BLOCKED_KEYS
    ensures |Missed(blocked, key, now)| <= MAX_BLOCKED_KEYS
  {
    if |blocked| < MAX_BLOCKED_KEYS {
      assert blocked[key := now].Keys == blocked.Keys + {key};
      assert |blocked[key := now].Keys| <= |blocked.Keys| + 1;
    }
  }

  lemma GetTransparent(g: Guarded, key: Key, now: int)
    requires Inv(g)
    ensures var (r, h) := GuardedGet(g, key, now, HEALTHY);
            && Inv(h) && !r.Tripped?
            && AsAnswer(r) == Got(CacheLevels.Get(g.levels, key, HEALTHY).0)
            && (h.levels == g.levels || h.levels == CacheLevels.Get(g.levels, key, HEALTHY).1)
            && View(h.levels) == View(g.levels) && ModeOf(h.levels) == ModeOf(g.levels)
  {
    ForgetSize(g.blocked, key);
    MissedSize(Looked(g.blocked, key, now), key, now);
    GetExactly(g.levels, key, HEALTHY);
  }

  lemma ServeTransparent(g: Guarded, c: Call)
    requires Inv(g)
    ensures var (a, h) := Serve(g, c);
            && Inv(h) && ModeOf(h.levels) == ModeOf(g.levels)
            && (a, View(h.levels)) == ApplySpec(ModeOf(g.levels), View(g.levels), c.op)
  {
    ApplyRefines(g.levels, c.op);
    if c.op.OpGet? {
      GetTransparent(g, c.op.key, c.now);
    } else if c.op.OpSet? {
      ForgetSize(g.blocked, c.op.key);
    }
  }

  // When every write goes through SetWithProtection, a protected read always
  // answers what the plain map would: filter and breaker never show, at any
  // sequence of times, with evictions and any mix of the other operations.
  lemma {:induction false} Transparent(g: Guarded, calls: seq<Call>)
    requires Inv(g)
    ensures Replies(g, calls) == AnswersSpec(ModeOf(g.levels), View(g.levels), Ops(calls))
    decreases |calls|
  {
    if calls != [] {
      ServeTransparent(g, calls[0]);
      Transparent(Serve(g, calls[0]).1, calls[1..]);
      assert Ops(calls)[1..] == Ops(calls[1..]);
    }
  }

  // ---------- What a read leaves behind ----------

  // Neither a read nor a write through the protection changes what the filter says
  // of another key, at any later time.
  lemma OthersUntouched(g: Guarded, key: Key, value: Value, now: int, f: Faults, other: Key, later: int)
    requires other != key
    ensures IsBlocked(GuardedGet(g, key, now, f).1.blocked, other, later) == IsBlocked(g.blocked, other, later)
    ensures IsBlocked(GuardedSet(g, key, value, f).blocked, other, later) == IsBlocked(g.blocked, other, later)
  {
  }

  // A blocked read asks neither the breaker nor the levels and leaves everything
  // as it was.
  lemma BlockedRead(g: Guarded, key: Key, now: int, f: Faults)
    requires IsBlocked(g.blocked, key, now)
    ensures GuardedGet(g, key, now, f) == (NoValue, g)
  {
  }

  // Of its own key, a read that is not blocked leaves a block if and only if it
  // asked the levels in vain and the filter had room, among what it holds besides
  // this key; and that block is for the times up to five minutes later.
  lemma BlocksExactly(g: Guarded, key: Key, now: int, f: Faults, later: int)
    requires !IsBlocked(g.blocked, key, now)
    ensures IsBlocked(GuardedGet(g, key, now, f).1.blocked, key, later) <==>
      && !Trips(g.breaker, now) && CacheLevels.Get(g.levels, key, f).0.None?
      && |g.blocked - {key}| < 10000 && later - now <= 5 * 60 * 1_000_000_000
    // Otherwise the filter forgets the key.
    ensures Trips(g.breaker, now) || CacheLevels.Get(g.levels, key, f).0.Some? || |g.blocked - {key}| >= 10000 ==>
      key !in GuardedGet(g, key, now, f).1.blocked
  {
    assert Looked(g.blocked, key, now) == g.blocked - {key};
  }

  // A value that was read is read again while L2 fails, if and only if L1 took the
  // copy of it or held it before.
  lemma HitStays(g: Guarded, key: Key, now: int, f: Faults, later: int, fill: bool)
    requires GuardedGet(g, key, now, f).0.Hit? && now <= later
    ensures var (r, h) := GuardedGet(g, key, now, f);
            GuardedGet(h, key, later, Faults(false, true, fill)).0 == r <==>
              (g.levels.l1.Some? && (!f.fill || Find(g.levels.l1, key) == Some(r.value)))
  {
    assert !Trips(Succeed(g.breaker), later);
  }

  // The filter holds at most ten thousand keys, and a write unblocks its own.
  lemma FilterBounded(g: Guarded, key: Key, value: Value, now: int, f: Faults)
    requires |g.blocked| <= 10000
    ensures |GuardedGet(g, key, now, f).1.blocked| <= 10000 && |GuardedSet(g, key, value, f).blocked| <= 10000
    ensures key !in GuardedSet(g, key, value, f).blocked
  {
    ForgetSize(g.blocked, key);
    MissedSize(Looked(g.blocked, key, now), key, now);
  }

  // ---------- What makes it visible ----------

  // After a write that bypasses the protection, a read returns the value if and
  // only if its key is not blocked at that moment, the breaker is closed and some
  // level is enabled to take it.
  lemma DirectSetExactly(g: Guarded, key: Key, value: Value, now: int)
    ensures var h := g.(levels := CacheLevels.Set(g.levels, key, value, HEALTHY));
            GuardedGet(h, key, now, HEALTHY).0 == Hit(value) <==>
              !IsBlocked(g.blocked, key, now) && !Trips(g.breaker, now) && !ModeOf(g.levels).Off?
  {
  }

  // A backend error is recorded as a miss: of a key that is there, a later healthy
  // read says that it is not if and only if the earlier one was let through, every
  // level that holds the key failed, the filter had room, and the block is not over.
  lemma ReadFaultExactly(g: Guarded, key: Key, now: int, f: Faults, later: int)
    requires Coherent(g.levels) && Hidden(g) && key in View(g.levels)
    ensures GuardedGet(GuardedGet(g, key, now, f).1, key, later, HEALTHY).0 == NoValue <==>
      && !Trips(g.breaker, now)
      && (Find(g.levels.l1, key).Some? ==> f.l1) && (Find(g.levels.l2, key).Some? ==> f.l2)
      && |g.blocked| < MAX_BLOCKED_KEYS && later - now <= BLOCK_DURATION
    // Otherwise it returns the value, unless the breaker has tripped by then.
    ensures GuardedGet(GuardedGet(g, key, now, f).1, key, later, HEALTHY).0 != NoValue ==>
      GuardedGet(GuardedGet(g, key, now, f).1, key, later, HEALTHY).0 ==
        if Trips(GuardedGet(g, key, now, f).1.breaker, later) then Tripped else Hit(View(g.levels)[key])
  {
    var h := GuardedGet(g, key, now, f).1;
    assert Find(g.levels.l1, key).Some? || Find(g.levels.l2, key).Some?;
    assert key !in g.blocked && Looked(g.blocked, key, now) == g.blocked;
    GetExactly(g.levels, key, f);
    GetExactly(h.levels, key, HEALTHY);
  }

  // ---------- The breaker does not close ----------

  // What can happen to a protected cache: a call, or a recorded failure.
  datatype Event = Served(call: Call) | Failed(now: int)

  function React(g: Guarded, e: Event): (Answer, Guarded) {
    match e
    case Served(c) => Serve(g, c)
    case Failed(now) => (Nothing, g.(breaker := Fail(g.breaker, now)))
  }

  // No read in the run returns a value.
  ghost predicate Silent(g: Guarded, events: seq<Event>)
    decreases |events|
  {
    events != [] ==>
      var (a, h) := React(g, events[0]);
      && (events[0].Served? && events[0].call.op.OpGet? ==> a == Nothing || a == Got(None))
      && Silent(h, events[1..])
  }

  ghost predicate OverThreshold(b: Breaker) {
    b.totalRequests >= MIN_REQUESTS && 2 * b.failedRequests > b.totalRequests
  }

  lemma RateExactly(b: Breaker)
    ensures (b.totalRequests >= MIN_REQUESTS && b.failedRequests as real / b.totalRequests as real > FAILURE_THRESHOLD)
            <==> OverThreshold(b)
  {
    if b.totalRequests >= MIN_REQUESTS {
      OverHalf(b.failedRequests as real, b.totalRequests as real);
    }
  }

  // From a minute after the last failure on, the breaker blocks if and only if the
  // failure rate is over the threshold.
  lemma TripsExactly(b: Breaker, now: int)
    requires b.lastFailure.Some? ==> now >= b.lastFailure.value + 60_000_000_000
    ensures Trips(b, now) <==> OverThreshold(b)
  {
    RateExactly(b);
  }

  // The breaker lets nothing through at any time from now on if and only if the
  // failure rate is over the threshold.
  lemma TripsForeverExactly(b: Breaker, from: int)
    ensures (forall now :: now >= from ==> Trips(b, now)) <==> OverThreshold(b)
  {
    RateExactly(b);
    var calm := if b.lastFailure.Some? && b.lastFailure.value + BREAKER_DURATION > from
                then b.lastFailure.value + BREAKER_DURATION else from;
    TripsExactly(b, calm);
  }

  // Only a served read resets the failure count, and none is served.
  lemma {:induction false} StaysSilent(g: Guarded, events: seq<Event>)
    requires OverThreshold(g.breaker)
    ensures Silent(g, events)
    decreases |events|
  {
    if events != [] {
      RateExactly(g.breaker);
      StaysSilent(React(g, events[0]).1, events[1..]);
    }
  }

  function Time(e: Event): int {
    if e.Served? then e.call.now else e.now
  }

  // The events happen one after the other, none before from.
  ghost predicate Timely(from: int, events: seq<Event>)
    decreases |events|
  {
    events != [] ==> Time(events[0]) >= from && Timely(Time(events[0]), events[1..])
  }

  // While the rate is not over the threshold, a write and a read of it get through
  // as soon as the last failure is a minute old.
  lemma GetsThrough(g: Guarded, from: int) returns (events: seq<Event>)
    requires !OverThreshold(g.breaker) && !ModeOf(g.levels).Off?
    ensures Timely(from, events) && !Silent(g, events)
  {
    TripsForeverExactly(g.breaker, from);
    var now :| now >= from && !Trips(g.breaker, now);
    var write, read := Served(Call(OpSet("k", [1]), now)), Served(Call(OpGet("k"), now));
    events := [write, read];
    var h := React(g, write).1;
    assert h.levels == CacheLevels.Set(g.levels, "k", [1], HEALTHY) && "k" !in h.blocked;
    assert React(h, read).0 == Got(Some([1]));
    assert events[1..] == [read] && [read][1..] == [];
    assert !Silent(h, [read]);
  }

  // No run of calls and failures, at any times from now on, returns a value to a
  // read if and only if the failure rate is over the threshold, or there is no
  // level to hold one.
  lemma BreakerStaysOpenExactly(g: Guarded, from: int)
    ensures (forall events: seq<Event> :: Timely(from, events) ==> Silent(g, events))
            <==> (OverThreshold(g.breaker) || ModeOf(g.levels).Off?)
  {
    if OverThreshold(g.breaker) {
      forall events: seq<Event> ensures Silent(g, events) { StaysSilent(g, events); }
    } else if ModeOf(g.levels).Off? {
      forall events: seq<Event> ensures Silent(g, events) { NoLevelSilent(g, events); }
    } else {
      var events := GetsThrough(g, from);
    }
  }

  lemma {:induction false} NoLevelSilent(g: Guarded, events: seq<Event>)
    requires ModeOf(g.levels).Off?
    ensures Silent(g, events)
    decreases |events|
  {
    if events != [] { NoLevelSilent(React(g, events[0]).1, events[1..]); }
  }

  // ---------- What the breaker counts ----------

  // What the breaker gets to see: a read that returned a value, or a failure.
  datatype Seen = HitSeen | FailureSeen(now: int)

  // The failures since the last hit, and the time of the last of them.
  ghost function FailuresSince(seen: seq<Seen>): nat {
    if seen == [] || Last(seen).HitSeen? then 0 else FailuresSince(Init(seen)) + 1
  }

  ghost function LastSince(seen: seq<Seen>): Option<int> {
    if seen == [] || Last(seen).HitSeen? then None else Some(Last(seen).now)
  }

  ghost function SeenBy(g: Guarded, events: seq<Event>): seq<Seen>
    decreases |events|
  {
    if events == [] then [] else
    var (a, h) := React(g, events[0]);
    var first := if events[0].Failed? then [FailureSeen(events[0].now)]
                 else if events[0].call.op.OpGet? && a.Got? && a.value.Some? then [HitSeen]
                 else [];
    first + SeenBy(h, events[1..])
  }

  function Final(g: Guarded, events: seq<Event>): Guarded
    decreases |events|
  {
    if events == [] then g else Final(React(g, events[0]).1, events[1..])
  }

  // The breaker has counted everything it has seen, and the failures since the
  // last hit.
  ghost predicate Tallies(b: Breaker, seen: seq<Seen>) {
    b.totalRequests == |seen| && b.failedRequests == FailuresSince(seen) && b.lastFailure == LastSince(seen)
  }

  lemma LastFailed(seen: seq<Seen>)
    ensures FailuresSince(seen) > 0 <==> LastSince(seen).Some?
  {
  }

  lemma TallyHit(b: Breaker, seen: seq<Seen>)
    requires Tallies(b, seen)
    ensures Tallies(Succeed(b), seen + [HitSeen])
  {
    LastFailed(seen);
    assert Init(seen + [HitSeen]) == seen;
  }

  lemma TallyFailure(b: Breaker, seen: seq<Seen>, now: int)
    requires Tallies(b, seen)
    ensures Tallies(Fail(b, now), seen + [FailureSeen(now)])
  {
    assert Init(seen + [FailureSeen(now)]) == seen;
  }

  lemma TallyStep(g: Guarded, e: Event, seen: seq<Seen>)
    requires Tallies(g.breaker, seen)
    ensures Tallies(React(g, e).1.breaker, seen + SeenBy(g, [e]))
  {
    assert [e][1..] == [] && SeenBy(React(g, e).1, []) == [];
    assert seen + [] == seen;
    if e.Failed? {
      TallyFailure(g.breaker, seen, e.now);
      assert SeenBy(g, [e]) == [FailureSeen(e.now)];
    } else if e.call.op.OpGet? && React(g, e).0.Got? && React(g, e).0.value.Some? {
      TallyHit(g.breaker, seen);
      assert SeenBy(g, [e]) == [HitSeen];
    } else {
      assert SeenBy(g, [e]) == [];
    }
  }

  lemma SeenFirst(g: Guarded, events: seq<Event>)
    requires events != []
    ensures SeenBy(g, events) == SeenBy(g, [events[0]]) + SeenBy(React(g, events[0]).1, events[1..])
  {
    assert [events[0]][1..] == [] && SeenBy(React(g, events[0]).1, []) == [];
  }

  // Over every run of calls and failures.
  lemma {:induction false} BreakerTallies(g: Guarded, events: seq<Event>, seen: seq<Seen>)
    requires Tallies(g.breaker, seen)
    ensures Tallies(Final(g, events).breaker, seen + SeenBy(g, events))
    decreases |events|
  {
    if events == [] {
      assert seen + [] == seen;
    } else {
      TallyStep(g, events[0], seen);
      SeenFirst(g, events);
      Associative(seen, SeenBy(g, [events[0]]), SeenBy(React(g, events[0]).1, events[1..]));
      BreakerTallies(React(g, events[0]).1, events[1..], seen + SeenBy(g, [events[0]]));
    }
  }

  // A breaker blocks if and only if its last failure is since the last hit and less
  // than a minute old, or it has seen ten reads and failures, more than half of
  // them failures since the last hit.
  lemma TripsAfter(b: Breaker, seen: seq<Seen>, now: int)
    requires Tallies(b, seen)
    ensures Trips(b, now) <==>
      || (LastSince(seen).Some? && now - LastSince(seen).value < 60 * 1_000_000_000)
      || (|seen| >= 10 && 2 * FailuresSince(seen) > |seen|)
  {
    RateExactly(b);
  }

  // ---------- How the breaker gets there ----------

  function Fails(b: Breaker, n: nat, now: int): Breaker {
    if n == 0 then b else Fail(Fails(b, n - 1, now), now)
  }

  // Failures take a breaker over the threshold; a new one needs just ten.
  lemma {:induction false} FailsExactly(n: nat, now: int)
    ensures Fails(Breaker(0, 0, None), n, now) == Breaker(n, n, if n == 0 then None else Some(now))
    ensures OverThreshold(Fails(Breaker(0, 0, None), n, now)) <==> n >= 10
  {
    if n > 0 { FailsExactly(n - 1, now); }
  }
}
