// Player statistics: the level loop, and what runs of updates leave behind.
module PlayerStats {
  import opened Wrappers
  import opened Sequences
  import opened Int64

  const INITIAL_COINS: int := 1000
  const INITIAL_DIAMONDS: int := 100

  // From here on the level formula asks for a threshold above MaxInt64.
  const EXPERIENCE_LIMIT: int := MAX_INT64 / 100 * 100

  // From here on no threshold, wrapped round or not, is above the experience.
  const ENDLESS: int := MAX_INT64 - 3

  // The one level whose threshold, wrapped round, is MaxInt64 - 3.
  const LAST_LEVEL: int := 1199038364791120855

  // The level whose threshold is the first one above the experience.
  function LevelOf(experience: int): (level: int)
    ensures level >= 1 && experience < level * 100
    ensures level > 1 ==> (level - 1) * 100 <= experience
  {
    if experience < 0 then 1 else experience / 100 + 1
  }

  // The loop stops at a level when the threshold for that level, wrapped round,
  // is above the experience.
  ghost predicate StopsAt(experience: int, level: int) {
    ToInt64(level * 100) > experience
  }

  method CalculateLevel(experience: int) returns (level: int)
    requires experience < ENDLESS
    ensures 1 <= level <= LAST_LEVEL && StopsAt(experience, level)
    ensures forall l :: 1 <= l < level ==> !StopsAt(experience, l)
    ensures level == StoppingLevel(experience)
  {
    level := 1;
    var expNeeded := 100;
    while experience >= expNeeded
      invariant 1 <= level <= LAST_LEVEL && expNeeded == ToInt64(level * 100)
      invariant forall l :: 1 <= l < level ==> !StopsAt(experience, l)
      decreases LAST_LEVEL - level
    {
      assert !StopsAt(experience, level) && StopsAt(experience, LAST_LEVEL);
      level := level + 1;
      expNeeded := ToInt64(level * 100);
    }
    FirstStop(experience, level);
  }

  // Where the loop stops: by the formula, and on the few experiences above its
  // reach at the one level whose wrapped threshold is high enough.
  function StoppingLevel(experience: int): (level: int)
    ensures level >= 1
  {
    if experience < EXPERIENCE_LIMIT then LevelOf(experience) else LAST_LEVEL
  }

  // Below the limit no threshold is wrapped.
  lemma FormulaStops(experience: int)
    requires experience < EXPERIENCE_LIMIT
    ensures StopsAt(experience, LevelOf(experience))
    ensures forall l :: 1 <= l < LevelOf(experience) ==> !StopsAt(experience, l)
  {
    assert LevelOf(experience) * 100 <= EXPERIENCE_LIMIT;
  }

  lemma OnlyMultiple(x: int)
    requires EXPERIENCE_LIMIT < x <= MAX_INT64 && x % 4 == 0
    ensures x == MAX_INT64 - 3
  {
    var k := x / 4;
    assert x == 4 * k && MAX_INT64 == 4 * 2305843009213693951 + 3;
  }

  // Above it the threshold must be MaxInt64 - 3.
  lemma LastStops(experience: int, level: int)
    requires EXPERIENCE_LIMIT <= experience < ENDLESS && 1 <= level <= LAST_LEVEL && StopsAt(experience, level)
    ensures level == LAST_LEVEL
  {
    FourDivides(level * 25);
    OnlyMultiple(ToInt64(level * 100));
    SameThreshold(level);
  }

  lemma FirstStop(experience: int, level: int)
    requires experience < ENDLESS && 1 <= level <= LAST_LEVEL && StopsAt(experience, level)
    requires forall l :: 1 <= l < level ==> !StopsAt(experience, l)
    ensures level == StoppingLevel(experience)
  {
    if experience < EXPERIENCE_LIMIT {
      FormulaStops(experience);
    } else {
      LastStops(experience, level);
    }
  }

  // 25 times the first is one more than 2^62 times the second.
  const INVERSE: int := 1106804644422573097
  const QUOTIENT: int := 6

  // The wrapped threshold MaxInt64 - 3 comes up once in every 2^62 levels.
  lemma SameThreshold(level: int)
    requires 1 <= level <= LAST_LEVEL && ToInt64(level * 100) == MAX_INT64 - 3
    ensures level == LAST_LEVEL
  {
    var q := (level * 100 + 0x8000_0000_0000_0000) / 0x1_0000_0000_0000_0000;
    var p := (LAST_LEVEL * 100 + 0x8000_0000_0000_0000) / 0x1_0000_0000_0000_0000;
    var d, m := LAST_LEVEL - level, p - q;
    assert 25 * d == 0x4000_0000_0000_0000 * m;
    assert d == 0x4000_0000_0000_0000 * (INVERSE * m - QUOTIENT * d);
  }

  // Thresholds wrap round in multiples of 4, so the loop ends on every int64 but
  // the four largest.
  lemma LoopEndsExactly(experience: int)
    requires experience <= MAX_INT64
    ensures (exists level :: 1 <= level <= MAX_INT64 && StopsAt(experience, level)) <==> experience < ENDLESS
  {
    if experience < ENDLESS {
      LastThreshold();
      assert StopsAt(experience, LAST_LEVEL);
    } else {
      forall level: int ensures !StopsAt(experience, level) {
        NeverStops(experience, level);
      }
    }
  }

  lemma LastThreshold()
    ensures ToInt64(LAST_LEVEL * 100) == MAX_INT64 - 3
  {
  }

  lemma NeverStops(experience: int, level: int)
    requires ENDLESS <= experience
    ensures !StopsAt(experience, level)
  {
    FourDivides(level * 25);
    if ToInt64(level * 100) > experience { OnlyMultiple(ToInt64(level * 100)); }
  }

  lemma FourDivides(x: int)
    ensures ToInt64(4 * x) % 4 == 0
  {
    var q := (4 * x + 0x8000_0000_0000_0000) / 0x1_0000_0000_0000_0000;
    assert ToInt64(4 * x) == 4 * (x - q * 0x4000_0000_0000_0000);
  }

  // ---------- Updates ----------

  datatype Player = Player(level: int, experience: int, coins: int, diamonds: int)

  const REGISTERED := Player(1, 0, INITIAL_COINS, INITIAL_DIAMONDS)

  datatype Delta = Delta(experience: int, coins: int, diamonds: int)

  function AtLeastZero(x: int): int {
    if x < 0 then 0 else x
  }

  // An amount after a change, cut off at zero.
  function Spent(amount: int, change: int): int {
    AtLeastZero(ToInt64(amount + change))
  }

  function Updated(p: Player, d: Delta): Player {
    var experience := ToInt64(p.experience + d.experience);
    Player(if StoppingLevel(experience) > p.level then StoppingLevel(experience) else p.level,
           experience, Spent(p.coins, d.coins), Spent(p.diamonds, d.diamonds))
  }

  datatype UpdateError = ReadFailed | NoSuchPlayer | WriteFailed

  class PlayerService {
    var players: map<string, Player>

    constructor ()
      ensures players == map[]
    {
      players := map[];
    }

    // The row changes only when both the read and the write succeed.
    method UpdatePlayerStats(userId: string, d: Delta, readFails: bool, writeFails: bool)
      returns (r: Result<Player, UpdateError>)
      requires !readFails && userId in players ==> ToInt64(players[userId].experience + d.experience) < ENDLESS
      modifies this
      ensures r == if readFails then Err(ReadFailed)
                   else if userId !in old(players) then Err(NoSuchPlayer)
                   else if writeFails then Err(WriteFailed)
                   else Ok(Updated(old(players)[userId], d))
      ensures players == if r.Ok? then old(players)[userId := r.value] else old(players)
    {
      if readFails {
        return Err(ReadFailed);
      }
      if userId !in players {
        return Err(NoSuchPlayer);
      }
      var player := players[userId];
      player := player.(experience := ToInt64(player.experience + d.experience));
      player := player.(coins := ToInt64(player.coins + d.coins));
      player := player.(diamonds := ToInt64(player.diamonds + d.diamonds));

      var newLevel := CalculateLevel(player.experience);
      if newLevel > player.level {
        player := player.(level := newLevel);
      }
      if player.coins < 0 {
        player := player.(coins := 0);
      }
      if player.diamonds < 0 {
        player := player.(diamonds := 0);
      }
      if writeFails {
        return Err(WriteFailed);
      }
      players := players[userId := player];
      return Ok(player);
    }
  }

  // ---------- Runs of updates ----------

  ghost function History(updates: seq<Delta>): Player {
    if updates == [] then REGISTERED else Updated(History(Init(updates)), Last(updates))
  }

  // What registration gives.
  lemma Registered()
    ensures History([]) == Player(1, 0, 1000, 100)
  {
  }

  ghost function ExperienceAfter(updates: seq<Delta>): int {
    if updates == [] then 0 else ToInt64(ExperienceAfter(Init(updates)) + Last(updates).experience)
  }

  // A run of updates that all return: none reaches an experience on which the
  // level loop does not end.
  ghost predicate Returning(updates: seq<Delta>) {
    forall k :: 0 <= k <= |updates| ==> ExperienceAfter(updates[..k]) < ENDLESS
  }

  lemma ReturningInit(updates: seq<Delta>)
    requires updates != [] && Returning(updates)
    ensures Returning(Init(updates))
  {
    forall k | 0 <= k < |updates| ensures ExperienceAfter(Init(updates)[..k]) < ENDLESS {
      assert Init(updates)[..k] == updates[..k];
    }
  }

  ghost function LevelAt(updates: seq<Delta>, k: nat): int
    requires k <= |updates|
  {
    StoppingLevel(ExperienceAfter(updates[..k]))
  }

  lemma LevelAtPrefix(updates: seq<Delta>, k: nat)
    requires updates != [] && k < |updates|
    ensures LevelAt(Init(updates), k) == LevelAt(updates, k)
  {
    assert Init(updates)[..k] == updates[..k];
  }

  lemma LevelAtEnd(updates: seq<Delta>)
    ensures LevelAt(updates, |updates|) == StoppingLevel(ExperienceAfter(updates))
  {
    assert updates[..|updates|] == updates;
  }

  // The highest level that the experience has called for at any moment.
  ghost predicate Highest(updates: seq<Delta>, level: int) {
    && (forall k :: 0 <= k <= |updates| ==> LevelAt(updates, k) <= level)
    && exists k :: 0 <= k <= |updates| && LevelAt(updates, k) == level
  }

  // One update more.
  lemma HighestNext(updates: seq<Delta>, level: int, next: int)
    requires updates != [] && Highest(Init(updates), level)
    requires next == if LevelAt(updates, |updates|) > level then LevelAt(updates, |updates|) else level
    ensures Highest(updates, next)
  {
    forall k | 0 <= k < |updates| ensures LevelAt(updates, k) <= level {
      LevelAtPrefix(updates, k);
    }
    var j :| 0 <= j <= |Init(updates)| && LevelAt(Init(updates), j) == level;
    LevelAtPrefix(updates, j);
  }

  // The stored level is the highest level that the experience ever called for:
  // it never falls, and falls short of no moment of the history.
  lemma {:induction false} LevelIsHighest(updates: seq<Delta>)
    requires Returning(updates)
    ensures History(updates).experience == ExperienceAfter(updates)
    ensures Highest(updates, History(updates).level)
  {
    LevelAtEnd(updates);
    if updates != [] {
      ReturningInit(updates);
      LevelIsHighest(Init(updates));
      HighestNext(updates, History(Init(updates)).level, History(updates).level);
    }
  }

  // ---------- Purses ----------

  // An amount that starts somewhere and is cut off at zero after every change.
  ghost function Floored(initial: int, changes: seq<int>): int {
    if changes == [] then initial else Spent(Floored(initial, Init(changes)), Last(changes))
  }

  // A change is right if and only if the sum is no more than an int64; otherwise
  // it wraps round and the purse is emptied.
  lemma SpentExactly(amount: int, change: int)
    requires 0 <= amount <= MAX_INT64 && InInt64(change)
    ensures Spent(amount, change) == AtLeastZero(amount + change) <==> amount + change <= MAX_INT64
    ensures amount + change > MAX_INT64 ==> Spent(amount, change) == 0
    ensures 0 <= Spent(amount, change) <= MAX_INT64
  {
  }

  // No sum of a run is more than an int64.
  ghost predicate Fits(initial: int, changes: seq<int>) {
    && 0 <= initial <= MAX_INT64
    && (forall k :: 0 <= k < |changes| ==> InInt64(changes[k]))
    && forall k :: 0 <= k < |changes| ==> Floored(initial, changes[..k]) + changes[k] <= MAX_INT64
  }

  lemma FitsInit(initial: int, changes: seq<int>)
    requires changes != [] && Fits(initial, changes)
    ensures Fits(initial, Init(changes)) && Floored(initial, Init(changes)) + Last(changes) <= MAX_INT64
  {
    var n := |changes| - 1;
    assert changes[..n] == Init(changes);
    forall k | 0 <= k < n ensures Floored(initial, Init(changes)[..k]) + Init(changes)[k] <= MAX_INT64 {
      assert Init(changes)[..k] == changes[..k];
    }
  }

  // The changes from the k-th on, the initial amount counting as given before the
  // first.
  ghost function Since(initial: int, changes: seq<int>, k: nat): int
    requires k <= |changes|
  {
    if k == |changes| then (if k == 0 then initial else 0)
    else Since(initial, Init(changes), k) + Last(changes)
  }

  // The largest of the changes since any moment.
  ghost predicate BestSuffix(initial: int, changes: seq<int>, amount: int) {
    && (forall k :: 0 <= k <= |changes| ==> Since(initial, changes, k) <= amount)
    && exists k :: 0 <= k <= |changes| && Since(initial, changes, k) == amount
  }

  // Such an amount is just that: cutting a debt off at zero forgets exactly what
  // was not covered.
  lemma {:induction false} FlooredIsBestSuffix(initial: int, changes: seq<int>)
    requires Fits(initial, changes)
    ensures 0 <= Floored(initial, changes) <= MAX_INT64
    ensures BestSuffix(initial, changes, Floored(initial, changes))
  {
    if changes == [] {
      assert Since(initial, changes, 0) == Floored(initial, changes);
    } else {
      var before := Init(changes);
      FitsInit(initial, changes);
      FlooredIsBestSuffix(initial, before);
      SpentExactly(Floored(initial, before), Last(changes));
      forall k | 0 <= k <= |changes| ensures Since(initial, changes, k) <= Floored(initial, changes) {
        if k < |changes| { assert Since(initial, before, k) <= Floored(initial, before); }
      }
      var j :| 0 <= j <= |before| && Since(initial, before, j) == Floored(initial, before);
      assert Since(initial, changes, j) == Floored(initial, before) + Last(changes);
      assert Since(initial, changes, |changes|) == 0;
    }
  }

  ghost function Coins(updates: seq<Delta>): (r: seq<int>)
    ensures |r| == |updates| && forall i :: 0 <= i < |r| ==> r[i] == updates[i].coins
  {
    if updates == [] then [] else Coins(Init(updates)) + [Last(updates).coins]
  }

  ghost function Diamonds(updates: seq<Delta>): (r: seq<int>)
    ensures |r| == |updates| && forall i :: 0 <= i < |r| ==> r[i] == updates[i].diamonds
  {
    if updates == [] then [] else Diamonds(Init(updates)) + [Last(updates).diamonds]
  }

  lemma {:induction false} HistoryIsFloored(updates: seq<Delta>)
    ensures History(updates).coins == Floored(INITIAL_COINS, Coins(updates))
    ensures History(updates).diamonds == Floored(INITIAL_DIAMONDS, Diamonds(updates))
  {
    if updates != [] {
      HistoryIsFloored(Init(updates));
      assert Init(Coins(updates)) == Coins(Init(updates));
      assert Init(Diamonds(updates)) == Diamonds(Init(updates));
    }
  }

  // Over any run of updates from registration, stored coins and diamonds are never
  // negative, and as long as no sum is more than an int64 they are the largest of
  // the changes since any moment.
  lemma PursesAreBestSuffixes(updates: seq<Delta>)
    requires Returning(updates)
    ensures History(updates).coins >= 0 && History(updates).diamonds >= 0
    ensures Fits(INITIAL_COINS, Coins(updates)) ==>
      BestSuffix(INITIAL_COINS, Coins(updates), History(updates).coins)
    ensures Fits(INITIAL_DIAMONDS, Diamonds(updates)) ==>
      BestSuffix(INITIAL_DIAMONDS, Diamonds(updates), History(updates).diamonds)
  {
    HistoryIsFloored(updates);
    if Fits(INITIAL_COINS, Coins(updates)) { FlooredIsBestSuffix(INITIAL_COINS, Coins(updates)); }
    if Fits(INITIAL_DIAMONDS, Diamonds(updates)) { FlooredIsBestSuffix(INITIAL_DIAMONDS, Diamonds(updates)); }
  }
}
