// Response time statistics: running minimum and maximum, and percentiles picked
// from a sorted copy.
module ResponseTimes {
  import opened Sequences
  import opened Modular
  import opened Int64
  import opened Float64

  // ---------- Summaries of a list ----------

  ghost predicate IsMin(s: seq<int>, m: int) {
    m in s && forall i :: 0 <= i < |s| ==> m <= s[i]
  }

  ghost predicate IsMax(s: seq<int>, m: int) {
    m in s && forall i :: 0 <= i < |s| ==> s[i] <= m
  }

  // What Add leaves in minTime and maxTime: a minimum of zero counts as unset.
  ghost function RunningMin(s: seq<int>): int {
    if s == [] then 0 else
    var m := RunningMin(Init(s));
    if m == 0 || Last(s) < m then Last(s) else m
  }

  ghost function RunningMax(s: seq<int>): int {
    if s == [] then 0 else
    var m := RunningMax(Init(s));
    if Last(s) > m then Last(s) else m
  }

  lemma {:induction false} RunningMaxExact(s: seq<int>)
    requires s != [] && forall i :: 0 <= i < |s| ==> s[i] >= 0
    ensures IsMax(s, RunningMax(s))
  {
    var t := Init(s);
    assert s == t + [Last(s)];
    if t != [] {
      RunningMaxExact(t);
      assert RunningMax(t) in s;
    }
    assert Last(s) in s;
    forall i | 0 <= i < |s| ensures s[i] <= RunningMax(s) {
      if i < |s| - 1 { assert s[i] == t[i]; }
    }
  }

  lemma {:induction false} RunningMinPositive(s: seq<int>)
    requires s != [] && forall i :: 0 <= i < |s| ==> s[i] > 0
    ensures IsMin(s, RunningMin(s)) && RunningMin(s) > 0
  {
    var t := Init(s);
    assert s == t + [Last(s)];
    if t != [] {
      RunningMinPositive(t);
      assert RunningMin(t) in s;
    }
    assert Last(s) in s;
    forall i | 0 <= i < |s| ensures RunningMin(s) <= s[i] {
      if i < |s| - 1 { assert s[i] == t[i]; }
    }
  }

  lemma {:induction false} RunningMinSign(s: seq<int>)
    requires s != [] && forall i :: 0 <= i < |s| ==> s[i] >= 0
    ensures RunningMin(s) >= 0 && (RunningMin(s) == 0 <==> Last(s) == 0)
  {
    var t := Init(s);
    if t != [] {
      assert forall i :: 0 <= i < |t| ==> t[i] == s[i];
      RunningMinSign(t);
    }
  }

  // Over durations the running minimum is the minimum exactly when no duration
  // was zero or the last one was: a zero is forgotten by the next duration.
  lemma RunningMinExactly(s: seq<int>)
    requires s != [] && forall i :: 0 <= i < |s| ==> s[i] >= 0
    ensures IsMin(s, RunningMin(s)) <==> (0 !in s || Last(s) == 0)
  {
    RunningMinSign(s);
    if 0 !in s {
      RunningMinPositive(s);
    } else if Last(s) == 0 {
      assert Last(s) in s;
    } else {
      var i :| 0 <= i < |s| && s[i] == 0;
      assert RunningMin(s) > s[i];
    }
  }

  // ---------- Ranks ----------

  ghost function CountAtMost(s: seq<int>, v: int): nat {
    if s == [] then 0 else CountAtMost(Init(s), v) + (if Last(s) <= v then 1 else 0)
  }

  // v is the element of rank k of s, counting from 0: at most k elements are
  // below it, and at least k + 1 are not above it.
  ghost predicate HasRank(s: seq<int>, k: int, v: int) {
    CountAtMost(s, v - 1) <= k < CountAtMost(s, v)
  }

  lemma {:induction false} CountMonotone(s: seq<int>, v: int, w: int)
    requires v <= w
    ensures CountAtMost(s, v) <= CountAtMost(s, w) <= |s|
  {
    if s != [] { CountMonotone(Init(s), v, w); }
  }

  // Ranks determine values, and higher ranks have no lower values.
  lemma RankMonotone(s: seq<int>, j: int, v: int, k: int, w: int)
    requires HasRank(s, j, v) && HasRank(s, k, w) && j <= k
    ensures v <= w && (j == k ==> v == w)
  {
    if w < v { CountMonotone(s, w, v - 1); }
    if v < w { CountMonotone(s, v, w - 1); }
  }

  lemma {:induction false} CountConcat(a: seq<int>, b: seq<int>, v: int)
    ensures CountAtMost(a + b, v) == CountAtMost(a, v) + CountAtMost(b, v)
  {
    if b == [] {
      assert a + b == a;
    } else {
      assert Init(a + b) == a + Init(b);
      CountConcat(a, Init(b), v);
    }
  }

  lemma CountCut(b: seq<int>, i: nat, v: int)
    requires i < |b|
    ensures CountAtMost(b, v) == CountAtMost(Cut(b, i), v) + (if b[i] <= v then 1 else 0)
    ensures multiset(Cut(b, i)) == multiset(b) - multiset{b[i]}
  {
    var front, back := b[..i], b[i + 1..];
    assert b == front + [b[i]] + back && Cut(b, i) == front + back;
    CountConcat(front + [b[i]], back, v);
    CountConcat(front, [b[i]], v);
    CountConcat(front, back, v);
    assert CountAtMost([b[i]], v) == if b[i] <= v then 1 else 0;
  }

  lemma InitBag(a: seq<int>)
    requires a != []
    ensures multiset(Init(a)) == multiset(a) - multiset{Last(a)}
  {
    assert a == Init(a) + [Last(a)];
  }

  lemma Where(a: seq<int>, b: seq<int>, x: int) returns (i: nat)
    requires multiset(a) == multiset(b) && x in a
    ensures i < |b| && b[i] == x
  {
    assert x in multiset(a);
    assert x in multiset(b);
    i :| 0 <= i < |b| && b[i] == x;
  }

  lemma {:induction false} CountPermutation(a: seq<int>, b: seq<int>, v: int)
    requires multiset(a) == multiset(b)
    ensures CountAtMost(a, v) == CountAtMost(b, v)
    decreases |a|
  {
    if a == [] {
      assert |multiset(b)| == |b|;
    } else {
      var x := Last(a);
      var i := Where(a, b, x);
      CountCut(b, i, v);
      InitBag(a);
      CountPermutation(Init(a), Cut(b, i), v);
    }
  }

  ghost predicate Sorted(s: seq<int>) {
    forall i, j :: 0 <= i < j < |s| ==> s[i] <= s[j]
  }

  lemma {:induction false} AllCounted(s: seq<int>, v: int)
    ensures (forall i :: 0 <= i < |s| ==> s[i] <= v) ==> CountAtMost(s, v) == |s|
    ensures (forall i :: 0 <= i < |s| ==> s[i] > v) ==> CountAtMost(s, v) == 0
  {
    if s != [] { AllCounted(Init(s), v); }
  }

  lemma SplitCount(front: seq<int>, back: seq<int>, v: int)
    ensures (forall i :: 0 <= i < |front| ==> front[i] <= v) ==> CountAtMost(front + back, v) >= |front|
    ensures (forall i :: 0 <= i < |back| ==> back[i] > v) ==> CountAtMost(front + back, v) <= |front|
  {
    CountConcat(front, back, v);
    CountMonotone(front, v, v);
    AllCounted(front, v);
    AllCounted(back, v);
  }

  lemma SortedRank(s: seq<int>, k: nat)
    requires Sorted(s) && k < |s|
    ensures HasRank(s, k, s[k])
  {
    assert s == s[..k + 1] + s[k + 1..] && s == s[..k] + s[k..];
    SplitCount(s[..k + 1], s[k + 1..], s[k]);
    SplitCount(s[..k], s[k..], s[k] - 1);
  }

  // ---------- The exchange sort ----------

  // Everything before i is in place.
  ghost predicate Settled(s: seq<int>, i: nat) {
    forall k, l :: 0 <= k < i && k < l < |s| ==> s[k] <= s[l]
  }

  method ExchangeSort(a: array<int>)
    modifies a
    ensures Sorted(a[..]) && multiset(a[..]) == multiset(old(a[..]))
  {
    var i := 0;
    while i < a.Length - 1
      invariant 0 <= i <= a.Length
      invariant Settled(a[..], i)
      invariant multiset(a[..]) == multiset(old(a[..]))
    {
      var j := i + 1;
      while j < a.Length
        invariant i < j <= a.Length
        invariant Settled(a[..], i)
        invariant forall l :: i < l < j ==> a[i] <= a[l]
        invariant multiset(a[..]) == multiset(old(a[..]))
      {
        if a[i] > a[j] {
          a[i], a[j] := a[j], a[i];
        }
        j := j + 1;
      }
      i := i + 1;
    }
  }

  // ---------- The statistics ----------

  class ResponseTimeStats {
    var times: seq<int>
    var totalTime: int
    var minTime: int
    var maxTime: int
    var count: int

    // The running fields agree with the whole list.
    ghost predicate Valid()
      reads this
    {
      && count == |times| && totalTime == Sum(times)
      && minTime == RunningMin(times) && maxTime == RunningMax(times)
    }

    constructor ()
      ensures Valid() && times == []
    {
      times := [];
      totalTime, minTime, maxTime, count := 0, 0, 0, 0;
    }

    method Add(duration: int)
      requires Valid()
      modifies this
      ensures Valid() && times == old(times) + [duration]
    {
      assert Init(times + [duration]) == times;
      SumAppend(times, duration);
      count := count + 1;
      totalTime := totalTime + duration;
      times := times + [duration];
      if minTime == 0 || duration < minTime {
        minTime := duration;
      }
      if duration > maxTime {
        maxTime := duration;
      }
    }

    method CalculatePercentiles() returns (p50: int, p95: int, p99: int)
      ensures times == [] ==> p50 == p95 == p99 == 0
      ensures times != [] ==>
        && HasRank(times, |times| * 50 / 100, p50)
        && HasRank(times, |times| * 95 / 100, p95)
        && HasRank(times, |times| * 99 / 100, p99)
    {
      if |times| == 0 {
        return 0, 0, 0;
      }
      var sorted := new int[|times|](i requires 0 <= i < |times| reads this => times[i]);
      assert sorted[..] == times;
      ExchangeSort(sorted);
      p50 := sorted[|times| * 50 / 100];
      p95 := sorted[|times| * 95 / 100];
      p99 := sorted[|times| * 99 / 100];
      Picked(times, sorted[..], |times| * 50 / 100);
      Picked(times, sorted[..], |times| * 95 / 100);
      Picked(times, sorted[..], |times| * 99 / 100);
    }
  }

  lemma Picked(times: seq<int>, sorted: seq<int>, k: nat)
    requires Sorted(sorted) && multiset(sorted) == multiset(times) && k < |sorted|
    ensures HasRank(times, k, sorted[k])
  {
    SortedRank(sorted, k);
    CountPermutation(sorted, times, sorted[k]);
    CountPermutation(sorted, times, sorted[k] - 1);
  }

  // The values of the three ranks lie in order between minimum and maximum.
  lemma PercentilesOrdered(s: seq<int>, p50: int, p95: int, p99: int, low: int, high: int)
    requires s != [] && IsMin(s, low) && IsMax(s, high)
    requires HasRank(s, |s| * 50 / 100, p50) && HasRank(s, |s| * 95 / 100, p95) && HasRank(s, |s| * 99 / 100, p99)
    ensures low <= p50 <= p95 <= p99 <= high
  {
    RankMonotone(s, |s| * 50 / 100, p50, |s| * 95 / 100, p95);
    RankMonotone(s, |s| * 95 / 100, p95, |s| * 99 / 100, p99);
    AllCounted(s, p50);
    AllCounted(s, p99 - 1);
  }

  // ---------- The benchmark runner's summary ----------

  lemma {:induction false} SumBounds(s: seq<int>, low: int, high: int)
    requires forall i :: 0 <= i < |s| ==> low <= s[i] <= high
    ensures |s| * low <= Sum(s) <= |s| * high
  {
    if s != [] {
      var n := |s| - 1;
      SumBounds(s[1..], low, high);
      assert (n + 1) * low == n * low + low && (n + 1) * high == n * high + high;
    }
  }

  lemma QuotientBounds(total: int, n: int, low: int, high: int)
    requires n > 0 && n * low <= total <= n * high
    ensures low <= total / n <= high
  {
    var q := total / n;
    assert total == n * q + total % n;
    if q < low { Grows(n, low, q); }
    if q > high { Grows(n, q, high); }
  }

  class BenchmarkResult {
    var successRequests: int
    var failedRequests: int
    var totalRequests: int
    var duration: real
    var qps: real
    var minResponseTime: int
    var maxResponseTime: int
    var avgResponseTime: int
    var p50ResponseTime: int
    var p95ResponseTime: int
    var p99ResponseTime: int
  }

  // What the machine makes of float64(n) * 0.5, 0.95 and 0.99.
  datatype Products = Products(p50: real, p95: real, p99: real)

  // A Go slice has at most 2^48 bytes.
  const MAX_LENGTH: nat := 0x2000_0000_0000

  ghost predicate Computed(n: nat, machine: Products) {
    FloatProduct(n, 0.5, machine.p50) && FloatProduct(n, 0.95, machine.p95) && FloatProduct(n, 0.99, machine.p99)
  }

  // The loop over the response times.
  method Summarize(times: seq<int>) returns (low: int, high: int, average: int)
    requires times != [] && forall i :: 0 <= i < |times| ==> 0 <= times[i] <= MAX_INT64
    ensures IsMin(times, low) && IsMax(times, high)
    ensures average == Sum(times) / |times| && low <= average <= high
  {
    var total := 0;
    low, high := MAX_INT64, 0;
    for i := 0 to |times|
      invariant total == Sum(times[..i])
      invariant if i == 0 then low == MAX_INT64 && high == 0 else IsMin(times[..i], low) && IsMax(times[..i], high)
    {
      var t := times[i];
      assert times[..i + 1] == times[..i] + [t];
      SumAppend(times[..i], t);
      total := total + t;
      if t < low {
        low := t;
      }
      if t > high {
        high := t;
      }
    }
    assert times[..|times|] == times;
    average := total / |times|;
    SumBounds(times, low, high);
    QuotientBounds(total, |times|, low, high);
  }

  lemma SomeComputed(n: nat) returns (machine: Products)
    requires n > 0
    ensures Computed(n, machine)
  {
    var p50 := SomeProduct(n, 0.5);
    var p95 := SomeProduct(n, 0.95);
    var p99 := SomeProduct(n, 0.99);
    machine := Products(p50, p95, p99);
  }

  // The percentiles of the sorted copy; an index out of range would leave the
  // field as it was.
  method Percentiles(times: seq<int>, machine: Products, old50: int, old95: int, old99: int)
    returns (p50: int, p95: int, p99: int)
    requires 0 < |times| <= MAX_LENGTH && Computed(|times|, machine)
    ensures HasRank(times, |times| * 50 / 100, p50)
    ensures HasRank(times, |times| * 95 / 100, p95)
    ensures HasRank(times, |times| * 99 / 100, p99)
  {
    var n := |times|;
    p50, p95, p99 := old50, old95, old99;
    var sortedTimes := new int[n](i requires 0 <= i < n => times[i]);
    assert sortedTimes[..] == times;
    ExchangeSort(sortedTimes);
    var p50Index, p95Index, p99Index := machine.p50.Floor, machine.p95.Floor, machine.p99.Floor;
    IndexIsRank(n, machine.p50, machine.p95, machine.p99);
    if p50Index < n {
      p50 := sortedTimes[p50Index];
    }
    if p95Index < n {
      p95 := sortedTimes[p95Index];
    }
    if p99Index < n {
      p99 := sortedTimes[p99Index];
    }
    Picked(times, sortedTimes[..], p50Index);
    Picked(times, sortedTimes[..], p95Index);
    Picked(times, sortedTimes[..], p99Index);
  }

  function Rate(requests: int, seconds: real): (r: real)
    requires seconds > 0.0
    ensures r * seconds == requests as real
  {
    requests as real / seconds
  }

  // What a result says of a non-empty list of response times.
  ghost predicate Summarizes(r: BenchmarkResult, times: seq<int>)
    reads r
  {
    && times != []
    && IsMin(times, r.minResponseTime) && IsMax(times, r.maxResponseTime)
    && r.avgResponseTime == Sum(times) / |times|
    && HasRank(times, |times| * 50 / 100, r.p50ResponseTime)
    && HasRank(times, |times| * 95 / 100, r.p95ResponseTime)
    && HasRank(times, |times| * 99 / 100, r.p99ResponseTime)
  }

  method CalculateStats(result: BenchmarkResult, times: seq<int>, machine: Products)
    requires times != [] ==> |times| <= MAX_LENGTH && Computed(|times|, machine)
    requires forall i :: 0 <= i < |times| ==> 0 <= times[i] <= MAX_INT64
    modifies result
    ensures times == [] ==> unchanged(result)
    ensures times != [] ==>
      && Summarizes(result, times)
      && result.minResponseTime <= result.p50ResponseTime <= result.p95ResponseTime
      && result.p95ResponseTime <= result.p99ResponseTime <= result.maxResponseTime
      && result.minResponseTime <= result.avgResponseTime <= result.maxResponseTime
      && result.totalRequests == old(result.successRequests) + old(result.failedRequests)
      && (if old(result.duration) > 0.0 then result.qps == Rate(result.totalRequests, old(result.duration))
          else result.qps == old(result.qps))
    ensures result.successRequests == old(result.successRequests) && result.failedRequests == old(result.failedRequests)
    ensures result.duration == old(result.duration)
  {
    var n := |times|;
    if n == 0 {
      return;
    }
    result.totalRequests := result.successRequests + result.failedRequests;
    if result.duration > 0.0 {
      result.qps := Rate(result.totalRequests, result.duration);
    }
    var low, high, average := Summarize(times);
    var p50, p95, p99 := Percentiles(times, machine, result.p50ResponseTime, result.p95ResponseTime, result.p99ResponseTime);
    PercentilesOrdered(times, p50, p95, p99, low, high);
    result.minResponseTime, result.maxResponseTime, result.avgResponseTime := low, high, average;
    result.p50ResponseTime, result.p95ResponseTime, result.p99ResponseTime := p50, p95, p99;
  }
}
