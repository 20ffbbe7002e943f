// The time wheel: tasks wait in the slot of the tick that launches them.
module TimeWheels {
  import opened Sequences
  import opened Modular

  // What is done to a wheel, in order.
  datatype Op<T> = Add(delayMs: int, task: T) | Tick

  datatype Wheel<T> = Wheel(current: nat, slots: seq<seq<T>>)

  // The wheel after a run, and what each tick of the run launched.
  datatype Trace<T> = Trace(wheel: Wheel<T>, batches: seq<seq<T>>)

  const DEFAULT_TICK_MS: int := 1000
  const DEFAULT_SIZE: int := 60

  // The whole ticks of a delay, at least one.
  function Ticks(delayMs: int, tickMs: int): (t: nat)
    requires delayMs > 0 && tickMs > 0
    ensures t >= 1
  {
    if delayMs / tickMs <= 0 then 1 else delayMs / tickMs
  }

  ghost predicate WellFormed<T>(w: Wheel<T>, size: int) {
    size > 0 && |w.slots| == size && w.current < size
  }

  ghost function Step<T>(tickMs: int, t: Trace<T>, op: Op<T>): (r: Trace<T>)
    requires tickMs > 0 && WellFormed(t.wheel, |t.wheel.slots|)
    ensures WellFormed(r.wheel, |t.wheel.slots|)
  {
    var w, size := t.wheel, |t.wheel.slots|;
    match op
    case Add(delayMs, task) =>
      if delayMs <= 0 then t else
      var pos := (w.current + Ticks(delayMs, tickMs)) % size;
      t.(wheel := w.(slots := w.slots[pos := w.slots[pos] + [task]]))
    case Tick =>
      Trace(Wheel((w.current + 1) % size, w.slots[w.current := []]), t.batches + [w.slots[w.current]])
  }

  ghost function Run<T>(tickMs: int, size: int, ops: seq<Op<T>>): (t: Trace<T>)
    requires tickMs > 0 && size > 0
    ensures WellFormed(t.wheel, size)
  {
    if ops == [] then Trace(Wheel(0, seq(size, _ => [])), [])
    else Step(tickMs, Run(tickMs, size, Init(ops)), Last(ops))
  }

  // ---------- The timetable ----------

  ghost function TickCount<T>(ops: seq<Op<T>>): nat {
    if ops == [] then 0 else TickCount(Init(ops)) + (if Last(ops).Tick? then 1 else 0)
  }

  datatype Entry<T> = Entry(task: T, due: nat)

  // The delayed tasks of a run in the order they were added, each with the
  // number of the tick that is to launch it.
  ghost function Timetable<T>(tickMs: int, size: int, ops: seq<Op<T>>): seq<Entry<T>>
    requires tickMs > 0 && size > 0
  {
    if ops == [] then []
    else Extended(tickMs, size, Timetable(tickMs, size, Init(ops)), TickCount(Init(ops)), Last(ops))
  }

  // The timetable after one more operation, now being the number of ticks so far.
  ghost function Extended<T>(tickMs: int, size: int, table: seq<Entry<T>>, now: nat, op: Op<T>): seq<Entry<T>>
    requires tickMs > 0 && size > 0
  {
    if op.Add? && op.delayMs > 0 then table + [Entry(op.task, now + Ticks(op.delayMs, tickMs) % size + 1)]
    else table
  }

  ghost function DueAt<T>(table: seq<Entry<T>>, tick: nat): seq<T> {
    if table == [] then []
    else DueAt(Init(table), tick) + (if Last(table).due == tick then [Last(table).task] else [])
  }

  lemma DueAtAppend<T>(table: seq<Entry<T>>, e: Entry<T>, tick: nat)
    ensures DueAt(table + [e], tick) == DueAt(table, tick) + (if e.due == tick then [e.task] else [])
  {
    assert Init(table + [e]) == table;
  }

  lemma {:induction false} NothingDue<T>(table: seq<Entry<T>>, tick: nat)
    requires forall i :: 0 <= i < |table| ==> table[i].due != tick
    ensures DueAt(table, tick) == []
  {
    if table != [] { NothingDue(Init(table), tick); }
  }

  // ---------- Slots ----------

  // The slot that comes round d ticks after the current one.
  ghost function Slot(current: nat, d: nat, size: int): (p: nat)
    requires current < size && d < size
    ensures p < size
  {
    if current + d < size then current + d else current + d - size
  }

  lemma SlotOf(current: nat, t: nat, size: int)
    requires current < size
    ensures (current + t) % size == Slot(current, t % size, size)
  {
    StepRemainder(current, t, size);
    Wraps(current + t % size, size);
  }

  // ---------- The invariant of a run ----------

  ghost predicate OnTime<T>(t: Trace<T>, table: seq<Entry<T>>, now: nat, size: int)
    requires WellFormed(t.wheel, size)
  {
    && |t.batches| == now
    && (forall n :: 1 <= n <= now ==> t.batches[n - 1] == DueAt(table, n))
    && (forall d :: 0 <= d < size ==> t.wheel.slots[Slot(t.wheel.current, d, size)] == DueAt(table, now + 1 + d))
    && (forall i :: 0 <= i < |table| ==> 1 <= table[i].due <= now + size)
  }

  // Adding a task to the slot that comes round d ticks from now.
  lemma AddToSlot<T>(t: Trace<T>, table: seq<Entry<T>>, now: nat, size: int, d: nat, task: T)
    requires WellFormed(t.wheel, size) && d < size && OnTime(t, table, now, size)
    ensures var pos, w := Slot(t.wheel.current, d, size), t.wheel;
            OnTime(t.(wheel := w.(slots := w.slots[pos := w.slots[pos] + [task]])),
                   table + [Entry(task, now + d + 1)], now, size)
  {
    var pos, w, e := Slot(t.wheel.current, d, size), t.wheel, Entry(task, now + d + 1);
    var slots := w.slots[pos := w.slots[pos] + [task]];
    forall n | 1 <= n <= now ensures t.batches[n - 1] == DueAt(table + [e], n) {
      DueAtAppend(table, e, n);
    }
    forall k | 0 <= k < size
      ensures slots[Slot(w.current, k, size)] == DueAt(table + [e], now + 1 + k)
    {
      DueAtAppend(table, e, now + 1 + k);
    }
  }

  lemma AddOnTime<T>(tickMs: int, t: Trace<T>, table: seq<Entry<T>>, now: nat, size: int, delayMs: int, task: T)
    requires tickMs > 0 && delayMs > 0 && WellFormed(t.wheel, size) && OnTime(t, table, now, size)
    ensures OnTime(Step(tickMs, t, Add(delayMs, task)),
                   table + [Entry(task, now + Ticks(delayMs, tickMs) % size + 1)], now, size)
  {
    SlotOf(t.wheel.current, Ticks(delayMs, tickMs), size);
    AddToSlot(t, table, now, size, Ticks(delayMs, tickMs) % size, task);
  }

  lemma TickOnTime<T>(tickMs: int, t: Trace<T>, table: seq<Entry<T>>, now: nat, size: int)
    requires tickMs > 0 && WellFormed(t.wheel, size) && OnTime(t, table, now, size)
    ensures OnTime(Step(tickMs, t, Tick), table, now + 1, size)
  {
    var w, r := t.wheel, Step(tickMs, t, Tick);
    Wraps(w.current + 1, size);
    forall n | 1 <= n <= now + 1 ensures r.batches[n - 1] == DueAt(table, n) {
      if n == now + 1 { assert Slot(w.current, 0, size) == w.current; }
    }
    forall d | 0 <= d < size
      ensures r.wheel.slots[Slot(r.wheel.current, d, size)] == DueAt(table, now + 2 + d)
    {
      if d < size - 1 {
        assert Slot(r.wheel.current, d, size) == Slot(w.current, d + 1, size) != w.current;
      } else {
        assert Slot(r.wheel.current, d, size) == w.current;
        NothingDue(table, now + 2 + d);
      }
    }
  }

  lemma StepOnTime<T>(tickMs: int, t: Trace<T>, table: seq<Entry<T>>, now: nat, size: int, op: Op<T>)
    requires tickMs > 0 && WellFormed(t.wheel, size) && OnTime(t, table, now, size)
    ensures OnTime(Step(tickMs, t, op), Extended(tickMs, size, table, now, op),
                   now + (if op.Tick? then 1 else 0), size)
  {
    match op
    case Tick => TickOnTime(tickMs, t, table, now, size);
    case Add(delayMs, task) =>
      if delayMs > 0 { AddOnTime(tickMs, t, table, now, size, delayMs, task); }
  }

  // Every tick of a run launches exactly the tasks the timetable has for it, in
  // the order they were added; and a task added with t ticks of delay is in the
  // timetable once, for the ((t mod size) + 1)-th tick after its adding.
  lemma {:induction false} RunOnTime<T>(tickMs: int, size: int, ops: seq<Op<T>>)
    requires tickMs > 0 && size > 0
    ensures OnTime(Run(tickMs, size, ops), Timetable(tickMs, size, ops), TickCount(ops), size)
  {
    if ops == [] {
      assert Timetable(tickMs, size, ops) == [];
    } else {
      var before := Init(ops);
      RunOnTime(tickMs, size, before);
      StepOnTime(tickMs, Run(tickMs, size, before), Timetable(tickMs, size, before), TickCount(before), size, Last(ops));
    }
  }

  // ---------- Delays in time ----------
  // Tick number n comes n * tickMs after the start.

  // The moments, in milliseconds, at which now ticks have passed.
  ghost predicate After(at: real, now: nat, tickMs: int) {
    (now * tickMs) as real <= at < ((now + 1) * tickMs) as real
  }

  // Whenever between two ticks a task is added, it waits for its whole delay.
  ghost predicate NeverEarly(due: nat, now: nat, delayMs: int, tickMs: int) {
    forall at: real :: After(at, now, tickMs) ==> (due * tickMs) as real - at >= delayMs as real
  }

  // The delay is less than a tick and the wheel has slots to spare, or it is a
  // whole number of ticks and less than a turn of the wheel.
  predicate Kept(delayMs: int, tickMs: int, size: int)
    requires tickMs > 0
  {
    || (delayMs < tickMs && size > 1)
    || (delayMs % tickMs == 0 && delayMs / tickMs < size)
  }

  lemma KeptTicks(delayMs: int, tickMs: int, size: int)
    requires delayMs > 0 && tickMs > 0 && size > 0
    ensures Ticks(delayMs, tickMs) % size * tickMs >= delayMs <==> Kept(delayMs, tickMs, size)
  {
    var q, r := delayMs / tickMs, delayMs % tickMs;
    assert delayMs == tickMs * q + r;
    if q == 0 {
      if size > 1 { Wraps(1, size); } else { Wraps(1, 1); }
    } else {
      assert q > 0 by { if q < 0 { Grows(tickMs, 0, q); } }
      if q < size {
        Wraps(q, size);
        assert q * tickMs == tickMs * q;
      } else {
        var d := q % size;
        assert d < q;
        Grows(tickMs, q, d);
        assert d * tickMs == tickMs * d;
      }
    }
  }

  // A task launched at the d + 1-th tick after its adding waits for more than d
  // ticks and for at most d + 1.
  lemma Waits(d: nat, now: nat, tickMs: int, delayMs: int)
    requires tickMs > 0
    ensures forall at: real :: After(at, now, tickMs) ==>
      (d * tickMs) as real < ((now + d + 1) * tickMs) as real - at <= ((d + 1) * tickMs) as real
    ensures NeverEarly(now + d + 1, now, delayMs, tickMs) <==> d * tickMs >= delayMs
  {
    assert (now + d + 1) * tickMs == (now + 1) * tickMs + d * tickMs;
    assert (now + d + 1) * tickMs == now * tickMs + (d + 1) * tickMs;
    if d * tickMs < delayMs {
      assert (now + 1) * tickMs == now * tickMs + tickMs;
      assert After(((now + 1) * tickMs) as real - 0.5, now, tickMs);
    }
  }

  // A task added after any run is in the timetable, and is never launched before
  // its delay is over if and only if the delay is one that the wheel keeps.
  lemma NeverEarlyExactly<T>(tickMs: int, size: int, before: seq<Op<T>>, delayMs: int, task: T)
    requires tickMs > 0 && size > 0 && delayMs > 0
    ensures var table := Timetable(tickMs, size, before + [Add(delayMs, task)]);
            && table != [] && Last(table).task == task
            && (NeverEarly(Last(table).due, TickCount(before), delayMs, tickMs) <==> Kept(delayMs, tickMs, size))
  {
    assert Init(before + [Add(delayMs, task)]) == before;
    var d := Ticks(delayMs, tickMs) % size;
    Waits(d, TickCount(before), tickMs, delayMs);
    KeptTicks(delayMs, tickMs, size);
  }

  lemma TurnPositive(tickMs: int, size: int)
    requires tickMs > 0 && size > 0
    ensures size * tickMs > 0
  {
    Product(size - 1, tickMs);
    assert size * tickMs == (size - 1) * tickMs + tickMs;
  }

  lemma DistributesTick(tickMs: int, size: int, turns: int, d: int)
    ensures tickMs * (size * turns + d) == size * tickMs * turns + d * tickMs
  {
  }

  lemma WithinTurn(tickMs: int, size: int, d: int, part: int)
    requires 0 <= d < size && 0 <= part < tickMs
    ensures 0 <= d * tickMs + part < size * tickMs
  {
    Product(d, tickMs);
    Grows(tickMs, size, d);
    assert tickMs * size == size * tickMs && tickMs * d == d * tickMs;
  }

  // Taking a delay apart into turns, ticks and the rest of a tick.
  lemma Parts(delayMs: int, turn: int, tickMs: int, turns: int, whole: int, d: int, part: int)
    requires turn > 0 && tickMs > 0 && whole == d * tickMs && 0 <= part < tickMs
    requires delayMs == turn * turns + (whole + part) && 0 <= whole + part < turn
    ensures delayMs % turn == whole + part && (whole + part) % tickMs == part
  {
    Unique(turn, turns, whole + part, delayMs / turn, delayMs % turn);
    Unique(tickMs, d, part, (whole + part) / tickMs, (whole + part) % tickMs);
  }

  // The whole ticks in what a delay leaves over after full turns of the wheel.
  lemma WholeTicks(delayMs: int, tickMs: int, size: int)
    requires delayMs >= tickMs > 0 && size > 0
    ensures size * tickMs > 0
    ensures var rest := delayMs % (size * tickMs);
            Ticks(delayMs, tickMs) % size * tickMs == rest - rest % tickMs
  {
    TurnPositive(tickMs, size);
    var q, part := delayMs / tickMs, delayMs % tickMs;
    if q <= 0 { Grows(tickMs, 1, q); }
    var turns, d := q / size, q % size;
    DistributesTick(tickMs, size, turns, d);
    WithinTurn(tickMs, size, d, part);
    Parts(delayMs, size * tickMs, tickMs, turns, d * tickMs, d, part);
  }

  lemma BelowTick(delayMs: int, tickMs: int, size: int)
    requires 0 < delayMs < tickMs && size > 0
    ensures Ticks(delayMs, tickMs) % size == if size > 1 then 1 else 0
  {
    Unique(tickMs, 0, delayMs, delayMs / tickMs, delayMs % tickMs);
    if size > 1 { Wraps(1, size); } else { Wraps(1, 1); }
  }

  // How many milliseconds of whole ticks a delay counts for.
  lemma Counted(delayMs: int, tickMs: int, size: int)
    requires delayMs > 0 && tickMs > 0 && size > 0
    ensures size * tickMs > 0
    ensures var counted, rest := Ticks(delayMs, tickMs) % size * tickMs, delayMs % (size * tickMs);
            && (delayMs >= tickMs ==> counted == rest - rest % tickMs)
            && (delayMs < size * tickMs ==> rest == delayMs)
            && (delayMs < tickMs ==> counted == if size > 1 then tickMs else 0)
  {
    TurnPositive(tickMs, size);
    if delayMs < size * tickMs { Wraps(delayMs, size * tickMs); }
    if delayMs >= tickMs {
      WholeTicks(delayMs, tickMs, size);
    } else {
      BelowTick(delayMs, tickMs, size);
    }
  }

  // When a task goes: within the tick after the whole ticks that count.
  lemma Launched<T>(tickMs: int, size: int, before: seq<Op<T>>, delayMs: int, task: T, at: real)
    requires tickMs > 0 && size > 0 && delayMs > 0 && After(at, TickCount(before), tickMs)
    ensures var table, counted :=
              Timetable(tickMs, size, before + [Add(delayMs, task)]), Ticks(delayMs, tickMs) % size * tickMs;
            && table != [] && Last(table).task == task
            && counted as real < (Last(table).due * tickMs) as real - at <= (counted + tickMs) as real
  {
    assert Init(before + [Add(delayMs, task)]) == before;
    var d := Ticks(delayMs, tickMs) % size;
    Waits(d, TickCount(before), tickMs, delayMs);
    assert (d + 1) * tickMs == d * tickMs + tickMs;
  }

  // A delay of at least a tick counts without full turns of the wheel and without
  // what is over a whole number of ticks: for less than a turn, the task goes
  // between a tick less and a tick more than its delay. A delay below a tick counts
  // as one tick, on a wheel of one slot as none.
  lemma LaunchWindow<T>(tickMs: int, size: int, before: seq<Op<T>>, delayMs: int, task: T, at: real)
    requires tickMs > 0 && size > 0 && delayMs > 0 && After(at, TickCount(before), tickMs)
    ensures size * tickMs > 0
    ensures var table := Timetable(tickMs, size, before + [Add(delayMs, task)]);
            table != [] && Last(table).task == task &&
            var wait, rest := (Last(table).due * tickMs) as real - at, delayMs % (size * tickMs);
            && (delayMs >= tickMs ==> (rest - rest % tickMs) as real < wait <= (rest - rest % tickMs + tickMs) as real)
            && (delayMs >= tickMs ==> (rest - tickMs) as real < wait <= (rest + tickMs) as real)
            && (tickMs <= delayMs < size * tickMs ==>
                  (delayMs - tickMs) as real < wait <= (delayMs + tickMs) as real)
            && (delayMs < tickMs && size > 1 ==> tickMs as real < wait <= (2 * tickMs) as real)
            && (delayMs < tickMs && size == 1 ==> 0.0 < wait <= tickMs as real)
  {
    Counted(delayMs, tickMs, size);
    Launched(tickMs, size, before, delayMs, task, at);
  }

  // With a tick of a second and a minute's turn, 1999 milliseconds asked for at
  // 999 are over at 2000.
  lemma AlmostTwoSeconds<T>(task: T)
    ensures !Kept(1999, 1000, 60) && After(999.0, 0, 1000)
    ensures var table := Timetable(1000, 60, [Add(1999, task)]);
            table == [Entry(task, 2)] && (Last(table).due * 1000) as real - 999.0 == 1001.0
  {
    assert Init([Add(1999, task)]) == [];
  }

  // ---------- No task is lost or launched twice ----------

  // How often a task occurs in a list of slots or batches.
  ghost function Count<T>(ss: seq<seq<T>>, x: T): nat {
    if ss == [] then 0 else multiset(ss[0])[x] + Count(ss[1..], x)
  }

  lemma {:induction false} CountUpdate<T>(s: seq<seq<T>>, i: nat, slot: seq<T>, x: T)
    requires i < |s|
    ensures Count(s[i := slot], x) == Count(s, x) - multiset(s[i])[x] + multiset(slot)[x]
  {
    if i == 0 {
      assert s[i := slot][1..] == s[1..];
    } else {
      assert s[i := slot][1..] == s[1..][i - 1 := slot];
      CountUpdate(s[1..], i - 1, slot, x);
    }
  }

  lemma {:induction false} CountAppend<T>(s: seq<seq<T>>, batch: seq<T>, x: T)
    ensures Count(s + [batch], x) == Count(s, x) + multiset(batch)[x]
  {
    if s == [] {
      assert s + [batch] == [batch];
    } else {
      assert (s + [batch])[1..] == s[1..] + [batch];
      CountAppend(s[1..], batch, x);
    }
  }

  lemma {:induction false} CountEmpty<T>(s: seq<seq<T>>, x: T)
    requires forall i :: 0 <= i < |s| ==> s[i] == []
    ensures Count(s, x) == 0
  {
    if s != [] { CountEmpty(s[1..], x); }
  }

  // How often a task is added with a delay in a run.
  ghost function AddCount<T>(ops: seq<Op<T>>, x: T): nat {
    if ops == [] then 0 else AddCount(Init(ops), x) + Adds(Last(ops), x)
  }

  ghost function Adds<T>(op: Op<T>, x: T): nat {
    if op.Add? && op.delayMs > 0 && op.task == x then 1 else 0
  }

  lemma StepConserves<T>(tickMs: int, t: Trace<T>, op: Op<T>, x: T)
    requires tickMs > 0 && WellFormed(t.wheel, |t.wheel.slots|)
    ensures var r := Step(tickMs, t, op);
            Count(r.batches, x) + Count(r.wheel.slots, x) == Count(t.batches, x) + Count(t.wheel.slots, x) + Adds(op, x)
  {
    var w := t.wheel;
    match op
    case Tick =>
      CountUpdate(w.slots, w.current, [], x);
      CountAppend(t.batches, w.slots[w.current], x);
    case Add(delayMs, task) =>
      if delayMs > 0 {
        var pos := (w.current + Ticks(delayMs, tickMs)) % |w.slots|;
        CountUpdate(w.slots, pos, w.slots[pos] + [task], x);
      }
  }

  // Every task is launched or waiting as often as it was added.
  lemma {:induction false} Conservation<T>(tickMs: int, size: int, ops: seq<Op<T>>, x: T)
    requires tickMs > 0 && size > 0
    ensures var t := Run(tickMs, size, ops); Count(t.batches, x) + Count(t.wheel.slots, x) == AddCount(ops, x)
  {
    if ops == [] {
      CountEmpty(Run(tickMs, size, ops).wheel.slots, x);
    } else {
      Conservation(tickMs, size, Init(ops), x);
      StepConserves(tickMs, Run(tickMs, size, Init(ops)), Last(ops), x);
    }
  }

  // ---------- The wheel ----------

  lemma RunExtends<T>(tickMs: int, size: int, ops: seq<Op<T>>, op: Op<T>)
    requires tickMs > 0 && size > 0
    ensures Run(tickMs, size, ops + [op]) == Step(tickMs, Run(tickMs, size, ops), op)
    ensures TickCount(ops + [op]) == TickCount(ops) + (if op.Tick? then 1 else 0)
    ensures op.Tick? ==> Timetable(tickMs, size, ops + [op]) == Timetable(tickMs, size, ops)
  {
    assert Init(ops + [op]) == ops;
  }

  class TimeWheel<T> {
    const tickMs: int
    const wheelSize: int
    var current: nat
    var wheel: array<seq<T>>

    ghost var history: seq<Op<T>>

    ghost predicate Valid()
      reads this, wheel
    {
      && tickMs > 0 && wheelSize > 0 && wheel.Length == wheelSize
      && Run(tickMs, wheelSize, history).wheel == Wheel(current, wheel[..])
    }

    constructor (tickMs: int, wheelSize: int)
      ensures Valid() && fresh(wheel) && history == []
      ensures this.tickMs == (if tickMs <= 0 then 1000 else tickMs)
      ensures this.wheelSize == (if wheelSize <= 0 then 60 else wheelSize)
    {
      this.tickMs := if tickMs <= 0 then DEFAULT_TICK_MS else tickMs;
      this.wheelSize := if wheelSize <= 0 then DEFAULT_SIZE else wheelSize;
      current := 0;
      wheel := new seq<T>[if wheelSize <= 0 then DEFAULT_SIZE else wheelSize](_ => []);
      history := [];
    }

    // A task without delay is launched at once; any other goes into a slot.
    method AddTask(delayMs: int, task: T) returns (launched: seq<T>)
      requires Valid()
      modifies this`history, wheel
      ensures Valid() && history == old(history) + [Add(delayMs, task)]
      ensures launched == if delayMs <= 0 then [task] else []
    {
      RunExtends(tickMs, wheelSize, history, Add(delayMs, task));
      history := history + [Add(delayMs, task)];
      if delayMs <= 0 {
        return [task];
      }
      var ticks := delayMs / tickMs;
      if ticks <= 0 {
        ticks := 1;
      }
      var pos := (current + ticks) % wheelSize;
      wheel[pos] := wheel[pos] + [task];
      return [];
    }

    // A tick launches what the timetable of all that was added has for it.
    method DoTick() returns (launched: seq<T>)
      requires Valid()
      modifies this`history, this`current, wheel
      ensures Valid() && history == old(history) + [Tick]
      ensures launched == DueAt(Timetable(tickMs, wheelSize, old(history)), TickCount(old(history)) + 1)
    {
      RunExtends(tickMs, wheelSize, history, Tick);
      RunOnTime(tickMs, wheelSize, history);
      assert Slot(current, 0, wheelSize) == current;
      history := history + [Tick];
      launched := wheel[current];
      wheel[current] := [];
      current := (current + 1) % wheelSize;
    }
  }
}
