// The manager has no lock: the level calls of its operations interleave. This is
// one key of the two levels, both enabled and working, with any number of
// operations on it; a Clear is a Delete of every key.
module CacheRaces {
  import opened Wrappers
  import CacheLevels

  type Value = CacheLevels.Value

  datatype Cell = Cell(l1: Option<Value>, l2: Option<Value>)

  datatype Call = Get | Set(value: Value) | Delete

  // Where an operation stands between two level calls.
  datatype Phase =
    | Fresh
    | Missed           // a Get that has not found the key in L1
    | Found(value: Value)  // a Get that has found it in L2 and is to copy it into L1
    | Half             // a write that has reached L1
    | Finished

  datatype Process = Process(call: Call, phase: Phase)

  function Step(c: Cell, p: Process): (Cell, Phase) {
    match (p.call, p.phase)
    case (Get, Fresh) => if c.l1.Some? then (c, Finished) else (c, Missed)
    case (Get, Missed) => if c.l2.Some? then (c, Found(c.l2.value)) else (c, Finished)
    case (Get, Found(v)) => (c.(l1 := Some(v)), Finished)
    case (Set(v), Fresh) => (c.(l1 := Some(v)), Half)
    case (Set(v), Half) => (c.(l2 := Some(v)), Finished)
    case (Delete, Fresh) => (c.(l1 := None), Half)
    case (Delete, Half) => (c.(l2 := None), Finished)
    case _ => (c, Finished)
  }

  datatype System = System(cell: Cell, procs: seq<Process>)

  // A move is a level call of one operation, or None for an eviction from L1.
  type Move = Option<nat>

  ghost predicate CanMove(s: System, schedule: seq<Move>) {
    forall i :: 0 <= i < |schedule| && schedule[i].Some? ==> schedule[i].value < |s.procs|
  }

  function Next(s: System, move: Move): (t: System)
    requires move.Some? ==> move.value < |s.procs|
    ensures |t.procs| == |s.procs|
  {
    match move
    case None => s.(cell := s.cell.(l1 := None))
    case Some(i) =>
      var (cell, phase) := Step(s.cell, s.procs[i]);
      System(cell, s.procs[i := Process(s.procs[i].call, phase)])
  }

  function Execute(s: System, schedule: seq<Move>): (t: System)
    requires forall m :: m in schedule && m.Some? ==> m.value < |s.procs|
    ensures |t.procs| == |s.procs|
    decreases |schedule|
  {
    if schedule == [] then s else Execute(Next(s, schedule[0]), schedule[1..])
  }

  function Start(c: Cell, calls: seq<Call>): (s: System)
    ensures s.cell == c && |s.procs| == |calls|
    ensures forall i :: 0 <= i < |calls| ==> s.procs[i] == Process(calls[i], Fresh)
  {
    System(c, seq(|calls|, i requires 0 <= i < |calls| => Process(calls[i], Fresh)))
  }

  ghost predicate AllFinished(s: System) {
    forall i :: 0 <= i < |s.procs| ==> s.procs[i].phase.Finished?
  }

  predicate Coherent(c: Cell) {
    c.l1.Some? ==> c.l2 == c.l1
  }

  // ---------- Batches that cannot go wrong ----------

  ghost predicate SomeGet(calls: seq<Call>) {
    exists i :: 0 <= i < |calls| && calls[i].Get?
  }

  // All writes are this one.
  ghost predicate OnlyWrite(calls: seq<Call>, write: Call) {
    forall i :: 0 <= i < |calls| ==> calls[i].Get? || calls[i] == write
  }

  // What L2 ends up with after a write.
  function Left(write: Call): Option<Value> {
    if write.Set? then Some(write.value) else None
  }

  // All writes do the same, and no Get can have read anything else before them.
  ghost predicate Uniform(c: Cell, calls: seq<Call>, write: Call) {
    !write.Get? && OnlyWrite(calls, write) && (SomeGet(calls) ==> c.l2.None? || c.l2 == Left(write))
  }

  ghost predicate NoWrite(calls: seq<Call>) {
    forall i :: 0 <= i < |calls| ==> calls[i].Get?
  }

  ghost predicate Safe(c: Cell, calls: seq<Call>) {
    NoWrite(calls) || exists write :: Uniform(c, calls, write)
  }

  // ---------- What a safe batch keeps ----------

  ghost predicate HasCalls(s: System, calls: seq<Call>) {
    |s.procs| == |calls| && forall i :: 0 <= i < |calls| ==> s.procs[i].call == calls[i]
  }

  ghost predicate ReadKeeps(s: System) {
    && Coherent(s.cell)
    && forall i :: 0 <= i < |s.procs| ==>
         s.procs[i].call.Get? && (s.procs[i].phase.Found? ==> s.cell.l2 == Some(s.procs[i].phase.value))
  }

  // A write is under way or done, or nothing has changed yet.
  ghost predicate WriteKeeps(s: System, write: Call) {
    && (Started(s) || Coherent(s.cell))
    && (Started(s) ==> s.cell.l1.Some? ==> s.cell.l1 == Left(write))
    && (forall i :: 0 <= i < |s.procs| ==> ProcessKeeps(s, s.procs[i], write))
  }

  // Some write has begun.
  ghost predicate Started(s: System) {
    exists i :: 0 <= i < |s.procs| && !s.procs[i].call.Get? && !s.procs[i].phase.Fresh?
  }

  ghost predicate ProcessKeeps(s: System, p: Process, write: Call) {
    if p.call.Get? then
      && (s.cell.l2.None? || s.cell.l2 == Left(write))
      && (s.cell.l1.None? || s.cell.l1 == Left(write))
      && (p.phase.Found? ==> Some(p.phase.value) == Left(write) && (Started(s) || s.cell.l2 == Left(write)))
    else
      && p.call == write && !p.phase.Missed? && !p.phase.Found?
      && (p.phase.Finished? ==> s.cell.l2 == Left(write))
  }

  lemma ReadNext(s: System, move: Move)
    requires (move.Some? ==> move.value < |s.procs|) && ReadKeeps(s)
    ensures ReadKeeps(Next(s, move))
  {
  }

  lemma StartedNext(s: System, i: nat)
    requires i < |s.procs| && (Started(s) || (!s.procs[i].call.Get? && !Step(s.cell, s.procs[i]).1.Fresh?))
    ensures Started(Next(s, Some(i)))
  {
    var t := Next(s, Some(i));
    if Started(s) {
      var k :| 0 <= k < |s.procs| && !s.procs[k].call.Get? && !s.procs[k].phase.Fresh?;
      assert !t.procs[k].call.Get? && !t.procs[k].phase.Fresh?;
    } else {
      assert !t.procs[i].call.Get? && !t.procs[i].phase.Fresh?;
    }
  }

  lemma WriteNext(s: System, i: nat, write: Call)
    requires i < |s.procs| && !write.Get? && WriteKeeps(s, write)
    ensures WriteKeeps(Next(s, Some(i)), write)
  {
    var t := Next(s, Some(i));
    assert ProcessKeeps(s, s.procs[i], write);
    if Started(s) || !s.procs[i].call.Get? {
      StartedNext(s, i);
    } else {
      assert !Started(t);
    }
    forall k | 0 <= k < |t.procs| ensures ProcessKeeps(t, t.procs[k], write) {
      assert ProcessKeeps(s, s.procs[k], write);
    }
  }

  lemma WriteEvict(s: System, write: Call)
    requires WriteKeeps(s, write)
    ensures WriteKeeps(Next(s, None), write)
  {
    var t := Next(s, None);
    assert Started(s) <==> Started(t);
    forall k | 0 <= k < |t.procs| ensures ProcessKeeps(t, t.procs[k], write) {
      assert ProcessKeeps(s, s.procs[k], write);
    }
  }

  lemma {:induction false} ReadRun(s: System, schedule: seq<Move>)
    requires CanMove(s, schedule) && ReadKeeps(s)
    ensures ReadKeeps(Execute(s, schedule))
    decreases |schedule|
  {
    if schedule != [] {
      ReadNext(s, schedule[0]);
      assert forall i :: 0 <= i < |schedule| - 1 ==> schedule[1..][i] == schedule[i + 1];
      ReadRun(Next(s, schedule[0]), schedule[1..]);
    }
  }

  lemma {:induction false} WriteRun(s: System, schedule: seq<Move>, write: Call)
    requires CanMove(s, schedule) && !write.Get? && WriteKeeps(s, write)
    ensures WriteKeeps(Execute(s, schedule), write)
    decreases |schedule|
  {
    if schedule != [] {
      if schedule[0].Some? {
        WriteNext(s, schedule[0].value, write);
      } else {
        WriteEvict(s, write);
      }
      assert forall i :: 0 <= i < |schedule| - 1 ==> schedule[1..][i] == schedule[i + 1];
      WriteRun(Next(s, schedule[0]), schedule[1..], write);
    }
  }

  lemma WriteStart(c: Cell, calls: seq<Call>, write: Call)
    requires Coherent(c) && Uniform(c, calls, write)
    ensures WriteKeeps(Start(c, calls), write)
  {
    var s := Start(c, calls);
    assert !Started(s);
    forall k | 0 <= k < |s.procs| ensures ProcessKeeps(s, s.procs[k], write) {
      assert calls[k].Get? ==> SomeGet(calls);
    }
  }

  lemma WriteEnd(s: System, write: Call)
    requires WriteKeeps(s, write) && AllFinished(s)
    ensures Coherent(s.cell)
  {
    if Started(s) {
      var k :| 0 <= k < |s.procs| && !s.procs[k].call.Get? && !s.procs[k].phase.Fresh?;
      assert ProcessKeeps(s, s.procs[k], write);
    }
  }

  // A schedule that runs every operation to its end and leaves the levels coherent.
  ghost predicate EndsWell(c: Cell, calls: seq<Call>, schedule: seq<Move>) {
    CanMove(Start(c, calls), schedule) && AllFinished(Execute(Start(c, calls), schedule)) ==>
      Coherent(Execute(Start(c, calls), schedule).cell)
  }

  lemma SafeEndsWell(c: Cell, calls: seq<Call>, schedule: seq<Move>)
    requires Coherent(c) && Safe(c, calls)
    ensures EndsWell(c, calls, schedule)
  {
    var s := Start(c, calls);
    if CanMove(s, schedule) && AllFinished(Execute(s, schedule)) {
      if NoWrite(calls) {
        ReadRun(s, schedule);
      } else {
        var write :| Uniform(c, calls, write);
        WriteStart(c, calls, write);
        WriteRun(s, schedule, write);
        WriteEnd(Execute(s, schedule), write);
      }
    }
  }

  // ---------- Races ----------

  lemma {:induction false} ExecuteConcat(s: System, first: seq<Move>, second: seq<Move>)
    requires CanMove(s, first) && CanMove(s, second)
    ensures CanMove(s, first + second)
    ensures Execute(s, first + second) == Execute(Execute(s, first), second)
    decreases |first|
  {
    if first == [] {
      assert first + second == second;
    } else {
      var t := Next(s, first[0]);
      assert (first + second)[1..] == first[1..] + second;
      ExecuteConcat(t, first[1..], second);
    }
  }

  // One operation on its own, from start to end.
  function Whole(c: Cell, call: Call): Cell {
    match call
    case Get => if c.l1.None? && c.l2.Some? then Cell(c.l2, c.l2) else c
    case Set(v) => Cell(Some(v), Some(v))
    case Delete => Cell(None, None)
  }

  lemma Run1(s: System, m: Move)
    requires m.Some? ==> m.value < |s.procs|
    ensures Execute(s, [m]) == Next(s, m)
  {
    assert [m][1..] == [];
  }

  lemma Run2(s: System, m: Move, n: Move)
    requires (m.Some? ==> m.value < |s.procs|) && (n.Some? ==> n.value < |s.procs|)
    ensures Execute(s, [m, n]) == Next(Next(s, m), n)
  {
    assert [m, n][1..] == [n];
    Run1(Next(s, m), n);
  }

  lemma Run3(s: System, m: Move, n: Move, o: Move)
    requires (m.Some? ==> m.value < |s.procs|) && (n.Some? ==> n.value < |s.procs|)
    requires o.Some? ==> o.value < |s.procs|
    ensures Execute(s, [m, n, o]) == Next(Next(Next(s, m), n), o)
  {
    assert [m, n, o][1..] == [n, o];
    Run2(Next(s, m), n, o);
  }

  function Done(s: System, i: nat): System
    requires i < |s.procs|
  {
    System(Whole(s.cell, s.procs[i].call), s.procs[i := Process(s.procs[i].call, Finished)])
  }

  // Three moves finish an operation.
  lemma FinishOne(s: System, i: nat)
    requires i < |s.procs| && s.procs[i].phase.Fresh?
    ensures Execute(s, [Some(i), Some(i), Some(i)]) == Done(s, i)
  {
    Run3(s, Some(i), Some(i), Some(i));
    var one := Next(s, Some(i));
    var two := Next(one, Some(i));
    var three := Next(two, Some(i));
    assert one.procs[i] == Process(s.procs[i].call, Step(s.cell, s.procs[i]).1);
    assert two.procs[i] == Process(s.procs[i].call, Step(one.cell, one.procs[i]).1);
    assert three.procs[i] == Process(s.procs[i].call, Finished);
    assert three.procs == s.procs[i := Process(s.procs[i].call, Finished)];
  }

  // Every operation but these two.
  ghost predicate Others(s: System, t: System, a: nat, b: nat, n: nat) {
    && |t.procs| == |s.procs| && n <= |s.procs|
    && (forall i :: 0 <= i < n && i != a && i != b ==> t.procs[i] == Process(s.procs[i].call, Finished))
    && forall i :: 0 <= i < |s.procs| && (i >= n || i == a || i == b) ==> t.procs[i] == s.procs[i]
  }

  // The first n operations, but for a and b, can be run one after the other.
  lemma {:induction false} FinishOthers(s: System, a: nat, b: nat, n: nat) returns (schedule: seq<Move>)
    requires n <= |s.procs| && forall i :: 0 <= i < n && i != a && i != b ==> s.procs[i].phase.Fresh?
    ensures CanMove(s, schedule) && Others(s, Execute(s, schedule), a, b, n)
  {
    if n == 0 {
      schedule := [];
    } else {
      schedule := FinishOthers(s, a, b, n - 1);
      var i := n - 1;
      if i != a && i != b {
        var turn := [Some(i), Some(i), Some(i)];
        FinishOne(Execute(s, schedule), i);
        ExecuteConcat(s, schedule, turn);
        schedule := schedule + turn;
      }
    }
  }

  // Two writes that end differently, a begun before b and finished after it.
  lemma WritesRace(s: System, a: nat, b: nat)
    requires a < |s.procs| && b < |s.procs| && a != b
    requires s.procs[a].phase.Fresh? && s.procs[b].phase.Fresh?
    requires !s.procs[a].call.Get? && s.procs[b].call.Set? && s.procs[a].call != s.procs[b].call
    ensures var t := Execute(s, [Some(a), Some(b), Some(b)] + [Some(a)]);
            && t.cell == Cell(Left(s.procs[b].call), Left(s.procs[a].call))
            && t.procs == s.procs[a := Process(s.procs[a].call, Finished)][b := Process(s.procs[b].call, Finished)]
  {
    var first, second := [Some(a), Some(b), Some(b)], [Some(a)];
    ExecuteConcat(s, first, second);
    Run3(s, Some(a), Some(b), Some(b));
    Run1(Execute(s, first), Some(a));
    var one := Next(s, Some(a));
    var two := Next(one, Some(b));
    var three := Next(two, Some(b));
    var four := Next(three, Some(a));
    assert one.procs[a] == Process(s.procs[a].call, Half) && one.procs[b] == s.procs[b];
    assert two.procs[b] == Process(s.procs[b].call, Half) && two.procs[a] == one.procs[a];
    assert three.procs[b] == Process(s.procs[b].call, Finished) && three.procs[a] == one.procs[a];
    assert four.cell == Cell(Left(s.procs[b].call), Left(s.procs[a].call));
    assert four.procs == s.procs[a := Process(s.procs[a].call, Finished)][b := Process(s.procs[b].call, Finished)];
  }

  // A Get g that has found a value, and a write w that ends with something else: the
  // write runs, and then the Get copies what it found.
  lemma ReadRace(s: System, g: nat, w: nat)
    requires g < |s.procs| && w < |s.procs| && g != w
    requires s.procs[g].call.Get? && s.procs[g].phase.Found?
    requires !s.procs[w].call.Get? && s.procs[w].phase.Fresh?
    ensures var t := Execute(s, [Some(w), Some(w), Some(g)]);
            && t.cell == Cell(Some(s.procs[g].phase.value), Left(s.procs[w].call))
            && t.procs == s.procs[w := Process(s.procs[w].call, Finished)][g := Process(Get, Finished)]
  {
    Run3(s, Some(w), Some(w), Some(g));
    var one := Next(s, Some(w));
    var two := Next(one, Some(w));
    var three := Next(two, Some(g));
    assert one.procs[w] == Process(s.procs[w].call, Half) && one.procs[g] == s.procs[g];
    assert two.procs[w] == Process(s.procs[w].call, Finished) && two.procs[g] == s.procs[g];
    assert three.procs == s.procs[w := Process(s.procs[w].call, Finished)][g := Process(Get, Finished)];
  }

  // The Get finds the value when L1 drops the key before it.
  lemma ReadAhead(s: System, g: nat)
    requires g < |s.procs| && s.procs[g] == Process(Get, Fresh) && s.cell.l2.Some?
    ensures Execute(s, [None, Some(g), Some(g)]) ==
            System(Cell(None, s.cell.l2), s.procs[g := Process(Get, Found(s.cell.l2.value))])
  {
    Run3(s, None, Some(g), Some(g));
    var one := Next(s, None);
    var two := Next(one, Some(g));
    var three := Next(two, Some(g));
    assert two.procs[g] == Process(Get, Missed);
    assert three.procs == s.procs[g := Process(Get, Found(s.cell.l2.value))];
  }

  lemma RaceOfWrites(c: Cell, calls: seq<Call>, a: nat, b: nat) returns (schedule: seq<Move>)
    requires a < |calls| && b < |calls| && calls[a] != calls[b]
    requires !calls[a].Get? && calls[b].Set?
    ensures !EndsWell(c, calls, schedule)
  {
    var s := Start(c, calls);
    var before := FinishOthers(s, a, b, |calls|);
    var t := Execute(s, before);
    var race := [Some(a), Some(b), Some(b)] + [Some(a)];
    WritesRace(t, a, b);
    ExecuteConcat(s, before, race);
    schedule := before + race;
    var u := Execute(s, schedule);
    forall i | 0 <= i < |u.procs| ensures u.procs[i].phase.Finished? {
    }
  }

  lemma RaceOfRead(c: Cell, calls: seq<Call>, g: nat, w: nat) returns (schedule: seq<Move>)
    requires g < |calls| && w < |calls| && calls[g].Get? && !calls[w].Get?
    requires c.l2.Some? && c.l2 != Left(calls[w])
    ensures !EndsWell(c, calls, schedule)
  {
    var s := Start(c, calls);
    var ahead := [None, Some(g), Some(g)];
    ReadAhead(s, g);
    var r := Execute(s, ahead);
    var between := FinishOthers(r, g, w, |calls|);
    var t := Execute(r, between);
    var race := [Some(w), Some(w), Some(g)];
    ReadRace(t, g, w);
    ExecuteConcat(s, ahead, between);
    ExecuteConcat(s, ahead + between, race);
    schedule := ahead + between + race;
    var u := Execute(s, schedule);
    forall i | 0 <= i < |u.procs| ensures u.procs[i].phase.Finished? {
    }
  }

  lemma UnsafeRaces(c: Cell, calls: seq<Call>) returns (schedule: seq<Move>)
    requires !Safe(c, calls)
    ensures !EndsWell(c, calls, schedule)
  {
    var a :| 0 <= a < |calls| && !calls[a].Get?;
    if OnlyWrite(calls, calls[a]) {
      assert !Uniform(c, calls, calls[a]);
      var g :| 0 <= g < |calls| && calls[g].Get?;
      schedule := RaceOfRead(c, calls, g, a);
    } else {
      var b :| 0 <= b < |calls| && !calls[b].Get? && calls[b] != calls[a];
      if calls[b].Set? {
        schedule := RaceOfWrites(c, calls, a, b);
      } else {
        schedule := RaceOfWrites(c, calls, b, a);
      }
    }
  }

  // Every interleaving of the level calls of a batch of operations on a key, with
  // evictions at any moment, ends with coherent levels if and only if the batch has
  // no write, or all its writes do the same and, when it has a Get too, L2 held
  // nothing else before.
  lemma RacesExactly(c: Cell, calls: seq<Call>)
    requires Coherent(c)
    ensures (forall schedule: seq<Move> :: EndsWell(c, calls, schedule)) <==> Safe(c, calls)
  {
    if Safe(c, calls) {
      forall schedule: seq<Move> ensures EndsWell(c, calls, schedule) { SafeEndsWell(c, calls, schedule); }
    } else {
      var schedule := UnsafeRaces(c, calls);
    }
  }

  // ---------- One after the other ----------

  // The key k of the two levels.
  function At(s: CacheLevels.Levels, k: CacheLevels.Key): Cell {
    Cell(CacheLevels.Find(s.l1, k), CacheLevels.Find(s.l2, k))
  }

  // The manager's operations are these when nothing comes between their calls,
  // and leave the other keys alone.
  lemma WholeIsOperation(s: CacheLevels.Levels, k: CacheLevels.Key, v: Value, other: CacheLevels.Key)
    requires s.l1.Some? && s.l2.Some? && other != k
    ensures At(CacheLevels.Get(s, k, CacheLevels.HEALTHY).1, k) == Whole(At(s, k), Get)
    ensures At(CacheLevels.Set(s, k, v, CacheLevels.HEALTHY), k) == Whole(At(s, k), Set(v))
    ensures At(CacheLevels.Delete(s, k, CacheLevels.HEALTHY), k) == Whole(At(s, k), Delete)
    ensures At(CacheLevels.Clear(s, CacheLevels.HEALTHY), k) == Whole(At(s, k), Delete)
    ensures At(CacheLevels.Get(s, k, CacheLevels.HEALTHY).1, other) == At(s, other)
    ensures At(CacheLevels.Set(s, k, v, CacheLevels.HEALTHY), other) == At(s, other)
    ensures At(CacheLevels.Delete(s, k, CacheLevels.HEALTHY), other) == At(s, other)
  {
  }

  lemma CoherentIsEverywhere(s: CacheLevels.Levels)
    requires s.l1.Some? && s.l2.Some?
    ensures CacheLevels.Coherent(s) <==> forall k :: Coherent(At(s, k))
  {
    if CacheLevels.Coherent(s) {
      forall k ensures Coherent(At(s, k)) {
      }
    } else {
      var k :| k in s.l1.value && !(k in s.l2.value && s.l2.value[k] == s.l1.value[k]);
      assert !Coherent(At(s, k));
    }
  }
}
