// Quantities game by game: when transfers conserve them, and when they do not,
// because a row without a game may be added to a row of any game.
module GameStock {
  import opened Wrappers
  import opened ItemStore
  import opened Transfer

  // Items of one name and type in one game; the empty game id stands for none.
  predicate InGame(a: Attrs, gameId: string, name: string, itemType: string) {
    a.gameId == gameId && a.name == name && a.itemType == itemType
  }

  function OfGame(gameId: string, name: string, itemType: string): Selection {
    (u, a: Attrs) => InGame(a, gameId, name, itemType)
  }

  // ---------- One transfer ----------

  // A successful transfer keeps the quantity of a game if and only if it does not
  // add what it took from a row without a game to a row of that game.
  lemma SuccessKeepsGameExactly(
    rows: Rows, request: Request, faults: Faults, item: Item, gameId: string, name: string, itemType: string)
    requires UniqueIds(rows) && gameId != ""
    requires Alone(rows, Process(request, Requested), faults).1 == Succeeded(item)
    ensures var sel, existing := OfGame(gameId, name, itemType), Receiving(rows, request, item);
            Stock(Alone(rows, Process(request, Requested), faults).0, sel) == Stock(rows, sel) <==>
              !(InGame(item.attrs, "", name, itemType) && existing.Some? && existing.value.attrs.gameId == gameId)
  {
    if x :| Debits(rows, request, faults, x) {
      var existing := Receiving(rows, request, x);
      UpToDebit(rows, request, faults, x);
      AfterDebit(Adjust(rows, request.itemId, -request.quantity), request, x, existing, faults);
      UserItemsExactly(rows, request.toUser, x.attrs.gameId);
      MovedStock(rows, request, x, existing, faults, OfGame(gameId, name, itemType));
    } else {
      WithoutDebit(rows, request, faults);
    }
  }

  // ---------- The row that receives ----------

  // The first row that a user holds of a name and type, in any game.
  function FirstHeld(rows: Rows, user: string, name: string, itemType: string): (r: Option<Item>)
    ensures r.Some? ==> r.value in rows && r.value.userId == user
                        && r.value.attrs.name == name && r.value.attrs.itemType == itemType
  {
    if rows == [] then None
    else if rows[0].userId == user && rows[0].attrs.name == name && rows[0].attrs.itemType == itemType
    then Some(rows[0])
    else FirstHeld(rows[1..], user, name, itemType)
  }

  // It is the row that receives what is taken from a row without a game.
  lemma {:induction false} FirstHeldReceives(rows: Rows, user: string, attrs: Attrs)
    ensures FirstSame(UserItems(rows, user, ""), attrs) == FirstHeld(rows, user, attrs.name, attrs.itemType)
  {
    if rows != [] { FirstHeldReceives(rows[1..], user, attrs); }
  }

  lemma {:induction false} HeldAppend(rows: Rows, x: Item, user: string, name: string, itemType: string)
    ensures FirstHeld(rows + [x], user, name, itemType) ==
      if FirstHeld(rows, user, name, itemType).Some? then FirstHeld(rows, user, name, itemType)
      else FirstHeld([x], user, name, itemType)
  {
    if rows == [] {
      assert rows + [x] == [x];
    } else {
      assert (rows + [x])[1..] == rows[1..] + [x];
      HeldAppend(rows[1..], x, user, name, itemType);
    }
  }

  lemma {:induction false} HeldAdjusted(rows: Rows, later: Rows, user: string, name: string, itemType: string)
    requires Extends(rows, later) && |rows| == |later|
    ensures var a, b := FirstHeld(rows, user, name, itemType), FirstHeld(later, user, name, itemType);
            a.Some? == b.Some? && (a.Some? ==> b.value.attrs == a.value.attrs)
  {
    if rows != [] { HeldAdjusted(rows[1..], later[1..], user, name, itemType); }
  }

  // ---------- Tables on which nothing can leak ----------

  predicate Spendable(row: Item) {
    row.attrs.isTradable && row.quantity >= 1
  }

  ghost predicate SomeSpendable(rows: Rows, gameId: string, name: string, itemType: string) {
    exists i :: 0 <= i < |rows| && Spendable(rows[i]) && InGame(rows[i].attrs, gameId, name, itemType)
  }

  ghost predicate SomeFirst(rows: Rows, gameId: string, name: string, itemType: string) {
    exists i :: 0 <= i < |rows| && rows[i].attrs.gameId == gameId
             && FirstHeld(rows, rows[i].userId, name, itemType) == Some(rows[i])
  }

  // Something without a game can be moved, and a row of the game receives it or
  // can be made to.
  ghost predicate Leaky(rows: Rows, gameId: string, name: string, itemType: string) {
    && SomeSpendable(rows, "", name, itemType)
    && (SomeFirst(rows, gameId, name, itemType) || SomeSpendable(rows, gameId, name, itemType))
  }

  predicate Engaged(phase: Phase) {
    phase.Checked? || phase.Matched? || phase.Debited? || phase.Refunding?
  }

  // Nothing of this kind can be moved or is on the move.
  ghost predicate Frozen(s: System, gameId: string, name: string, itemType: string) {
    && !SomeSpendable(s.rows, gameId, name, itemType)
    && forall i :: 0 <= i < |s.procs| && Engaged(s.procs[i].phase) ==>
         !InGame(s.procs[i].phase.item.attrs, gameId, name, itemType)
  }

  // What a process without a game would be added to is not of this game.
  ghost predicate Aside(p: Process, gameId: string, name: string, itemType: string) {
    (p.phase.Matched? || p.phase.Debited?) && InGame(p.phase.item.attrs, "", name, itemType) && p.phase.existing.Some?
    ==> p.phase.existing.value.attrs.gameId != gameId
  }

  // Nothing of this game receives anything.
  ghost predicate Apart(s: System, gameId: string, name: string, itemType: string) {
    && !SomeFirst(s.rows, gameId, name, itemType)
    && forall i :: 0 <= i < |s.procs| ==> Aside(s.procs[i], gameId, name, itemType)
  }

  ghost predicate Tight(s: System, gameId: string, name: string, itemType: string) {
    || Frozen(s, "", name, itemType)
    || (Frozen(s, gameId, name, itemType) && Apart(s, gameId, name, itemType))
  }

  lemma TightNeutral(s: System, i: nat, gameId: string, name: string, itemType: string)
    requires i < |s.procs| && Inv(s) && gameId != "" && Tight(s, gameId, name, itemType)
    ensures Neutral(s.procs[i], OfGame(gameId, name, itemType))
  {
    assert ProcessOk(s.rows, s.procs[i]);
  }

  // One step of a process that has nothing of a kind, and whose credit, if it is
  // to make one, goes to no row of it, leaves the kind as it is.
  lemma StepFrozen(rows: Rows, p: Process, env: Env, gameId: string, name: string, itemType: string)
    requires UniqueIds(rows) && NonNegative(rows) && ProcessOk(rows, p)
    requires !SomeSpendable(rows, gameId, name, itemType)
    requires Engaged(p.phase) ==> !InGame(p.phase.item.attrs, gameId, name, itemType)
    requires p.phase.Debited? && p.phase.existing.Some? ==>
      !InGame(p.phase.existing.value.attrs, gameId, name, itemType)
    ensures var (after, phase) := Step(rows, p, env);
            && !SomeSpendable(after, gameId, name, itemType)
            && (Engaged(phase) ==> !InGame(phase.item.attrs, gameId, name, itemType))
  {
    var (after, phase) := Step(rows, p, env);
    StepKeeps(rows, p, env);
    forall k | 0 <= k < |after| && InGame(after[k].attrs, gameId, name, itemType)
      ensures !Spendable(after[k])
    {
      if k < |rows| {
        assert rows[k].attrs == after[k].attrs && !Spendable(rows[k]);
      }
    }
  }

  // A match leaves the process aside.
  lemma MatchAside(rows: Rows, p: Process, env: Env, gameId: string, name: string, itemType: string)
    requires !SomeFirst(rows, gameId, name, itemType) && Aside(p, gameId, name, itemType)
    ensures Aside(Process(p.request, Step(rows, p, env).1), gameId, name, itemType)
  {
    var phase := Step(rows, p, env).1;
    if phase.Matched? && InGame(phase.item.attrs, "", name, itemType) {
      FirstHeldReceives(rows, p.request.toUser, phase.item.attrs);
      FirstNotOf(rows, p.request.toUser, gameId, name, itemType);
    }
  }

  // An update makes no row of the game a first one.
  lemma AdjustedApart(rows: Rows, later: Rows, gameId: string, name: string, itemType: string)
    requires Extends(rows, later) && |later| == |rows| && !SomeFirst(rows, gameId, name, itemType)
    ensures !SomeFirst(later, gameId, name, itemType)
  {
    forall k | 0 <= k < |later| && FirstHeld(later, later[k].userId, name, itemType) == Some(later[k])
      ensures later[k].attrs.gameId != gameId
    {
      FirstNotOf(rows, later[k].userId, gameId, name, itemType);
      HeldAdjusted(rows, later, later[k].userId, name, itemType);
    }
  }

  // Nor does a new row of another game or kind.
  lemma AppendedApart(rows: Rows, x: Item, gameId: string, name: string, itemType: string)
    requires !SomeFirst(rows, gameId, name, itemType) && !InGame(x.attrs, gameId, name, itemType)
    ensures !SomeFirst(rows + [x], gameId, name, itemType)
  {
    var later := rows + [x];
    forall k | 0 <= k < |later| && FirstHeld(later, later[k].userId, name, itemType) == Some(later[k])
      ensures later[k].attrs.gameId != gameId
    {
      FirstNotOf(rows, later[k].userId, gameId, name, itemType);
      HeldAppend(rows, x, later[k].userId, name, itemType);
    }
  }

  // A step leaves the table as it is, updates a row, or appends one with the
  // attributes of the item it moves.
  lemma StepRows(rows: Rows, p: Process, env: Env)
    ensures var after := Step(rows, p, env).0;
            |after| == |rows| ||
            (p.phase.Debited? && |after| == |rows| + 1 && after == rows + [after[|rows|]]
             && after[|rows|].attrs == p.phase.item.attrs)
  {
  }

  lemma StepApart(rows: Rows, p: Process, env: Env, gameId: string, name: string, itemType: string)
    requires UniqueIds(rows) && NonNegative(rows) && ProcessOk(rows, p)
    requires !SomeFirst(rows, gameId, name, itemType) && Aside(p, gameId, name, itemType)
    requires Engaged(p.phase) ==> !InGame(p.phase.item.attrs, gameId, name, itemType)
    ensures var (after, phase) := Step(rows, p, env);
            !SomeFirst(after, gameId, name, itemType) && Aside(Process(p.request, phase), gameId, name, itemType)
  {
    var after := Step(rows, p, env).0;
    MatchAside(rows, p, env, gameId, name, itemType);
    StepKeeps(rows, p, env);
    StepRows(rows, p, env);
    if |after| == |rows| {
      AdjustedApart(rows, after, gameId, name, itemType);
    } else {
      AppendedApart(rows, after[|rows|], gameId, name, itemType);
    }
  }

  lemma FirstNotOf(rows: Rows, user: string, gameId: string, name: string, itemType: string)
    requires !SomeFirst(rows, gameId, name, itemType)
    ensures FirstHeld(rows, user, name, itemType).Some? ==>
      FirstHeld(rows, user, name, itemType).value.attrs.gameId != gameId
  {
    var held := FirstHeld(rows, user, name, itemType);
    if held.Some? {
      var i :| 0 <= i < |rows| && rows[i] == held.value;
    }
  }

  lemma NextTight(s: System, i: nat, env: Env, gameId: string, name: string, itemType: string)
    requires i < |s.procs| && Inv(s) && gameId != "" && Tight(s, gameId, name, itemType)
    ensures Tight(Next(s, i, env), gameId, name, itemType)
  {
    var p := s.procs[i];
    assert ProcessOk(s.rows, p);
    if Frozen(s, "", name, itemType) {
      StepFrozen(s.rows, p, env, "", name, itemType);
      assert Frozen(Next(s, i, env), "", name, itemType);
    } else {
      StepFrozen(s.rows, p, env, gameId, name, itemType);
      StepApart(s.rows, p, env, gameId, name, itemType);
      assert Frozen(Next(s, i, env), gameId, name, itemType);
      assert Apart(Next(s, i, env), gameId, name, itemType);
    }
  }

  lemma {:induction false} TightConserves(
    s: System, schedule: seq<(nat, Env)>, gameId: string, name: string, itemType: string)
    requires ValidSchedule(s, schedule) && Inv(s) && gameId != "" && Tight(s, gameId, name, itemType)
    ensures Total(Execute(s, schedule), OfGame(gameId, name, itemType)) == Total(s, OfGame(gameId, name, itemType))
    decreases |schedule|
  {
    if schedule != [] {
      var (i, env) := schedule[0];
      NextInv(s, i, env);
      NextTight(s, i, env, gameId, name, itemType);
      TightNeutral(s, i, gameId, name, itemType);
      NextTotal(s, i, env, OfGame(gameId, name, itemType));
      assert forall k :: 0 <= k < |schedule| - 1 ==> schedule[1..][k] == schedule[k + 1];
      TightConserves(Next(s, i, env), schedule[1..], gameId, name, itemType);
    }
  }

  // ---------- Runs that leak ----------

  function NoFaults(newId: string): Faults {
    Faults(false, false, false, false, false, newId)
  }

  // Moving one from a spendable row i to the owner of row j, the first of its
  // kind that this user holds.
  lemma LeakNow(rows: Rows, i: nat, j: nat, gameId: string, name: string, itemType: string) returns (request: Request)
    requires UniqueIds(rows) && gameId != "" && i < |rows| && j < |rows|
    requires Spendable(rows[i]) && InGame(rows[i].attrs, "", name, itemType)
    requires rows[j].attrs.gameId == gameId && FirstHeld(rows, rows[j].userId, name, itemType) == Some(rows[j])
    ensures var (after, phase) := Alone(rows, Process(request, Requested), NoFaults(""));
            && phase.Succeeded?
            && Stock(after, OfGame(gameId, name, itemType)) == Stock(rows, OfGame(gameId, name, itemType)) + 1
  {
    var item, target, faults := rows[i], rows[j], NoFaults("");
    request := Request(item.itemId, item.userId, target.userId, 1);
    MemberFound(rows, item);
    assert Debits(rows, request, faults, item);
    FirstHeldReceives(rows, target.userId, item.attrs);
    UpToDebit(rows, request, faults, item);
    AfterDebit(Adjust(rows, item.itemId, -1), request, item, Some(target), faults);
    MovedStock(rows, request, item, Some(target), faults, OfGame(gameId, name, itemType));
  }

  // A string longer than every id of the table.
  function LongString(rows: Rows): (s: string)
    ensures s != "" && forall x :: x in rows ==> |x.itemId| < |s| && |x.userId| < |s|
  {
    if rows == [] then "x" else
    var s := LongString(rows[1..]) + rows[0].itemId + rows[0].userId;
    assert forall x :: x in rows ==> x == rows[0] || x in rows[1..];
    s
  }

  lemma {:induction false} NobodyHeld(rows: Rows, user: string, name: string, itemType: string)
    requires forall x :: x in rows ==> x.userId != user
    ensures FirstHeld(rows, user, name, itemType) == None
  {
    if rows != [] { NobodyHeld(rows[1..], user, name, itemType); }
  }

  // A transfer of one from a spendable row to a user without rows, under an id that
  // is free.
  lemma MoveToNew(rows: Rows, item: Item, newId: string)
    requires UniqueIds(rows) && item in rows && Spendable(item)
    requires forall x :: x in rows ==> x.itemId != newId && x.userId != newId
    ensures Alone(rows, Process(Request(item.itemId, item.userId, newId, 1), Requested), NoFaults(newId)) ==
            (Adjust(rows, item.itemId, -1) + [Item(newId, newId, item.attrs, 1)], Succeeded(item))
  {
    var request, faults, debited :=
      Request(item.itemId, item.userId, newId, 1), NoFaults(newId), Adjust(rows, item.itemId, -1);
    MemberFound(rows, item);
    assert Debits(rows, request, faults, item);
    UserItemsExactly(rows, newId, item.attrs.gameId);
    assert Receiving(rows, request, item) == None;
    UpToDebit(rows, request, faults, item);
    IdFree(rows, debited, newId);
    AfterDebit(debited, request, item, None, faults);
  }

  // The table after it.
  lemma NewIsFirst(rows: Rows, item: Item, newId: string, name: string, itemType: string)
    requires UniqueIds(rows) && NonNegative(rows) && item in rows && Spendable(item)
    requires item.attrs.name == name && item.attrs.itemType == itemType
    requires forall x :: x in rows ==> x.itemId != newId && x.userId != newId
    ensures var x := Item(newId, newId, item.attrs, 1);
            var after := Adjust(rows, item.itemId, -1) + [x];
            UniqueIds(after) && FirstHeld(after, newId, name, itemType) == Some(x)
  {
    var debited, x := Adjust(rows, item.itemId, -1), Item(newId, newId, item.attrs, 1);
    MemberFound(rows, item);
    AdjustKeeps(rows, item.itemId, -1);
    IdFree(rows, debited, newId);
    CreateKeeps(debited, x);
    forall y | y in debited ensures y.userId != newId {
      var k :| 0 <= k < |debited| && debited[k] == y;
      assert rows[k] in rows;
    }
    NobodyHeld(debited, newId, name, itemType);
    HeldAppend(debited, x, newId, name, itemType);
  }

  // Moving one from a spendable row j of the game to a new user makes a row of
  // the game that is the first of its kind its owner holds.
  lemma MakeFirst(rows: Rows, j: nat, gameId: string, name: string, itemType: string)
    returns (request: Request, faults: Faults)
    requires UniqueIds(rows) && NonNegative(rows) && j < |rows|
    requires Spendable(rows[j]) && InGame(rows[j].attrs, gameId, name, itemType)
    ensures var (after, phase) := Alone(rows, Process(request, Requested), faults);
            && phase.Succeeded? && UniqueIds(after)
            && |after| == |rows| + 1 && after[|rows|].attrs == rows[j].attrs
            && FirstHeld(after, after[|rows|].userId, name, itemType) == Some(after[|rows|])
            && (forall k :: 0 <= k < |rows| && k != j ==> after[k] == rows[k])
            && Stock(after, OfGame(gameId, name, itemType)) == Stock(rows, OfGame(gameId, name, itemType))
  {
    var item, newId := rows[j], LongString(rows);
    var debited, x, sel := Adjust(rows, item.itemId, -1), Item(newId, newId, item.attrs, 1), OfGame(gameId, name, itemType);
    request, faults := Request(item.itemId, item.userId, newId, 1), NoFaults(newId);
    MemberFound(rows, item);
    MoveToNew(rows, item, newId);
    NewIsFirst(rows, item, newId, name, itemType);
    StockAdjust(rows, item.itemId, -1, sel);
    StockCreate(debited, x, sel);
    PositionIs(rows, j);
  }

  lemma PositionIs(rows: Rows, j: nat)
    requires UniqueIds(rows) && j < |rows|
    ensures Position(rows, rows[j].itemId) == j
  {
  }

  // ---------- Exactly when ----------

  function Start(rows: Rows, requests: seq<Request>): (s: System)
    ensures s.rows == rows && |s.procs| == |requests|
    ensures forall i :: 0 <= i < |requests| ==> s.procs[i] == Process(requests[i], Requested)
  {
    System(rows, seq(|requests|, i requires 0 <= i < |requests| => Process(requests[i], Requested)))
  }

  // The run keeps what is stored, moving and missing of a selection.
  ghost predicate Keeps(rows: Rows, requests: seq<Request>, schedule: seq<(nat, Env)>, sel: Selection) {
    ValidSchedule(Start(rows, requests), schedule) ==>
      Total(Execute(Start(rows, requests), schedule), sel) == Stock(rows, sel)
  }

  lemma NothingMoves(s: System, sel: Selection)
    requires forall i :: 0 <= i < |s.procs| ==> s.procs[i].phase.Requested? || s.procs[i].phase.Succeeded?
    ensures Total(s, sel) == Stock(s.rows, sel)
  {
    assert forall i :: 0 <= i < |s.procs| ==> Accounts(s.procs, sel)[i] == 0;
    SumZero(Accounts(s.procs, sel));
  }

  // A run in which one transfer succeeds that changes the stock keeps nothing.
  lemma {:induction false} OneNotKept(rows: Rows, request: Request, faults: Faults, sel: Selection) returns (schedule: seq<(nat, Env)>)
    requires var (after, phase) := Alone(rows, Process(request, Requested), faults);
             phase.Succeeded? && Stock(after, sel) != Stock(rows, sel)
    ensures !Keeps(rows, [request], schedule, sel)
  {
    schedule := AloneIsRun(Start(rows, [request]), 0, faults);
    NothingMoves(Execute(Start(rows, [request]), schedule), sel);
  }

  lemma OneAfterTheOther(rows: Rows, first: Request, f: Faults, second: Request, g: Faults)
    returns (schedule: seq<(nat, Env)>)
    ensures ValidSchedule(Start(rows, [first, second]), schedule)
    ensures var (middle, one) := Alone(rows, Process(first, Requested), f);
            var (after, two) := Alone(middle, Process(second, Requested), g);
            Execute(Start(rows, [first, second]), schedule) == System(after, [Process(first, one), Process(second, two)])
  {
    var s := Start(rows, [first, second]);
    var one := AloneIsRun(s, 0, f);
    var t := Execute(s, one);
    assert t.procs[1] == Process(second, Requested);
    var two := AloneIsRun(t, 1, g);
    ExecuteConcat(s, one, two);
    schedule := one + two;
  }

  lemma {:induction false} TwoNotKept(rows: Rows, first: Request, f: Faults, second: Request, g: Faults, sel: Selection)
    returns (schedule: seq<(nat, Env)>)
    requires var (middle, one) := Alone(rows, Process(first, Requested), f);
             var (after, two) := Alone(middle, Process(second, Requested), g);
             one.Succeeded? && two.Succeeded? && Stock(after, sel) != Stock(rows, sel)
    ensures !Keeps(rows, [first, second], schedule, sel)
  {
    schedule := OneAfterTheOther(rows, first, f, second, g);
    NothingMoves(Execute(Start(rows, [first, second]), schedule), sel);
  }

  lemma LeakRun(rows: Rows, gameId: string, name: string, itemType: string)
    returns (requests: seq<Request>, schedule: seq<(nat, Env)>)
    requires UniqueIds(rows) && NonNegative(rows) && gameId != "" && Leaky(rows, gameId, name, itemType)
    ensures !Keeps(rows, requests, schedule, OfGame(gameId, name, itemType))
  {
    var i :| 0 <= i < |rows| && Spendable(rows[i]) && InGame(rows[i].attrs, "", name, itemType);
    if SomeFirst(rows, gameId, name, itemType) {
      var j :| 0 <= j < |rows| && rows[j].attrs.gameId == gameId
               && FirstHeld(rows, rows[j].userId, name, itemType) == Some(rows[j]);
      var request := LeakNow(rows, i, j, gameId, name, itemType);
      requests := [request];
      schedule := OneNotKept(rows, request, NoFaults(""), OfGame(gameId, name, itemType));
    } else {
      var j :| 0 <= j < |rows| && Spendable(rows[j]) && InGame(rows[j].attrs, gameId, name, itemType);
      var first, faults := MakeFirst(rows, j, gameId, name, itemType);
      var middle := Alone(rows, Process(first, Requested), faults).0;
      var second := LeakNow(middle, i, |rows|, gameId, name, itemType);
      requests := [first, second];
      schedule := TwoNotKept(rows, first, faults, second, NoFaults(""), OfGame(gameId, name, itemType));
    }
  }

  // Whatever transfers are asked for and however they interleave and fail, the
  // quantity of a game stays what it was, if and only if the table to start from
  // is not leaky.
  lemma GameConservedExactly(rows: Rows, gameId: string, name: string, itemType: string)
    requires UniqueIds(rows) && NonNegative(rows) && gameId != ""
    ensures (forall requests: seq<Request>, schedule: seq<(nat, Env)> ::
               Keeps(rows, requests, schedule, OfGame(gameId, name, itemType)))
            <==> !Leaky(rows, gameId, name, itemType)
  {
    if Leaky(rows, gameId, name, itemType) {
      var requests, schedule := LeakRun(rows, gameId, name, itemType);
    } else {
      forall requests: seq<Request>, schedule: seq<(nat, Env)>
        ensures Keeps(rows, requests, schedule, OfGame(gameId, name, itemType))
      {
        var s := Start(rows, requests);
        if ValidSchedule(s, schedule) {
          NothingMoves(s, OfGame(gameId, name, itemType));
          assert Tight(s, gameId, name, itemType);
          TightConserves(s, schedule, gameId, name, itemType);
        }
      }
    }
  }

  // ---------- An example ----------

  const SWORD := Attrs("", "sword", "equipment", "", "", 99, false, true, None, "", "")

  // A sword of no game, and a sword of game g that someone else holds.
  const TWO_SWORDS: Rows := [
    Item("1", "ann", SWORD, 5),
    Item("2", "bob", SWORD.(gameId := "g"), 1)
  ]

  lemma TwoSwordsLeak()
    ensures Leaky(TWO_SWORDS, "g", "sword", "equipment")
    ensures var after := Alone(TWO_SWORDS, Process(Request("1", "ann", "bob", 2), Requested), NoFaults("")).0;
            after == [Item("1", "ann", SWORD, 3), Item("2", "bob", SWORD.(gameId := "g"), 3)]
  {
    var rows, item, target := TWO_SWORDS, TWO_SWORDS[0], TWO_SWORDS[1];
    var request, faults := Request("1", "ann", "bob", 2), NoFaults("");
    assert rows[1..] == [target];
    assert Spendable(rows[0]) && InGame(rows[0].attrs, "", "sword", "equipment");
    assert FirstHeld(rows, rows[1].userId, "sword", "equipment") == Some(rows[1]);
    assert Debits(rows, request, faults, item);
    FirstHeldReceives(rows, "bob", item.attrs);
    UpToDebit(rows, request, faults, item);
    var debited := Adjust(rows, "1", -2);
    assert debited == [Item("1", "ann", SWORD, 3), target];
    assert debited[1..] == [target];
    AfterDebit(debited, request, item, Some(target), faults);
  }
}
