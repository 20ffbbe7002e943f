// ItemService.TransferItem, once as the method that makes the DAO calls and once
// as a process whose calls interleave with those of other transfers.
module Transfer {
  import opened Wrappers
  import opened ItemStore
  import opened Sequences

  datatype Request = Request(itemId: string, fromUser: string, toUser: string, quantity: int)

  datatype Reason =
    | BadQuantity | LookupFailed | NotFound | NotOwned | NotEnough | NotTradable
    | ReceiverLookupFailed | ConsumeFailed | CreditFailed

  // Where a transfer stands between two DAO calls.
  datatype Phase =
    | Requested
    | Checked(item: Item)
    | Matched(item: Item, existing: Option<Item>)
    | Debited(item: Item, existing: Option<Item>)
    | Refunding(item: Item)
    | Succeeded(item: Item)
    | Refunded(item: Item)
    | Lost(item: Item)
    | Rejected(reason: Reason)

  datatype Process = Process(request: Request, phase: Phase)

  // What the outside decides at one DAO call: whether it fails, and the id that
  // generateItemID would return.
  datatype Env = Env(fails: bool, newId: string)

  function Rank(phase: Phase): nat {
    match phase
    case Requested => 5
    case Checked(_) => 4
    case Matched(_, _) => 3
    case Debited(_, _) => 2
    case Refunding(_) => 1
    case _ => 0
  }

  predicate Done(phase: Phase) {
    Rank(phase) == 0
  }

  // The receiver's row that a transfer of attrs adds to.
  predicate SameKind(attrs: Attrs, candidate: Attrs) {
    candidate.name == attrs.name && candidate.itemType == attrs.itemType
  }

  function FirstSame(items: seq<Item>, attrs: Attrs): (r: Option<Item>)
    ensures r.Some? ==> r.value in items && SameKind(attrs, r.value.attrs)
    ensures r.None? ==> forall x :: x in items ==> !SameKind(attrs, x.attrs)
  {
    if items == [] then None
    else if SameKind(attrs, items[0].attrs) then Some(items[0])
    else FirstSame(items[1..], attrs)
  }

  // The checks after the lookup, in the order of the code.
  function Check(found: Option<Item>, request: Request): Phase {
    if found.None? then Rejected(NotFound)
    else if found.value.userId != request.fromUser then Rejected(NotOwned)
    else if found.value.quantity < request.quantity then Rejected(NotEnough)
    else if !found.value.attrs.isTradable then Rejected(NotTradable)
    else Checked(found.value)
  }

  // One DAO call of a transfer.
  function Step(rows: Rows, p: Process, env: Env): (r: (Rows, Phase))
    ensures Done(p.phase) || Rank(r.1) < Rank(p.phase)
  {
    var request := p.request;
    match p.phase
    case Requested =>
      if request.quantity <= 0 then (rows, Rejected(BadQuantity))
      else if env.fails then (rows, Rejected(LookupFailed))
      else (rows, Check(FindById(rows, request.itemId), request))
    case Checked(item) =>
      if env.fails then (rows, Rejected(ReceiverLookupFailed))
      else (rows, Matched(item, FirstSame(UserItems(rows, request.toUser, item.attrs.gameId), item.attrs)))
    case Matched(item, existing) =>
      var after := Consume(rows, request.itemId, request.quantity);
      if env.fails || after.None? then (rows, Rejected(ConsumeFailed))
      else (after.value, Debited(item, existing))
    case Debited(item, Some(target)) =>
      if env.fails then (rows, Refunding(item))
      else (Adjust(rows, target.itemId, request.quantity), Succeeded(item))
    case Debited(item, None) =>
      var after := Create(rows, Item(env.newId, request.toUser, item.attrs, request.quantity));
      if env.fails || after.None? then (rows, Refunding(item)) else (after.value, Succeeded(item))
    case Refunding(item) =>
      // The result of this call is ignored by the code.
      if env.fails then (rows, Lost(item)) else (Adjust(rows, request.itemId, request.quantity), Refunded(item))
    case _ => (rows, p.phase)
  }

  // ---------- Interleaving ----------

  datatype System = System(rows: Rows, procs: seq<Process>)

  function Next(s: System, i: nat, env: Env): System
    requires i < |s.procs|
  {
    var p := s.procs[i];
    var (rows, phase) := Step(s.rows, p, env);
    System(rows, s.procs[i := Process(p.request, phase)])
  }

  // A schedule names, for each step, the transfer that moves and its environment.
  function Execute(s: System, schedule: seq<(nat, Env)>): (r: System)
    requires forall x :: x in schedule ==> x.0 < |s.procs|
    ensures |r.procs| == |s.procs|
    decreases |schedule|
  {
    if schedule == [] then s else Execute(Next(s, schedule[0].0, schedule[0].1), schedule[1..])
  }

  // ---------- What is conserved ----------

  // Quantity taken from a row and not yet put anywhere, and quantity given up.
  function Moving(p: Process, sel: Selection): int {
    if (p.phase.Debited? || p.phase.Refunding?) && sel(p.phase.item.userId, p.phase.item.attrs)
    then p.request.quantity else 0
  }

  function Missing(p: Process, sel: Selection): int {
    if p.phase.Lost? && sel(p.phase.item.userId, p.phase.item.attrs) then p.request.quantity else 0
  }

  function Accounts(procs: seq<Process>, sel: Selection): (r: seq<int>)
    ensures |r| == |procs| && forall i :: 0 <= i < |procs| ==> r[i] == Moving(procs[i], sel) + Missing(procs[i], sel)
  {
    seq(|procs|, i requires 0 <= i < |procs| => Moving(procs[i], sel) + Missing(procs[i], sel))
  }

  function Total(s: System, sel: Selection): int {
    Stock(s.rows, sel) + Sum(Accounts(s.procs, sel))
  }

  // A selection that does not tell owners apart, nor two rows between which a
  // transfer may move quantity.
  ghost predicate Closed(rows: Rows, sel: Selection) {
    forall i, u: string, v: string, b: Attrs :: 0 <= i < |rows|
      && SameKind(rows[i].attrs, b) && (rows[i].attrs.gameId == "" || b.gameId == rows[i].attrs.gameId)
      ==> sel(u, rows[i].attrs) == sel(v, b)
  }

  // The row a process read is still there, with the same owner and attributes.
  ghost predicate Known(rows: Rows, item: Item) {
    var p := Position(rows, item.itemId);
    p < |rows| && rows[p].userId == item.userId && rows[p].attrs == item.attrs
  }

  ghost predicate ProcessOk(rows: Rows, p: Process) {
    var r := p.request;
    match p.phase
    case Requested => true
    case Rejected(_) => true
    case Checked(item) => r.quantity > 0 && Known(rows, item) && item.itemId == r.itemId
    case Matched(item, existing) =>
      r.quantity > 0 && Known(rows, item) && item.itemId == r.itemId && TargetOk(rows, item, existing)
    case Debited(item, existing) =>
      r.quantity > 0 && Known(rows, item) && item.itemId == r.itemId && TargetOk(rows, item, existing)
    case _ => r.quantity > 0 && Known(rows, p.phase.item) && p.phase.item.itemId == r.itemId
  }

  ghost predicate TargetOk(rows: Rows, item: Item, existing: Option<Item>) {
    existing.Some? ==>
      && Known(rows, existing.value) && SameKind(item.attrs, existing.value.attrs)
      && (item.attrs.gameId == "" || existing.value.attrs.gameId == item.attrs.gameId)
  }

  ghost predicate Inv(s: System) {
    && UniqueIds(s.rows) && NonNegative(s.rows)
    && forall i :: 0 <= i < |s.procs| ==> ProcessOk(s.rows, s.procs[i])
  }

  // ---------- One step ----------

  lemma KnownStable(earlier: Rows, later: Rows, item: Item)
    requires Extends(earlier, later) && Known(earlier, item)
    ensures Known(later, item)
  {
    PositionStable(earlier, later, item.itemId);
  }

  lemma ProcessStable(earlier: Rows, later: Rows, p: Process)
    requires Extends(earlier, later) && ProcessOk(earlier, p)
    ensures ProcessOk(later, p)
  {
    if !p.phase.Requested? && !p.phase.Rejected? { KnownStable(earlier, later, p.phase.item); }
    if (p.phase.Matched? || p.phase.Debited?) && p.phase.existing.Some? {
      KnownStable(earlier, later, p.phase.existing.value);
    }
  }

  // The credit of this transfer, if it is about to make one, stays within what
  // the selection counts or within what it does not.
  ghost predicate Neutral(p: Process, sel: Selection) {
    p.phase.Debited? ==>
      var item, existing := p.phase.item, p.phase.existing;
      && sel(item.userId, item.attrs) == sel(p.request.toUser, item.attrs)
      && (existing.Some? ==> sel(item.userId, item.attrs) == sel(existing.value.userId, existing.value.attrs))
  }

  lemma ClosedNeutral(rows: Rows, p: Process, sel: Selection)
    requires ProcessOk(rows, p) && Closed(rows, sel)
    ensures Neutral(p, sel)
  {
    if p.phase.Debited? {
      var item := p.phase.item;
      assert rows[Position(rows, item.itemId)].attrs == item.attrs;
    }
  }

  lemma CreditBalance(rows: Rows, p: Process, env: Env, sel: Selection)
    requires ProcessOk(rows, p) && Neutral(p, sel) && p.phase.Debited?
    ensures var (after, phase) := Step(rows, p, env);
            Stock(after, sel) + Moving(Process(p.request, phase), sel) == Stock(rows, sel) + Moving(p, sel)
  {
    var r, item := p.request, p.phase.item;
    match p.phase.existing
    case Some(target) =>
      StockAdjust(rows, target.itemId, r.quantity, sel);
    case None =>
      StockCreate(rows, Item(env.newId, r.toUser, item.attrs, r.quantity), sel);
  }

  lemma DebitBalance(rows: Rows, p: Process, env: Env, sel: Selection)
    requires ProcessOk(rows, p) && p.phase.Matched?
    ensures var (after, phase) := Step(rows, p, env);
            Stock(after, sel) + Moving(Process(p.request, phase), sel) == Stock(rows, sel)
  {
    StockAdjust(rows, p.request.itemId, -p.request.quantity, sel);
  }

  lemma RefundBalance(rows: Rows, p: Process, env: Env, sel: Selection)
    requires ProcessOk(rows, p) && p.phase.Refunding?
    ensures var (after, phase) := Step(rows, p, env);
            Stock(after, sel) + Missing(Process(p.request, phase), sel) == Stock(rows, sel) + Moving(p, sel)
  {
    StockAdjust(rows, p.request.itemId, p.request.quantity, sel);
  }

  // How the stored quantity changes in one step, against what is moving or missing.
  lemma StepBalance(rows: Rows, p: Process, env: Env, sel: Selection)
    requires ProcessOk(rows, p) && Neutral(p, sel)
    ensures var (after, phase) := Step(rows, p, env);
            var q := Process(p.request, phase);
            Stock(after, sel) + Moving(q, sel) + Missing(q, sel) == Stock(rows, sel) + Moving(p, sel) + Missing(p, sel)
  {
    match p.phase
    case Matched(_, _) => DebitBalance(rows, p, env, sel);
    case Debited(_, _) => CreditBalance(rows, p, env, sel);
    case Refunding(_) => RefundBalance(rows, p, env, sel);
    case _ =>
  }

  lemma MatchKeeps(rows: Rows, p: Process, env: Env)
    requires UniqueIds(rows) && ProcessOk(rows, p) && p.phase.Checked?
    ensures ProcessOk(rows, Process(p.request, Step(rows, p, env).1))
  {
    var item := p.phase.item;
    var found := FirstSame(UserItems(rows, p.request.toUser, item.attrs.gameId), item.attrs);
    if found.Some? { MemberFound(rows, found.value); }
  }

  lemma DebitKeeps(rows: Rows, p: Process, env: Env)
    requires UniqueIds(rows) && NonNegative(rows) && ProcessOk(rows, p) && p.phase.Matched?
    ensures var (after, phase) := Step(rows, p, env);
            && UniqueIds(after) && NonNegative(after) && Extends(rows, after)
            && ProcessOk(after, Process(p.request, phase))
  {
    var (after, phase) := Step(rows, p, env);
    if phase.Debited? {
      AdjustKeeps(rows, p.request.itemId, -p.request.quantity);
      ProcessStable(rows, after, p);
    }
  }

  lemma RefundKeeps(rows: Rows, p: Process, env: Env)
    requires UniqueIds(rows) && NonNegative(rows) && ProcessOk(rows, p) && p.phase.Refunding?
    ensures var (after, phase) := Step(rows, p, env);
            && UniqueIds(after) && NonNegative(after) && Extends(rows, after)
            && ProcessOk(after, Process(p.request, phase))
  {
    AdjustKeeps(rows, p.request.itemId, p.request.quantity);
    KnownStable(rows, Adjust(rows, p.request.itemId, p.request.quantity), p.phase.item);
  }

  lemma CreditKeeps(rows: Rows, p: Process, env: Env)
    requires UniqueIds(rows) && NonNegative(rows) && ProcessOk(rows, p) && p.phase.Debited?
    ensures var (after, phase) := Step(rows, p, env);
            && UniqueIds(after) && NonNegative(after) && Extends(rows, after)
            && ProcessOk(after, Process(p.request, phase))
  {
    var (after, phase) := Step(rows, p, env);
    if phase.Succeeded? {
      if p.phase.existing.Some? {
        AdjustKeeps(rows, p.phase.existing.value.itemId, p.request.quantity);
      } else {
        CreateKeeps(rows, Item(env.newId, p.request.toUser, p.phase.item.attrs, p.request.quantity));
      }
      KnownStable(rows, after, p.phase.item);
    }
  }

  // What one step leaves of the table and of the transfer that moved.
  lemma StepKeeps(rows: Rows, p: Process, env: Env)
    requires UniqueIds(rows) && NonNegative(rows) && ProcessOk(rows, p)
    ensures var (after, phase) := Step(rows, p, env);
            && UniqueIds(after) && NonNegative(after) && Extends(rows, after)
            && ProcessOk(after, Process(p.request, phase))
  {
    match p.phase
    case Requested =>
    case Checked(item) =>
      MatchKeeps(rows, p, env);
    case Matched(_, _) =>
      DebitKeeps(rows, p, env);
    case Debited(_, _) =>
      CreditKeeps(rows, p, env);
    case Refunding(_) =>
      RefundKeeps(rows, p, env);
    case _ =>
  }

  // Steps bring in no new attributes, so a closed selection stays closed.
  lemma StepClosed(rows: Rows, p: Process, env: Env, sel: Selection)
    requires UniqueIds(rows) && NonNegative(rows) && ProcessOk(rows, p) && Closed(rows, sel)
    ensures Closed(Step(rows, p, env).0, sel)
  {
    var after := Step(rows, p, env).0;
    forall i | 0 <= i < |after| ensures exists j :: 0 <= j < |rows| && after[i].attrs == rows[j].attrs {
      if i < |rows| {
        StepKeeps(rows, p, env);
        assert after[i].attrs == rows[i].attrs;
      } else {
        assert after[i].attrs == rows[Position(rows, p.phase.item.itemId)].attrs;
      }
    }
  }

  // One step of one transfer, whatever the others are doing.
  lemma NextInv(s: System, i: nat, env: Env)
    requires i < |s.procs| && Inv(s)
    ensures Inv(Next(s, i, env)) && Extends(s.rows, Next(s, i, env).rows)
  {
    var t := Next(s, i, env);
    StepKeeps(s.rows, s.procs[i], env);
    forall j | 0 <= j < |t.procs| ensures ProcessOk(t.rows, t.procs[j]) {
      if j != i { ProcessStable(s.rows, t.rows, s.procs[j]); }
    }
  }

  lemma NextTotal(s: System, i: nat, env: Env, sel: Selection)
    requires i < |s.procs| && Inv(s) && Neutral(s.procs[i], sel)
    ensures Total(Next(s, i, env), sel) == Total(s, sel)
  {
    var t := Next(s, i, env);
    StepBalance(s.rows, s.procs[i], env, sel);
    var account := Moving(t.procs[i], sel) + Missing(t.procs[i], sel);
    assert Accounts(t.procs, sel) == Accounts(s.procs, sel)[i := account];
    SumUpdate(Accounts(s.procs, sel), i, account);
  }

  lemma NextKeeps(s: System, i: nat, env: Env, sel: Selection)
    requires i < |s.procs| && Inv(s) && Closed(s.rows, sel)
    ensures Inv(Next(s, i, env)) && Closed(Next(s, i, env).rows, sel)
    ensures Total(Next(s, i, env), sel) == Total(s, sel)
  {
    NextInv(s, i, env);
    ClosedNeutral(s.rows, s.procs[i], sel);
    NextTotal(s, i, env, sel);
    StepClosed(s.rows, s.procs[i], env, sel);
  }

  // ---------- Whole runs ----------

  ghost predicate ValidSchedule(s: System, schedule: seq<(nat, Env)>) {
    forall i :: 0 <= i < |schedule| ==> schedule[i].0 < |s.procs|
  }

  // Over every interleaving, quantities never go negative, and what is stored,
  // moving and missing under a closed selection adds up to the same total.
  lemma {:induction false} Conservation(s: System, schedule: seq<(nat, Env)>, sel: Selection)
    requires ValidSchedule(s, schedule) && Inv(s) && Closed(s.rows, sel)
    ensures Inv(Execute(s, schedule)) && Total(Execute(s, schedule), sel) == Total(s, sel)
    decreases |schedule|
  {
    if schedule != [] {
      var t := Next(s, schedule[0].0, schedule[0].1);
      NextKeeps(s, schedule[0].0, schedule[0].1, sel);
      assert forall i :: 0 <= i < |schedule| - 1 ==> schedule[1..][i] == schedule[i + 1];
      Conservation(t, schedule[1..], sel);
    }
  }

  lemma {:induction false} SumZero(s: seq<int>)
    requires forall i :: 0 <= i < |s| ==> s[i] >= 0
    ensures Sum(s) >= 0
    ensures Sum(s) == 0 <==> forall i :: 0 <= i < |s| ==> s[i] == 0
  {
    if s != [] {
      SumZero(s[1..]);
      assert forall i :: 1 <= i < |s| ==> s[i] == s[1..][i - 1];
    }
  }

  // When all transfers have started from scratch and come to rest, the stored
  // quantity is what it was exactly when no refund failed; otherwise it is less.
  lemma Quiescence(s: System, schedule: seq<(nat, Env)>, sel: Selection)
    requires ValidSchedule(s, schedule) && Inv(s) && Closed(s.rows, sel)
    requires forall i :: 0 <= i < |s.procs| ==> s.procs[i].phase.Requested?
    requires forall i :: 0 <= i < |s.procs| ==> Done(Execute(s, schedule).procs[i].phase)
    ensures var t := Execute(s, schedule);
            && Stock(t.rows, sel) <= Stock(s.rows, sel)
            && (Stock(t.rows, sel) == Stock(s.rows, sel) <==>
                  forall i :: 0 <= i < |t.procs| && t.procs[i].phase.Lost? ==>
                    !sel(t.procs[i].phase.item.userId, t.procs[i].phase.item.attrs))
  {
    var t := Execute(s, schedule);
    Conservation(s, schedule, sel);
    SumZero(Accounts(s.procs, sel));
    forall i | 0 <= i < |t.procs|
      ensures Accounts(t.procs, sel)[i] == Missing(t.procs[i], sel) >= 0
      ensures Missing(t.procs[i], sel) == 0 <==>
        (t.procs[i].phase.Lost? ==> !sel(t.procs[i].phase.item.userId, t.procs[i].phase.item.attrs))
    {
      assert Done(t.procs[i].phase) && ProcessOk(t.rows, t.procs[i]);
    }
    SumZero(Accounts(t.procs, sel));
  }

  // ---------- Selections that transfers respect ----------

  function OfKind(name: string, itemType: string): Selection {
    (u, a: Attrs) => a.name == name && a.itemType == itemType
  }

  lemma KindClosed(rows: Rows, name: string, itemType: string)
    ensures Closed(rows, OfKind(name, itemType))
  {
  }

  // ---------- One transfer on its own ----------

  // How the DAO calls of one TransferItem call turn out.
  datatype Faults = Faults(lookup: bool, receiver: bool, consume: bool, credit: bool, refund: bool, newId: string)

  function EnvAt(faults: Faults, phase: Phase): Env {
    match phase
    case Requested => Env(faults.lookup, faults.newId)
    case Checked(_) => Env(faults.receiver, faults.newId)
    case Matched(_, _) => Env(faults.consume, faults.newId)
    case Debited(_, _) => Env(faults.credit, faults.newId)
    case _ => Env(faults.refund, faults.newId)
  }

  function Alone(rows: Rows, p: Process, faults: Faults): (r: (Rows, Phase))
    ensures Done(r.1)
    decreases Rank(p.phase)
  {
    if Done(p.phase) then (rows, p.phase) else
    var (after, phase) := Step(rows, p, EnvAt(faults, p.phase));
    Alone(after, Process(p.request, phase), faults)
  }

  function Credit(rows: Rows, request: Request, item: Item, existing: Option<Item>, faults: Faults): Option<Rows> {
    if faults.credit then None
    else if existing.Some? then Some(Adjust(rows, existing.value.itemId, request.quantity))
    else Create(rows, Item(faults.newId, request.toUser, item.attrs, request.quantity))
  }

  lemma AloneUnfolds(rows: Rows, p: Process, faults: Faults)
    requires !Done(p.phase)
    ensures var (after, phase) := Step(rows, p, EnvAt(faults, p.phase));
            Alone(rows, p, faults) == Alone(after, Process(p.request, phase), faults)
  {
  }

  lemma Follow(rows: Rows, p: Process, faults: Faults, after: Rows, phase: Phase)
    requires !Done(p.phase) && Step(rows, p, EnvAt(faults, p.phase)) == (after, phase)
    ensures Alone(rows, p, faults) == Alone(after, Process(p.request, phase), faults)
  {
  }

  // The end of a call whose debit has gone through.
  lemma AfterDebit(rows: Rows, request: Request, item: Item, existing: Option<Item>, faults: Faults)
    ensures var credited := Credit(rows, request, item, existing, faults);
            Alone(rows, Process(request, Debited(item, existing)), faults) ==
              if credited.Some? then (credited.value, Succeeded(item))
              else if faults.refund then (rows, Lost(item))
              else (Adjust(rows, request.itemId, request.quantity), Refunded(item))
  {
    AloneUnfolds(rows, Process(request, Debited(item, existing)), faults);
    if Credit(rows, request, item, existing, faults).None? {
      AloneUnfolds(rows, Process(request, Refunding(item)), faults);
    }
  }

  // A call that gets as far as the debit.
  ghost predicate Debits(rows: Rows, request: Request, faults: Faults, item: Item) {
    && request.quantity > 0 && !faults.lookup && !faults.receiver && !faults.consume
    && FindById(rows, request.itemId) == Some(item)
    && Check(Some(item), request) == Checked(item)
  }

  function Receiving(rows: Rows, request: Request, item: Item): Option<Item> {
    FirstSame(UserItems(rows, request.toUser, item.attrs.gameId), item.attrs)
  }

  lemma UpToDebit(rows: Rows, request: Request, faults: Faults, item: Item)
    requires Debits(rows, request, faults, item)
    ensures Alone(rows, Process(request, Requested), faults) ==
      Alone(Adjust(rows, request.itemId, -request.quantity),
            Process(request, Debited(item, Receiving(rows, request, item))), faults)
  {
    var existing := Receiving(rows, request, item);
    Follow(rows, Process(request, Requested), faults, rows, Checked(item));
    Follow(rows, Process(request, Checked(item)), faults, rows, Matched(item, existing));
    Follow(rows, Process(request, Matched(item, existing)), faults,
           Adjust(rows, request.itemId, -request.quantity), Debited(item, existing));
  }

  // Any other call changes nothing.
  lemma WithoutDebit(rows: Rows, request: Request, faults: Faults)
    requires forall item :: !Debits(rows, request, faults, item)
    ensures Alone(rows, Process(request, Requested), faults).0 == rows
    ensures Alone(rows, Process(request, Requested), faults).1.Rejected?
  {
    AloneUnfolds(rows, Process(request, Requested), faults);
    var phase := Step(rows, Process(request, Requested), EnvAt(faults, Requested)).1;
    if phase.Checked? {
      var item := phase.item;
      assert !Debits(rows, request, faults, item);
      AloneUnfolds(rows, Process(request, Checked(item)), faults);
      if !faults.receiver {
        AloneUnfolds(rows, Process(request, Matched(item, Receiving(rows, request, item))), faults);
      }
    }
  }

  // A call on its own is one of the runs: the one in which no other transfer moves.
  lemma {:induction false} AloneIsRun(s: System, i: nat, faults: Faults) returns (schedule: seq<(nat, Env)>)
    requires i < |s.procs|
    ensures ValidSchedule(s, schedule)
    ensures var (after, phase) := Alone(s.rows, s.procs[i], faults);
            Execute(s, schedule) == System(after, s.procs[i := Process(s.procs[i].request, phase)])
    decreases Rank(s.procs[i].phase)
  {
    var p := s.procs[i];
    if Done(p.phase) {
      schedule := [];
      assert s.procs[i := Process(p.request, p.phase)] == s.procs;
    } else {
      var env := EnvAt(faults, p.phase);
      var rest := AloneIsRun(Next(s, i, env), i, faults);
      schedule := [(i, env)] + rest;
      assert schedule[1..] == rest;
    }
  }

  // Runs can be put one after the other.
  lemma {:induction false} ExecuteConcat(s: System, first: seq<(nat, Env)>, second: seq<(nat, Env)>)
    requires ValidSchedule(s, first) && ValidSchedule(s, second)
    ensures ValidSchedule(s, first + second)
    ensures Execute(s, first + second) == Execute(Execute(s, first), second)
    decreases |first|
  {
    if first == [] {
      assert first + second == second;
    } else {
      var t := Next(s, first[0].0, first[0].1);
      assert (first + second)[1..] == first[1..] + second;
      ExecuteConcat(t, first[1..], second);
    }
  }

  function ResultOf(phase: Phase): Result<(), Reason>
    requires Done(phase)
  {
    match phase
    case Succeeded(_) => Ok(())
    case Rejected(reason) => Err(reason)
    case _ => Err(CreditFailed)
  }

  // ---------- What one transfer does to its two users ----------

  // The quantity one user holds of a kind.
  function Owned(user: string, name: string, itemType: string): Selection {
    (u, a: Attrs) => u == user && a.name == name && a.itemType == itemType
  }

  lemma DebitUndone(rows: Rows, request: Request, faults: Faults, item: Item)
    requires Debits(rows, request, faults, item)
    ensures var (after, phase) := Alone(rows, Process(request, Requested), faults);
            !phase.Rejected? && (phase.Refunded? ==> after == rows)
  {
    var debited := Adjust(rows, request.itemId, -request.quantity);
    UpToDebit(rows, request, faults, item);
    AfterDebit(debited, request, item, Receiving(rows, request, item), faults);
    RefundUndoes(rows, request.itemId, request.quantity);
  }

  // A failed transfer whose refund went through leaves the table exactly as it was.
  lemma {:induction false} FailureUndone(rows: Rows, request: Request, faults: Faults)
    requires var phase := Alone(rows, Process(request, Requested), faults).1; phase.Rejected? || phase.Refunded?
    ensures Alone(rows, Process(request, Requested), faults).0 == rows
  {
    if item :| Debits(rows, request, faults, item) {
      DebitUndone(rows, request, faults, item);
    } else {
      WithoutDebit(rows, request, faults);
    }
  }

  // A row that this request may take from, and one that may receive what it takes.
  ghost predicate Movable(row: Item, request: Request) {
    && row.itemId == request.itemId && row.userId == request.fromUser
    && row.quantity >= request.quantity && row.attrs.isTradable
  }

  ghost predicate Receives(row: Item, item: Item, toUser: string) {
    && row.userId == toUser && SameKind(item.attrs, row.attrs)
    && (item.attrs.gameId == "" || row.attrs.gameId == item.attrs.gameId)
  }

  ghost predicate Creditable(rows: Rows, item: Item, toUser: string, newId: string) {
    || (exists x :: x in rows && Receives(x, item, toUser))
    || forall x :: x in rows ==> x.itemId != newId
  }

  // A transfer succeeds if and only if no call fails, the quantity is positive,
  // the row is there, owned by the sender, large enough and tradable, and the
  // receiver has a row to add to or the new id is free.
  lemma SucceedsExactly(rows: Rows, request: Request, faults: Faults)
    requires UniqueIds(rows)
    ensures Alone(rows, Process(request, Requested), faults).1.Succeeded? <==>
      && request.quantity > 0
      && !faults.lookup && !faults.receiver && !faults.consume && !faults.credit
      && exists item :: item in rows && Movable(item, request)
                     && Creditable(rows, item, request.toUser, faults.newId)
  {
    forall x | x in rows && x.itemId == request.itemId ensures FindById(rows, request.itemId) == Some(x) {
      MemberFound(rows, x);
    }
    if item :| Debits(rows, request, faults, item) {
      UpToDebit(rows, request, faults, item);
      AfterDebit(Adjust(rows, request.itemId, -request.quantity), request, item, Receiving(rows, request, item), faults);
      assert item in rows && Movable(item, request);
      CreditsExactly(rows, request, item, faults);
    } else {
      WithoutDebit(rows, request, faults);
      if request.quantity > 0 && !faults.lookup && !faults.receiver && !faults.consume {
        forall x | x in rows ensures !Movable(x, request) {
          assert !Debits(rows, request, faults, x);
        }
      }
    }
  }

  lemma CreditsExactly(rows: Rows, request: Request, item: Item, faults: Faults)
    ensures Credit(Adjust(rows, request.itemId, -request.quantity), request, item,
                   Receiving(rows, request, item), faults).Some?
            <==> !faults.credit && Creditable(rows, item, request.toUser, faults.newId)
  {
    UserItemsExactly(rows, request.toUser, item.attrs.gameId);
    var existing := Receiving(rows, request, item);
    if existing.Some? {
      assert Receives(existing.value, item, request.toUser);
    } else {
      forall x | x in rows ensures !Receives(x, item, request.toUser) {
        assert x !in UserItems(rows, request.toUser, item.attrs.gameId) || !SameKind(item.attrs, x.attrs);
      }
      IdFree(rows, Adjust(rows, request.itemId, -request.quantity), faults.newId);
    }
  }

  // An id is free in a table exactly when it is free after an adjustment.
  lemma IdFree(rows: Rows, later: Rows, id: string)
    requires Extends(rows, later) && |rows| == |later|
    ensures Position(later, id) == |later| <==> forall x :: x in rows ==> x.itemId != id
  {
    if Position(later, id) < |later| {
      assert rows[Position(later, id)] in rows;
    } else {
      forall x | x in rows ensures x.itemId != id {
        var i :| 0 <= i < |rows| && rows[i] == x;
        assert later[i].itemId == x.itemId;
      }
    }
  }

  lemma RefundUndoes(rows: Rows, id: string, quantity: int)
    ensures Adjust(Adjust(rows, id, -quantity), id, quantity) == rows
  {
    var p, after := Position(rows, id), Adjust(rows, id, -quantity);
    if p < |rows| {
      PositionStable(rows, after, id);
    }
  }

  // A successful transfer moves exactly the quantity asked for from what the
  // sender holds of the kind to what the receiver holds, which for a transfer to
  // oneself changes nothing, and leaves what every user holds of every other kind
  // alone.
  lemma SuccessMoves(rows: Rows, request: Request, faults: Faults, item: Item, user: string, name: string, itemType: string)
    requires UniqueIds(rows)
    requires Alone(rows, Process(request, Requested), faults).1 == Succeeded(item)
    ensures item.userId == request.fromUser && Debits(rows, request, faults, item)
    ensures var after := Alone(rows, Process(request, Requested), faults).0;
            Stock(after, Owned(user, name, itemType)) == Stock(rows, Owned(user, name, itemType)) +
              (if item.attrs.name != name || item.attrs.itemType != itemType then 0
               else (if user == request.toUser then request.quantity else 0)
                    - (if user == request.fromUser then request.quantity else 0))
  {
    if x :| Debits(rows, request, faults, x) {
      var existing := Receiving(rows, request, x);
      UpToDebit(rows, request, faults, x);
      AfterDebit(Adjust(rows, request.itemId, -request.quantity), request, x, existing, faults);
      MovedStock(rows, request, x, existing, faults, Owned(user, name, itemType));
    } else {
      WithoutDebit(rows, request, faults);
    }
  }

  lemma MovedStock(
    rows: Rows, request: Request, item: Item, existing: Option<Item>, faults: Faults, sel: Selection)
    requires UniqueIds(rows) && FindById(rows, request.itemId) == Some(item)
    requires existing.Some? ==> existing.value in rows
    requires Credit(Adjust(rows, request.itemId, -request.quantity), request, item, existing, faults).Some?
    ensures Stock(Credit(Adjust(rows, request.itemId, -request.quantity), request, item, existing, faults).value, sel)
         == Stock(rows, sel)
            - (if sel(item.userId, item.attrs) then request.quantity else 0)
            + (if sel(if existing.Some? then existing.value.userId else request.toUser,
                      if existing.Some? then existing.value.attrs else item.attrs) then request.quantity else 0)
  {
    var q, id := request.quantity, request.itemId;
    var debited := Adjust(rows, id, -q);
    StockAdjust(rows, id, -q, sel);
    if existing.Some? {
      CreditedStock(rows, id, existing.value, q, sel);
    } else {
      StockCreate(debited, Item(faults.newId, request.toUser, item.attrs, q), sel);
    }
  }

  lemma CreditedStock(rows: Rows, id: string, target: Item, q: int, sel: Selection)
    requires UniqueIds(rows) && target in rows
    ensures var debited := Adjust(rows, id, -q);
            Stock(Adjust(debited, target.itemId, q), sel)
            == Stock(debited, sel) + (if sel(target.userId, target.attrs) then q else 0)
  {
    var debited := Adjust(rows, id, -q);
    MemberFound(rows, target);
    assert Extends(rows, debited);
    PositionStable(rows, debited, target.itemId);
    StockAdjust(debited, target.itemId, q, sel);
  }

  // ---------- What the caller is told ----------

  ghost predicate Has(rows: Rows, id: string) {
    exists x :: x in rows && x.itemId == id
  }

  // The requests that get as far as a look at the receiver.
  ghost predicate Passes(rows: Rows, request: Request, faults: Faults) {
    request.quantity > 0 && !faults.lookup && exists x :: x in rows && Movable(x, request)
  }

  // The answer, in terms of the table before the call, the request and the faults:
  // each error exactly when its check is the first that fails, and success exactly
  // when none does.
  ghost predicate Answers(rows: Rows, request: Request, faults: Faults, r: Result<(), Reason>) {
    var asked := request.quantity > 0 && !faults.lookup;
    && (r == Err(BadQuantity) <==> request.quantity <= 0)
    && (r == Err(LookupFailed) <==> request.quantity > 0 && faults.lookup)
    && (r == Err(NotFound) <==> asked && !Has(rows, request.itemId))
    && (r == Err(NotOwned) <==>
          (asked && exists x :: x in rows && x.itemId == request.itemId && x.userId != request.fromUser))
    && (r == Err(NotEnough) <==>
          (asked && exists x :: x in rows && x.itemId == request.itemId && x.userId == request.fromUser
                             && x.quantity < request.quantity))
    && (r == Err(NotTradable) <==>
          (asked && exists x :: x in rows && x.itemId == request.itemId && x.userId == request.fromUser
                             && x.quantity >= request.quantity && !x.attrs.isTradable))
    && (r == Err(ReceiverLookupFailed) <==> Passes(rows, request, faults) && faults.receiver)
    && (r == Err(ConsumeFailed) <==> Passes(rows, request, faults) && !faults.receiver && faults.consume)
    && (r == Err(CreditFailed) <==>
          (asked && !faults.receiver && !faults.consume
           && exists x :: x in rows && Movable(x, request)
                       && (faults.credit || !Creditable(rows, x, request.toUser, faults.newId))))
    && (r.Ok? <==>
          (asked && !faults.receiver && !faults.consume && !faults.credit
           && exists x :: x in rows && Movable(x, request) && Creditable(rows, x, request.toUser, faults.newId)))
  }

  // A request that fails a check of its own or of the row it names.
  lemma EarlyAnswer(rows: Rows, request: Request, faults: Faults)
    ensures var phase := Alone(rows, Process(request, Requested), faults).1;
            && (request.quantity <= 0 ==> phase == Rejected(BadQuantity))
            && (request.quantity > 0 && faults.lookup ==> phase == Rejected(LookupFailed))
            && (request.quantity > 0 && !faults.lookup && Check(FindById(rows, request.itemId), request).Rejected? ==>
                  phase == Check(FindById(rows, request.itemId), request))
  {
    AloneUnfolds(rows, Process(request, Requested), faults);
  }

  lemma LateAnswer(rows: Rows, request: Request, faults: Faults, item: Item)
    requires request.quantity > 0 && !faults.lookup
    requires FindById(rows, request.itemId) == Some(item) && Movable(item, request)
    ensures var phase := Alone(rows, Process(request, Requested), faults).1;
            && (faults.receiver ==> phase == Rejected(ReceiverLookupFailed))
            && (!faults.receiver && faults.consume ==> phase == Rejected(ConsumeFailed))
            && (!faults.receiver && !faults.consume ==>
                  if !faults.credit && Creditable(rows, item, request.toUser, faults.newId) then phase == Succeeded(item)
                  else phase.Lost? || phase.Refunded?)
  {
    var existing := Receiving(rows, request, item);
    Follow(rows, Process(request, Requested), faults, rows, Checked(item));
    if faults.receiver {
      AloneUnfolds(rows, Process(request, Checked(item)), faults);
    } else if faults.consume {
      Follow(rows, Process(request, Checked(item)), faults, rows, Matched(item, existing));
      AloneUnfolds(rows, Process(request, Matched(item, existing)), faults);
    } else {
      UpToDebit(rows, request, faults, item);
      AfterDebit(Adjust(rows, request.itemId, -request.quantity), request, item, existing, faults);
      CreditsExactly(rows, request, item, faults);
    }
  }

  // With one row for every id, all that is said of the row asked for is about it.
  lemma OneRow(rows: Rows, id: string, item: Item)
    requires UniqueIds(rows) && FindById(rows, id) == Some(item)
    ensures item in rows && item.itemId == id && forall x :: x in rows && x.itemId == id ==> x == item
  {
    FindByIdExactly(rows, id);
  }

  lemma AnswersExactly(rows: Rows, request: Request, faults: Faults)
    requires UniqueIds(rows)
    ensures Answers(rows, request, faults, ResultOf(Alone(rows, Process(request, Requested), faults).1))
  {
    EarlyAnswer(rows, request, faults);
    match FindById(rows, request.itemId)
    case None =>
      FindByIdExactly(rows, request.itemId);
    case Some(item) =>
      OneRow(rows, request.itemId, item);
      if request.quantity > 0 && !faults.lookup && Movable(item, request) {
        LateAnswer(rows, request, faults, item);
      }
  }

  // The search loop over the receiver's items.
  method FindSame(items: seq<Item>, attrs: Attrs) returns (r: Option<Item>)
    ensures r == FirstSame(items, attrs)
  {
    r := None;
    var i := 0;
    while i < |items| && r.None?
      invariant 0 <= i <= |items|
      invariant FirstSame(items, attrs) == if r.Some? then r else FirstSame(items[i..], attrs)
    {
      if SameKind(attrs, items[i].attrs) {
        r := Some(items[i]);
      }
      i := i + 1;
    }
  }

  method TransferItem(dao: Dao, request: Request, faults: Faults) returns (r: Result<(), Reason>)
    modifies dao
    ensures var (rows, phase) := Alone(old(dao.rows), Process(request, Requested), faults);
            dao.rows == rows && r == ResultOf(phase)
    ensures UniqueIds(old(dao.rows)) ==> Answers(old(dao.rows), request, faults, r)
  {
    if UniqueIds(dao.rows) { AnswersExactly(dao.rows, request, faults); }
    AloneUnfolds(dao.rows, Process(request, Requested), faults);
    if request.quantity <= 0 {
      return Err(BadQuantity);
    }
    var found := dao.GetItemByID(request.itemId, faults.lookup);
    if found.Err? {
      return Err(LookupFailed);
    }
    if found.value.None? {
      return Err(NotFound);
    }
    var item := found.value.value;
    if item.userId != request.fromUser {
      return Err(NotOwned);
    }
    if item.quantity < request.quantity {
      return Err(NotEnough);
    }
    if !item.attrs.isTradable {
      return Err(NotTradable);
    }

    AloneUnfolds(dao.rows, Process(request, Checked(item)), faults);
    var receiverItems := dao.GetUserItems(request.toUser, item.attrs.gameId, faults.receiver);
    if receiverItems.Err? {
      return Err(ReceiverLookupFailed);
    }
    var existing := FindSame(receiverItems.value, item.attrs);
    r := MoveQuantity(dao, request, item, existing, faults);
  }

  // The part of TransferItem that writes.
  method MoveQuantity(dao: Dao, request: Request, item: Item, existing: Option<Item>, faults: Faults)
    returns (r: Result<(), Reason>)
    modifies dao
    ensures var (rows, phase) := Alone(old(dao.rows), Process(request, Matched(item, existing)), faults);
            dao.rows == rows && r == ResultOf(phase)
    ensures r.Ok? <==>
      && !faults.consume && Consume(old(dao.rows), request.itemId, request.quantity).Some?
      && Credit(Consume(old(dao.rows), request.itemId, request.quantity).value, request, item, existing, faults).Some?
    ensures r == Err(ConsumeFailed) <==>
      faults.consume || Consume(old(dao.rows), request.itemId, request.quantity).None?
    ensures r.Ok? || r == Err(ConsumeFailed) || r == Err(CreditFailed)
  {
    AloneUnfolds(dao.rows, Process(request, Matched(item, existing)), faults);
    var consumed := dao.ConsumeItem(request.itemId, request.quantity, faults.consume);
    if !consumed {
      return Err(ConsumeFailed);
    }

    AfterDebit(dao.rows, request, item, existing, faults);
    var credited;
    if existing.Some? {
      credited := dao.AddItemQuantity(existing.value.itemId, request.quantity, faults.credit);
    } else {
      credited := dao.CreateItem(Item(faults.newId, request.toUser, item.attrs, request.quantity), faults.credit);
    }
    if !credited {
      // The result of the refund is not looked at.
      var refunded := dao.AddItemQuantity(request.itemId, request.quantity, faults.refund);
      return Err(CreditFailed);
    }
    return Ok(());
  }
}
