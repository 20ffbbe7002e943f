// What every user holds over interleaved transfers: what was held at the start,
// plus what the transfers have moved to the user, less what they have taken.
module Holdings {
  import opened Wrappers
  import opened Sequences
  import opened ItemStore
  import opened Transfer

  // What a transfer has so far done to what a user holds of a kind.
  function Flow(p: Process, user: string, name: string, itemType: string): int {
    if !p.phase.Debited? && !p.phase.Refunding? && !p.phase.Lost? && !p.phase.Succeeded? then 0
    else if p.phase.item.attrs.name != name || p.phase.item.attrs.itemType != itemType then 0
    else
      (if p.phase.Succeeded? && user == p.request.toUser then p.request.quantity else 0)
      - (if user == p.request.fromUser then p.request.quantity else 0)
  }

  function Flows(procs: seq<Process>, user: string, name: string, itemType: string): (r: seq<int>)
    ensures |r| == |procs| && forall i :: 0 <= i < |procs| ==> r[i] == Flow(procs[i], user, name, itemType)
  {
    seq(|procs|, i requires 0 <= i < |procs| => Flow(procs[i], user, name, itemType))
  }

  // A transfer moves between the rows of its two users.
  ghost predicate Between(p: Process) {
    match p.phase
    case Requested => true
    case Rejected(_) => true
    case Matched(item, existing) => item.userId == p.request.fromUser && OfReceiver(p.request, existing)
    case Debited(item, existing) => item.userId == p.request.fromUser && OfReceiver(p.request, existing)
    case _ => p.phase.item.userId == p.request.fromUser
  }

  ghost predicate OfReceiver(request: Request, existing: Option<Item>) {
    existing.Some? ==> existing.value.userId == request.toUser
  }

  ghost predicate AllBetween(s: System) {
    forall i :: 0 <= i < |s.procs| ==> Between(s.procs[i])
  }

  lemma StepBetween(rows: Rows, p: Process, env: Env)
    requires Between(p)
    ensures Between(Process(p.request, Step(rows, p, env).1))
  {
    if p.phase.Checked? {
      UserItemsExactly(rows, p.request.toUser, p.phase.item.attrs.gameId);
    }
  }

  lemma DebitFlow(rows: Rows, p: Process, env: Env, user: string, name: string, itemType: string)
    requires ProcessOk(rows, p) && Between(p) && p.phase.Matched?
    ensures var (after, phase) := Step(rows, p, env);
            Stock(after, Owned(user, name, itemType)) - Flow(Process(p.request, phase), user, name, itemType)
            == Stock(rows, Owned(user, name, itemType))
  {
    StockAdjust(rows, p.request.itemId, -p.request.quantity, Owned(user, name, itemType));
  }

  lemma CreditFlow(rows: Rows, p: Process, env: Env, user: string, name: string, itemType: string)
    requires ProcessOk(rows, p) && Between(p) && p.phase.Debited?
    ensures var (after, phase) := Step(rows, p, env);
            Stock(after, Owned(user, name, itemType)) - Flow(Process(p.request, phase), user, name, itemType)
            == Stock(rows, Owned(user, name, itemType)) - Flow(p, user, name, itemType)
  {
    var sel := Owned(user, name, itemType);
    match p.phase.existing
    case Some(target) =>
      StockAdjust(rows, target.itemId, p.request.quantity, sel);
    case None =>
      StockCreate(rows, Item(env.newId, p.request.toUser, p.phase.item.attrs, p.request.quantity), sel);
  }

  lemma RefundFlow(rows: Rows, p: Process, env: Env, user: string, name: string, itemType: string)
    requires ProcessOk(rows, p) && Between(p) && p.phase.Refunding?
    ensures var (after, phase) := Step(rows, p, env);
            Stock(after, Owned(user, name, itemType)) - Flow(Process(p.request, phase), user, name, itemType)
            == Stock(rows, Owned(user, name, itemType)) - Flow(p, user, name, itemType)
  {
    StockAdjust(rows, p.request.itemId, p.request.quantity, Owned(user, name, itemType));
  }

  // One call moves as much in the table as in the transfer's account.
  lemma StepFlow(rows: Rows, p: Process, env: Env, user: string, name: string, itemType: string)
    requires ProcessOk(rows, p) && Between(p)
    ensures var (after, phase) := Step(rows, p, env);
            Stock(after, Owned(user, name, itemType)) - Flow(Process(p.request, phase), user, name, itemType)
            == Stock(rows, Owned(user, name, itemType)) - Flow(p, user, name, itemType)
  {
    match p.phase
    case Matched(_, _) => DebitFlow(rows, p, env, user, name, itemType);
    case Debited(_, _) => CreditFlow(rows, p, env, user, name, itemType);
    case Refunding(_) => RefundFlow(rows, p, env, user, name, itemType);
    case _ =>
  }

  // What a user holds without what the transfers have done.
  function Base(s: System, user: string, name: string, itemType: string): int {
    Stock(s.rows, Owned(user, name, itemType)) - Sum(Flows(s.procs, user, name, itemType))
  }

  lemma NextBase(s: System, i: nat, env: Env, user: string, name: string, itemType: string)
    requires i < |s.procs| && Inv(s) && AllBetween(s)
    ensures AllBetween(Next(s, i, env))
    ensures Base(Next(s, i, env), user, name, itemType) == Base(s, user, name, itemType)
  {
    var t := Next(s, i, env);
    StepBetween(s.rows, s.procs[i], env);
    StepFlow(s.rows, s.procs[i], env, user, name, itemType);
    var flow := Flow(t.procs[i], user, name, itemType);
    assert Flows(t.procs, user, name, itemType) == Flows(s.procs, user, name, itemType)[i := flow];
    SumUpdate(Flows(s.procs, user, name, itemType), i, flow);
  }

  // Over every interleaving, with any failures, each user holds of each kind what
  // the transfers account for and nothing else.
  lemma {:induction false} HoldingsAccounted(
    s: System, schedule: seq<(nat, Env)>, user: string, name: string, itemType: string)
    requires ValidSchedule(s, schedule) && Inv(s) && AllBetween(s)
    ensures Base(Execute(s, schedule), user, name, itemType) == Base(s, user, name, itemType)
    decreases |schedule|
  {
    if schedule != [] {
      var (i, env) := schedule[0];
      NextInv(s, i, env);
      NextBase(s, i, env, user, name, itemType);
      assert forall k :: 0 <= k < |schedule| - 1 ==> schedule[1..][k] == schedule[k + 1];
      HoldingsAccounted(Next(s, i, env), schedule[1..], user, name, itemType);
    }
  }

  // From requests on, a user holds what was held at the start, plus the quantity
  // of every successful transfer to the user, less that of every transfer from the
  // user that has succeeded, is on its way or was lost.
  lemma HoldingsFromStart(s: System, schedule: seq<(nat, Env)>, user: string, name: string, itemType: string)
    requires ValidSchedule(s, schedule) && Inv(s)
    requires forall i :: 0 <= i < |s.procs| ==> s.procs[i].phase.Requested?
    ensures var t := Execute(s, schedule);
            Stock(t.rows, Owned(user, name, itemType)) ==
              Stock(s.rows, Owned(user, name, itemType)) + Sum(Flows(t.procs, user, name, itemType))
  {
    HoldingsAccounted(s, schedule, user, name, itemType);
    SumZero(Flows(s.procs, user, name, itemType));
  }
}
