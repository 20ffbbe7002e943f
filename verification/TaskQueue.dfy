// The task queue: tasks wait by descending priority, first come first served
// among equals; workers take them one at a time.
module TaskQueues {
  import opened Wrappers
  import opened Sequences

  datatype Task = Task(id: string, taskType: string, priority: int)

  // ---------- Stable priority order ----------

  ghost predicate Sorted(s: seq<Task>) {
    forall i, j :: 0 <= i < j < |s| ==> s[i].priority >= s[j].priority
  }

  // The tasks of one priority, in order.
  ghost function OfPriority(s: seq<Task>, p: int): seq<Task> {
    if s == [] then [] else OfPriority(Init(s), p) + (if Last(s).priority == p then [Last(s)] else [])
  }

  lemma {:induction false} OfPriorityConcat(a: seq<Task>, b: seq<Task>, p: int)
    ensures OfPriority(a + b, p) == OfPriority(a, p) + OfPriority(b, p)
  {
    if b == [] {
      assert a + b == a;
    } else {
      assert Init(a + b) == a + Init(b);
      OfPriorityConcat(a, Init(b), p);
    }
  }

  lemma {:induction false} NoneOfPriority(s: seq<Task>, p: int)
    requires forall i :: 0 <= i < |s| ==> s[i].priority != p
    ensures OfPriority(s, p) == []
  {
    if s != [] { NoneOfPriority(Init(s), p); }
  }

  // The place the scan finds: the first task that the new one outranks.
  ghost predicate InsertionPoint(s: seq<Task>, t: Task, i: nat) {
    && i <= |s|
    && (forall k :: 0 <= k < i ==> s[k].priority >= t.priority)
    && (i < |s| ==> s[i].priority < t.priority)
  }

  ghost function Inserted(s: seq<Task>, t: Task, i: nat): seq<Task>
    requires i <= |s|
  {
    s[..i] + [t] + s[i..]
  }

  // A task moves past a stretch that has none of its priority.
  lemma {:induction false} PastOthers(front: seq<Task>, t: Task, back: seq<Task>, p: int)
    requires forall k :: 0 <= k < |back| ==> back[k].priority != t.priority
    ensures OfPriority(front + [t] + back, p) == OfPriority(front + back + [t], p)
  {
    OfPriorityConcat(front + [t], back, p);
    OfPriorityConcat(front, [t], p);
    OfPriorityConcat(front + back, [t], p);
    OfPriorityConcat(front, back, p);
    if p == t.priority { NoneOfPriority(back, p); } else { NoneOfPriority([t], p); }
  }

  lemma {:induction false} InsertedOfPriority(s: seq<Task>, t: Task, i: nat, p: int)
    requires Sorted(s) && InsertionPoint(s, t, i)
    ensures OfPriority(Inserted(s, t, i), p) == OfPriority(s + [t], p)
  {
    assert s[..i] + s[i..] == s;
    PastOthers(s[..i], t, s[i..], p);
  }

  lemma {:induction false} InsertStable(s: seq<Task>, t: Task, i: nat)
    requires Sorted(s) && InsertionPoint(s, t, i)
    ensures Sorted(Inserted(s, t, i))
    ensures forall p :: OfPriority(Inserted(s, t, i), p) == OfPriority(s + [t], p)
  {
    forall p ensures OfPriority(Inserted(s, t, i), p) == OfPriority(s + [t], p) {
      InsertedOfPriority(s, t, i, p);
    }
  }

  // s is sorted by descending priority, and has the tasks of input, in their
  // order within each priority.
  ghost predicate StableSortOf(s: seq<Task>, input: seq<Task>) {
    Sorted(s) && forall p :: OfPriority(s, p) == OfPriority(input, p)
  }

  // A list has one stable sort only.
  lemma StableSortUnique(a: seq<Task>, b: seq<Task>, input: seq<Task>)
    requires StableSortOf(a, input) && StableSortOf(b, input)
    ensures a == b
  {
    forall p ensures OfPriority(a, p) == OfPriority(b, p) {
      assert OfPriority(a, p) == OfPriority(input, p) == OfPriority(b, p);
    }
    SortedUnique(a, b);
  }

  lemma {:induction false} SortedUnique(a: seq<Task>, b: seq<Task>)
    requires Sorted(a) && Sorted(b)
    requires forall p :: OfPriority(a, p) == OfPriority(b, p)
    ensures a == b
  {
    if a == [] || b == [] {
      if a != [] { LastOfPriority(a); }
      if b != [] { LastOfPriority(b); }
    } else {
      LastOfPriority(a);
      LastOfPriority(b);
      LowestLast(a, b);
      LowestLast(b, a);
      var p := Last(a).priority;
      assert Last(OfPriority(a, p)) == Last(a) && Last(OfPriority(b, p)) == Last(b);
      assert Last(b).priority == p;
      forall q ensures OfPriority(Init(a), q) == OfPriority(Init(b), q) {
        var x, y := OfPriority(Init(a), q), OfPriority(Init(b), q);
        assert OfPriority(a, q) == OfPriority(b, q);
        if q == p {
          assert x + [Last(a)] == y + [Last(b)];
          assert x == (x + [Last(a)])[..|x|] && y == (y + [Last(b)])[..|y|];
        } else {
          assert x + [] == x && y + [] == y;
        }
      }
      SortedUnique(Init(a), Init(b));
      assert a == Init(a) + [Last(a)] && b == Init(b) + [Last(b)];
    }
  }

  lemma LastOfPriority(a: seq<Task>)
    requires a != []
    ensures OfPriority(a, Last(a).priority) != [] && Last(OfPriority(a, Last(a).priority)) == Last(a)
  {
  }

  // b has a task of a's last priority, so b's last priority is no higher.
  lemma LowestLast(a: seq<Task>, b: seq<Task>)
    requires a != [] && b != [] && Sorted(b)
    requires forall p :: OfPriority(a, p) == OfPriority(b, p)
    ensures Last(b).priority <= Last(a).priority
  {
    var p := Last(a).priority;
    LastOfPriority(a);
    if forall i :: 0 <= i < |b| ==> b[i].priority != p { NoneOfPriority(b, p); }
  }

  // Lists with the same tasks of every priority have the same tasks.
  lemma {:induction false} CountOfPriority(s: seq<Task>, t: Task)
    ensures multiset(s)[t] == multiset(OfPriority(s, t.priority))[t]
  {
    if s != [] {
      var front, last := Init(s), Last(s);
      CountOfPriority(front, t);
      assert s == front + [last];
      assert multiset(s) == multiset(front) + multiset{last};
      if last.priority == t.priority {
        assert OfPriority(s, t.priority) == OfPriority(front, t.priority) + [last];
      } else {
        assert OfPriority(s, t.priority) == OfPriority(front, t.priority);
      }
    }
  }

  lemma SameTasks(a: seq<Task>, b: seq<Task>)
    requires forall p :: OfPriority(a, p) == OfPriority(b, p)
    ensures multiset(a) == multiset(b)
  {
    forall t: Task ensures multiset(a)[t] == multiset(b)[t] {
      CountOfPriority(a, t);
      CountOfPriority(b, t);
      assert OfPriority(a, t.priority) == OfPriority(b, t.priority);
    }
  }

  // The place for a task, and the queue with the task in it.
  ghost function FirstLower(s: seq<Task>, t: Task): (i: nat)
    ensures InsertionPoint(s, t, i)
  {
    if s == [] || s[0].priority < t.priority then 0 else
    var i := FirstLower(s[1..], t);
    assert forall k :: 1 <= k < |s| ==> s[k] == s[1..][k - 1];
    i + 1
  }

  lemma InsertionPointUnique(s: seq<Task>, t: Task, i: nat, j: nat)
    requires InsertionPoint(s, t, i) && InsertionPoint(s, t, j)
    ensures i == j
  {
  }

  ghost function Queued(s: seq<Task>, t: Task): seq<Task> {
    Inserted(s, t, FirstLower(s, t))
  }

  lemma AcceptOf(gone: seq<Task>, tasks: seq<Task>, t: Task, next: seq<Task>, accepted: seq<Task>, p: int)
    requires OfPriority(accepted, p) == OfPriority(gone + tasks, p)
    requires OfPriority(next, p) == OfPriority(tasks + [t], p)
    ensures OfPriority(accepted + [t], p) == OfPriority(gone + next, p)
  {
    var left, waiting, added := OfPriority(gone, p), OfPriority(tasks, p), OfPriority([t], p);
    OfPriorityConcat(accepted, [t], p);
    OfPriorityConcat(gone, tasks, p);
    OfPriorityConcat(gone, next, p);
    OfPriorityConcat(tasks, [t], p);
    Associative(left, waiting, added);
  }

  lemma Accept(gone: seq<Task>, tasks: seq<Task>, t: Task, accepted: seq<Task>)
    requires Sorted(tasks)
    requires forall p :: OfPriority(accepted, p) == OfPriority(gone + tasks, p)
    ensures Sorted(Queued(tasks, t))
    ensures forall p :: OfPriority(accepted + [t], p) == OfPriority(gone + Queued(tasks, t), p)
  {
    InsertStable(tasks, t, FirstLower(tasks, t));
    forall p ensures OfPriority(accepted + [t], p) == OfPriority(gone + Queued(tasks, t), p) {
      AcceptOf(gone, tasks, t, Queued(tasks, t), accepted, p);
    }
  }

  // ---------- Submitters, workers and Close, interleaved ----------

  // Each event is one call under the queue's lock.
  datatype Event = Submit(task: Task) | Tick(worker: nat) | CloseQueue

  // A task that has left the queue, with the worker that took it if it was not dropped.
  datatype Departure = Departure(task: Task, worker: Option<nat>)

  datatype Scheduler = Scheduler(tasks: seq<Task>, accepted: seq<Task>, gone: seq<Departure>)

  ghost function Dropped(tasks: seq<Task>): (r: seq<Departure>)
    ensures |r| == |tasks| && Leaving(r) == tasks
  {
    if tasks == [] then [] else
    var r := [Departure(tasks[0], None)] + Dropped(tasks[1..]);
    assert r[1..] == Dropped(tasks[1..]);
    r
  }

  ghost function Leaving(gone: seq<Departure>): (r: seq<Task>)
    ensures |r| == |gone| && forall i :: 0 <= i < |gone| ==> r[i] == gone[i].task
  {
    seq(|gone|, i requires 0 <= i < |gone| => gone[i].task)
  }

  ghost function Serve(maxSize: nat, s: Scheduler, e: Event): Scheduler {
    match e
    case Submit(t) =>
      if |s.tasks| >= maxSize then s else Scheduler(Queued(s.tasks, t), s.accepted + [t], s.gone)
    case Tick(w) =>
      if s.tasks == [] then s
      else Scheduler(s.tasks[1..], s.accepted, s.gone + [Departure(s.tasks[0], Some(w))])
    case CloseQueue => Scheduler([], s.accepted, s.gone + Dropped(s.tasks))
  }

  ghost function ServeAll(maxSize: nat, events: seq<Event>): Scheduler {
    if events == [] then Scheduler([], [], []) else Serve(maxSize, ServeAll(maxSize, Init(events)), Last(events))
  }

  ghost predicate InOrder(maxSize: nat, s: Scheduler) {
    && Sorted(s.tasks) && |s.tasks| <= maxSize
    && forall p :: OfPriority(s.accepted, p) == OfPriority(Leaving(s.gone) + s.tasks, p)
  }

  lemma LeavingAppend(gone: seq<Departure>, more: seq<Departure>)
    ensures Leaving(gone + more) == Leaving(gone) + Leaving(more)
  {
  }

  // Taking or dropping tasks from the front changes nothing of the whole.
  lemma Departs(gone: seq<Departure>, more: seq<Departure>, tasks: seq<Task>, rest: seq<Task>)
    requires tasks == Leaving(more) + rest
    ensures Leaving(gone + more) + rest == Leaving(gone) + tasks
  {
    LeavingAppend(gone, more);
  }

  lemma {:induction false} InsertedTasks(s: seq<Task>, t: Task, i: nat)
    requires i <= |s|
    ensures multiset(Inserted(s, t, i)) == multiset(s) + multiset{t}
  {
    var front, back := s[..i], s[i..];
    assert s == front + back;
    assert multiset(front + [t] + back) == multiset(front) + multiset{t} + multiset(back);
  }

  // A submit is accepted exactly when there is room.
  lemma {:induction false} SubmitExactly(maxSize: nat, s: Scheduler, t: Task)
    ensures var a := Serve(maxSize, s, Submit(t));
            && a.gone == s.gone
            && (|s.tasks| < maxSize ==> a.accepted == s.accepted + [t] && multiset(a.tasks) == multiset(s.tasks) + multiset{t})
            && (|s.tasks| >= maxSize ==> a == s)
  {
    InsertedTasks(s.tasks, t, FirstLower(s.tasks, t));
  }

  // A worker takes a task exactly when one waits, and then one that no other outranks.
  lemma {:induction false} TakeExactly(maxSize: nat, s: Scheduler, w: nat)
    requires Sorted(s.tasks)
    ensures var a := Serve(maxSize, s, Tick(w));
            && a.accepted == s.accepted
            && (s.tasks == [] ==> a == s)
            && (s.tasks != [] ==>
                  && |a.gone| == |s.gone| + 1 && s.gone <= a.gone && Last(a.gone).worker == Some(w)
                  && s.tasks == [Last(a.gone).task] + a.tasks
                  && forall k :: 0 <= k < |s.tasks| ==> s.tasks[k].priority <= Last(a.gone).task.priority)
  {
    if s.tasks != [] {
      assert s.tasks == [s.tasks[0]] + s.tasks[1..];
    }
  }

  // A close drops all that wait.
  lemma {:induction false} CloseExactly(maxSize: nat, s: Scheduler)
    ensures var a := Serve(maxSize, s, CloseQueue);
            && a.accepted == s.accepted && a.tasks == []
            && Leaving(a.gone) == Leaving(s.gone) + s.tasks
            && s.gone <= a.gone && forall k :: |s.gone| <= k < |a.gone| ==> a.gone[k].worker.None?
  {
    LeavingAppend(s.gone, Dropped(s.tasks));
    DroppedByNone(s.tasks);
  }

  lemma {:induction false} DroppedByNone(tasks: seq<Task>)
    ensures forall k :: 0 <= k < |tasks| ==> Dropped(tasks)[k].worker.None?
  {
    if tasks != [] { DroppedByNone(tasks[1..]); }
  }

  lemma ServeInOrder(maxSize: nat, s: Scheduler, e: Event)
    requires InOrder(maxSize, s)
    ensures InOrder(maxSize, Serve(maxSize, s, e))
  {
    match e
    case Submit(t) =>
      if |s.tasks| < maxSize { Accept(Leaving(s.gone), s.tasks, t, s.accepted); }
    case Tick(w) =>
      if s.tasks != [] { Departs(s.gone, [Departure(s.tasks[0], Some(w))], s.tasks, s.tasks[1..]); }
    case CloseQueue =>
      Departs(s.gone, Dropped(s.tasks), s.tasks, []);
  }

  // In every interleaving: the queue stays sorted and within its bound; for each
  // priority, tasks leave in the order in which they were accepted; and every
  // accepted task is waiting or has left, to one worker or dropped, just once.
  lemma {:induction false} EveryRun(maxSize: nat, events: seq<Event>)
    ensures var s := ServeAll(maxSize, events);
            && InOrder(maxSize, s)
            && multiset(s.accepted) == multiset(Leaving(s.gone)) + multiset(s.tasks)
  {
    var s := ServeAll(maxSize, events);
    if events == [] {
      assert Leaving(s.gone) + s.tasks == [];
    } else {
      EveryRun(maxSize, Init(events));
      ServeInOrder(maxSize, ServeAll(maxSize, Init(events)), Last(events));
    }
    SameTasks(s.accepted, Leaving(s.gone) + s.tasks);
  }

  // ---------- The queue ----------

  class PriorityQueue {
    var tasks: seq<Task>
    const maxSize: nat

    // Every task accepted, and every task that has left, in order.
    ghost var accepted: seq<Task>
    ghost var gone: seq<Task>

    // For each priority, the tasks accepted are those that have left followed by
    // those still waiting: nothing is lost, doubled or overtaken by an equal.
    ghost predicate Valid()
      reads this
    {
      && Sorted(tasks) && |tasks| <= maxSize
      && forall p :: OfPriority(accepted, p) == OfPriority(gone + tasks, p)
    }

    constructor (maxSize: nat)
      ensures Valid() && this.maxSize == maxSize && tasks == [] && accepted == [] && gone == []
    {
      this.maxSize := maxSize;
      tasks, accepted, gone := [], [], [];
    }

    method Enqueue(task: Task) returns (ok: bool)
      requires Valid()
      modifies this`tasks, this`accepted
      ensures Valid() && (ok <==> |old(tasks)| < maxSize)
      ensures !ok ==> tasks == old(tasks) && accepted == old(accepted)
      ensures ok ==> accepted == old(accepted) + [task]
      ensures ok ==> tasks == Queued(old(tasks), task)
    {
      if |tasks| >= maxSize {
        return false;
      }
      var insertIndex := |tasks|;
      for i := 0 to |tasks|
        invariant insertIndex == |tasks|
        invariant forall k :: 0 <= k < i ==> tasks[k].priority >= task.priority
      {
        if task.priority > tasks[i].priority {
          insertIndex := i;
          break;
        }
      }
      InsertionPointUnique(tasks, task, insertIndex, FirstLower(tasks, task));
      Accept(gone, tasks, task, accepted);
      tasks := tasks[..insertIndex] + [task] + tasks[insertIndex..];
      accepted := accepted + [task];
      return true;
    }

    // Takes a task that no waiting task outranks.
    method Dequeue() returns (r: Option<Task>)
      requires Valid()
      modifies this`tasks, this`gone
      ensures Valid() && (r.None? <==> old(tasks) == [])
      ensures r.None? ==> tasks == old(tasks) && gone == old(gone)
      ensures r.Some? ==>
        && old(tasks) == [r.value] + tasks && gone == old(gone) + [r.value]
        && forall k :: 0 <= k < |old(tasks)| ==> old(tasks)[k].priority <= r.value.priority
    {
      if |tasks| == 0 {
        r := None;
      } else {
        var task := tasks[0];
        assert gone + tasks == (gone + [task]) + tasks[1..];
        tasks := tasks[1..];
        gone := gone + [task];
        r := Some(task);
      }
    }

    // Close drops everything that waits; the queue can be used again.
    method Close()
      requires Valid()
      modifies this`tasks, this`gone
      ensures Valid() && tasks == [] && gone == old(gone) + old(tasks)
    {
      assert (gone + tasks) + [] == gone + tasks;
      gone := gone + tasks;
      tasks := [];
    }
  }

  // Emptying a queue that was only filled gives the stable sort of what it was
  // filled with.
  method Drain(queue: PriorityQueue) returns (drained: seq<Task>)
    requires queue.Valid() && queue.gone == []
    modifies queue`tasks, queue`gone
    ensures queue.Valid() && queue.tasks == []
    ensures StableSortOf(drained, queue.accepted)
  {
    assert [] + queue.tasks == queue.tasks;
    drained := [];
    while queue.tasks != []
      invariant queue.Valid()
      invariant drained + queue.tasks == old(queue.tasks)
      decreases |queue.tasks|
    {
      ghost var before := queue.tasks;
      var next := queue.Dequeue();
      assert drained + before == (drained + [next.value]) + queue.tasks;
      drained := drained + [next.value];
    }
    assert drained == old(queue.tasks);
  }
}
