// The priority queue with handles: a binary heap of items that know their
// position. HeapUp, HeapDown, HeapPush, HeapPop, HeapFix and HeapRemove are the
// functions of Go's container/heap that the queue is driven by.
module IndexedHeap {
  import opened Wrappers
  import opened HeapOrder
  import opened Sequences

  // What the comparison function sees of an item.
  datatype Elem<T> = Elem(value: T, priority: int)

  class Item<T> {
    var value: T
    var priority: int
    var index: int

    constructor (value: T, priority: int)
      ensures this.value == value && this.priority == priority && index == 0
    {
      this.value := value;
      this.priority := priority;
      index := 0;
    }

    function Look(): Elem<T>
      reads this`value, this`priority
    {
      Elem(value, priority)
    }
  }

  // Go's division by two, which truncates towards zero.
  function Half(x: int): int {
    if x < 0 then -(-x / 2) else x / 2
  }

  class PriorityQueue<T(!new)> {
    const less: (Elem<T>, Elem<T>) -> bool
    var items: seq<Item<T>>

    // The values and priorities of items, position by position.
    ghost var elems: seq<Elem<T>>
    // Every handle this queue has ever given out.
    ghost var handles: set<Item<T>>

    // items, elems and the back-pointers agree; a handle that is not in the
    // queue carries the index -1.
    ghost predicate Indexed()
      reads this, handles
    {
      && |elems| == |items|
      && (forall i :: 0 <= i < |items| ==>
            && items[i] in handles && items[i].index == i
            && elems[i] == items[i].Look())
      && (forall h :: h in handles ==>
            h.index == -1 || (0 <= h.index < |items| && items[h.index] == h))
    }

    ghost predicate Valid()
      reads this, handles
    {
      Indexed() && StrictWeak(less) && Heap(less, elems, |elems|)
    }

    constructor (less: (Elem<T>, Elem<T>) -> bool)
      requires StrictWeak(less)
      ensures Valid() && this.less == less && elems == [] && handles == {}
    {
      this.less := less;
      items := [];
      elems, handles := [], {};
    }

    // ---------- heap.Interface ----------

    method Swap(i: int, j: int)
      requires Indexed() && 0 <= i < |items| && 0 <= j < |items|
      modifies this`items, this`elems, handles`index
      ensures Indexed() && elems == Swapped(old(elems), i, j) && items == Swapped(old(items), i, j)
      ensures forall h :: h in handles ==> (h.index == -1 <==> old(h.index) == -1)
    {
      items := Swapped(items, i, j);
      items[i].index := i;
      items[j].index := j;
      elems := Swapped(elems, i, j);
    }

    method Push(item: Item<T>)
      requires Indexed() && item !in handles
      modifies this`items, this`elems, this`handles, item`index
      ensures Indexed() && elems == old(elems) + [item.Look()]
      ensures handles == old(handles) + {item} && item.index == |old(elems)|
    {
      item.index := |items|;
      items := items + [item];
      elems := elems + [item.Look()];
      handles := handles + {item};
    }

    method Pop() returns (item: Item<T>)
      requires Indexed() && |items| > 0
      modifies this`items, this`elems, handles`index
      ensures Indexed() && elems == Init(old(elems))
      ensures item == old(items)[|old(items)| - 1] && item in handles && item.index == -1
      ensures forall h :: h in handles && h != item ==> (h.index == -1 <==> old(h.index) == -1)
    {
      var n := |items|;
      item := items[n - 1];
      item.index := -1;
      items := items[..n - 1];
      elems := Init(elems);
    }

    // ---------- container/heap ----------

    method HeapUp(j0: int, ghost n: nat)
      requires Indexed() && StrictWeak(less) && n <= |elems| && -1 <= j0 < n
      requires HeapBut(less, elems, n, j0) && ChildrenOk(less, elems, n, j0)
      modifies this`items, this`elems, handles`index
      ensures Indexed() && |elems| == old(|elems|) && Heap(less, elems, n)
      ensures multiset(elems) == multiset(old(elems))
      ensures forall k :: n <= k < |items| ==> items[k] == old(items)[k]
      ensures forall h :: h in handles ==> (h.index == -1 <==> old(h.index) == -1)
    {
      var j := j0;
      while true
        invariant Indexed() && -1 <= j < n <= |elems| == old(|elems|)
        invariant HeapBut(less, elems, n, j) && ChildrenOk(less, elems, n, j)
        invariant multiset(elems) == multiset(old(elems))
        invariant forall k :: n <= k < |items| ==> items[k] == old(items)[k]
        invariant forall h :: h in handles ==> (h.index == -1 <==> old(h.index) == -1)
        decreases j
      {
        var i := Half(j - 1);
        if i == j || !less(items[j].Look(), items[i].Look()) {
          break;
        }
        UpStep(less, elems, n, j);
        Swap(i, j);
        j := i;
      }
      HeapRepaired(less, elems, n, j);
    }

    // One turn of the loop of down: the child that must rise above i, or -1.
    method RisingChild(i: int, n: nat) returns (c: int)
      requires Indexed() && StrictWeak(less) && -1 <= i <= n <= |elems|
      ensures if c == -1 then ChildrenOk(less, elems, n, i) else Rises(less, elems, n, i, c)
    {
      var j1 := 2 * i + 1;
      if j1 >= n || j1 < 0 {
        NoChildren(less, elems, n, i);
        return -1;
      }
      c := j1;
      var j2 := j1 + 1;
      if j2 < n && less(items[j2].Look(), items[j1].Look()) {
        c := j2;
      }
      SmallestChild(less, elems, n, i, c);
      if !less(items[c].Look(), items[i].Look()) {
        c := -1;
      }
    }

    // The swap of that turn.
    method Sink(i: int, j: int, ghost n: nat)
      requires Indexed() && StrictWeak(less) && n <= |elems|
      requires HeapBut(less, elems, n, i) && Rises(less, elems, n, i, j)
      modifies this`items, this`elems, handles`index
      ensures Indexed() && |elems| == old(|elems|)
      ensures HeapBut(less, elems, n, j) && LinkOk(less, elems, j)
      ensures multiset(elems) == multiset(old(elems))
      ensures forall k :: n <= k < |items| ==> items[k] == old(items)[k]
      ensures forall h :: h in handles ==> (h.index == -1 <==> old(h.index) == -1)
    {
      DownStep(less, elems, n, i, j);
      Swap(i, j);
    }

    // Position i stands right with its parent and its children.
    ghost predicate Settled(n: nat, i: int)
      requires n <= |elems|
      reads this
    {
      0 < i < n && LinkOk(less, elems, i) && ChildrenOk(less, elems, n, i)
    }

    // One turn: j rises above i, and the child that must then rise above it is found.
    method Turn(i: int, j: int, n: nat) returns (next: int)
      requires Indexed() && StrictWeak(less) && n <= |elems|
      requires HeapBut(less, elems, n, i) && Rises(less, elems, n, i, j)
      modifies this`items, this`elems, handles`index
      ensures Indexed() && |elems| == old(|elems|) && HeapBut(less, elems, n, j)
      ensures if next == -1 then Settled(n, j) else Rises(less, elems, n, j, next)
      ensures multiset(elems) == multiset(old(elems))
      ensures forall k :: n <= k < |items| ==> items[k] == old(items)[k]
      ensures forall h :: h in handles ==> (h.index == -1 <==> old(h.index) == -1)
    {
      Sink(i, j, n);
      next := RisingChild(j, n);
    }

    // The turns of the loop from one on at which j rises above i.
    method SinkFrom(i0: int, j0: int, n: nat)
      requires Indexed() && StrictWeak(less) && n <= |elems|
      requires HeapBut(less, elems, n, i0) && Rises(less, elems, n, i0, j0)
      modifies this`items, this`elems, handles`index
      ensures Indexed() && |elems| == old(|elems|) && Heap(less, elems, n)
      ensures multiset(elems) == multiset(old(elems))
      ensures forall k :: n <= k < |items| ==> items[k] == old(items)[k]
      ensures forall h :: h in handles ==> (h.index == -1 <==> old(h.index) == -1)
    {
      var i, j := i0, j0;
      while j != -1
        invariant Indexed() && |elems| == old(|elems|) && HeapBut(less, elems, n, i)
        invariant if j == -1 then Settled(n, i) else Rises(less, elems, n, i, j)
        invariant multiset(elems) == multiset(old(elems))
        invariant forall k :: n <= k < |items| ==> items[k] == old(items)[k]
        invariant forall h :: h in handles ==> (h.index == -1 <==> old(h.index) == -1)
        decreases if j == -1 then 0 else n - i
      {
        var next := Turn(i, j, n);
        i, j := j, next;
      }
      HeapRepaired(less, elems, n, i);
    }

    method HeapDown(i0: int, n: nat) returns (moved: bool)
      requires Indexed() && StrictWeak(less) && -1 <= i0 <= n <= |elems|
      requires HeapBut(less, elems, n, i0)
      modifies this`items, this`elems, handles`index
      ensures Indexed() && |elems| == old(|elems|)
      ensures moved ==> Heap(less, elems, n)
      ensures !moved ==> elems == old(elems) && items == old(items) && ChildrenOk(less, elems, n, i0)
      ensures multiset(elems) == multiset(old(elems))
      ensures forall k :: n <= k < |items| ==> items[k] == old(items)[k]
      ensures forall h :: h in handles ==> (h.index == -1 <==> old(h.index) == -1)
    {
      var j := RisingChild(i0, n);
      moved := j != -1;
      if moved {
        SinkFrom(i0, j, n);
      }
    }

    // Down, and if nothing moved up, within the first n items.
    method DownOrUp(i: int, n: nat)
      requires Indexed() && StrictWeak(less) && n <= |elems| && -1 <= i < n
      requires HeapBut(less, elems, n, i)
      modifies this`items, this`elems, handles`index
      ensures Indexed() && |elems| == old(|elems|) && Heap(less, elems, n)
      ensures multiset(elems) == multiset(old(elems))
      ensures forall k :: n <= k < |items| ==> items[k] == old(items)[k]
      ensures forall h :: h in handles ==> (h.index == -1 <==> old(h.index) == -1)
    {
      var moved := HeapDown(i, n);
      if !moved {
        HeapUp(i, n);
      }
    }

    // Repairs the heap after a change at position i; -1 stands for a handle that
    // has left the queue, and then nothing happens.
    method HeapFix(i: int)
      requires Indexed() && StrictWeak(less) && -1 <= i < |elems|
      requires HeapBut(less, elems, |elems|, i)
      modifies this`items, this`elems, handles`index
      ensures Valid() && |elems| == old(|elems|)
      ensures multiset(elems) == multiset(old(elems))
      ensures forall h :: h in handles ==> (h.index == -1 <==> old(h.index) == -1)
    {
      DownOrUp(i, |items|);
    }

    // Swaps the item at position i with the last one.
    method SwapLast(i: int)
      requires Valid() && 0 <= i < |items| - 1
      modifies this`items, this`elems, handles`index
      ensures Indexed() && |elems| == old(|elems|) && HeapBut(less, elems, |elems| - 1, i)
      ensures multiset(elems) == multiset(old(elems))
      ensures items[|items| - 1] == old(items)[i] && elems[|elems| - 1] == old(elems)[i]
      ensures forall h :: h in handles ==> (h.index == -1 <==> old(h.index) == -1)
    {
      var n := |items| - 1;
      HeapReplaced(less, elems, Swapped(elems, i, n), n, i);
      Swap(i, n);
    }

    // Moves the item at position i to the end and repairs the rest.
    method HeapExclude(i: int)
      requires Valid() && 0 <= i < |items|
      modifies this`items, this`elems, handles`index
      ensures Indexed() && |elems| == old(|elems|) && Heap(less, elems, |elems| - 1)
      ensures multiset(elems) == multiset(old(elems))
      ensures items[|items| - 1] == old(items)[i] && elems[|elems| - 1] == old(elems)[i]
      ensures forall h :: h in handles ==> (h.index == -1 <==> old(h.index) == -1)
    {
      var n := |items| - 1;
      if n != i {
        SwapLast(i);
        DownOrUp(i, n);
      }
    }

    // ---------- The queue's own methods ----------

    method PushItem(value: T, priority: int) returns (item: Item<T>)
      requires Valid()
      modifies this`items, this`elems, this`handles, handles`index
      ensures Valid() && fresh(item) && handles == old(handles) + {item}
      ensures item.value == value && item.priority == priority && item.index != -1
      ensures multiset(elems) == multiset(old(elems)) + multiset{Elem(value, priority)}
      ensures forall h :: h in old(handles) ==> (h.index == -1 <==> old(h.index) == -1)
    {
      item := new Item(value, priority);
      HeapExtended(less, elems, item.Look());
      Push(item);
      var n := |items|;
      HeapUp(n - 1, n);
    }

    // heap.Remove: takes out the item at position i.
    method HeapRemove(i: int) returns (item: Item<T>)
      requires Valid() && 0 <= i < |items|
      modifies this`items, this`elems, handles`index
      ensures Valid() && item == old(items)[i] && item in handles && item.index == -1
      ensures multiset(elems) == multiset(old(elems)) - multiset{old(elems)[i]}
      ensures forall h :: h in handles && h != item ==> (h.index == -1 <==> old(h.index) == -1)
    {
      HeapExclude(i);
      ghost var before := elems;
      assert before == Init(before) + [before[|before| - 1]];
      item := Pop();
      HeapPrefix(less, before, |before| - 1);
    }

    // The first half of heap.Pop: moves the root to the end and sinks its successor.
    method HeapExcludeRoot()
      requires Valid() && |items| > 0
      modifies this`items, this`elems, handles`index
      ensures Indexed() && |elems| == old(|elems|) && Heap(less, elems, |elems| - 1)
      ensures multiset(elems) == multiset(old(elems))
      ensures items[|items| - 1] == old(items)[0] && elems[|elems| - 1] == old(elems)[0]
      ensures forall h :: h in handles ==> (h.index == -1 <==> old(h.index) == -1)
    {
      var n := |items| - 1;
      if n > 0 {
        SwapLast(0);
        var moved := HeapDown(0, n);
        if !moved { HeapRepaired(less, elems, n, 0); }
      }
    }

    // heap.Pop: takes out the root.
    method HeapPop() returns (item: Item<T>)
      requires Valid() && |items| > 0
      modifies this`items, this`elems, handles`index
      ensures Valid() && item == old(items)[0] && item in handles && item.index == -1
      ensures multiset(elems) == multiset(old(elems)) - multiset{old(elems)[0]}
      ensures forall h :: h in handles && h != item ==> (h.index == -1 <==> old(h.index) == -1)
    {
      HeapExcludeRoot();
      ghost var before := elems;
      assert before == Init(before) + [Last(before)];
      item := Pop();
      HeapPrefix(less, before, |before| - 1);
    }

    // No item in the queue precedes the one whose value comes back.
    method PopItem() returns (r: Option<T>)
      requires Valid()
      modifies this`items, this`elems, handles`index
      ensures Valid() && (r.None? <==> old(items) == [])
      ensures r.None? ==> elems == []
      ensures r.Some? ==>
        && r.value == old(elems)[0].value && old(items)[0].index == -1
        && (forall j :: 0 <= j < |old(elems)| ==> !less(old(elems)[j], old(elems)[0]))
        && multiset(elems) == multiset(old(elems)) - multiset{old(elems)[0]}
        && forall h :: h in handles && h != old(items)[0] ==> (h.index == -1 <==> old(h.index) == -1)
    {
      if |items| == 0 {
        r := None;
      } else {
        forall j | 0 <= j < |elems| ensures !less(elems[j], elems[0]) {
          RootIsFirst(less, elems, |elems|, j);
        }
        var item := HeapPop();
        r := Some(item.value);
      }
    }

    method Peek() returns (r: Option<T>)
      requires Valid()
      ensures r.None? <==> elems == []
      ensures r.Some? ==>
        r.value == elems[0].value && forall j :: 0 <= j < |elems| ==> !less(elems[j], elems[0])
    {
      if |items| == 0 {
        r := None;
      } else {
        forall j | 0 <= j < |elems| ensures !less(elems[j], elems[0]) {
          RootIsFirst(less, elems, |elems|, j);
        }
        r := Some(items[0].value);
      }
    }

    // The assignments of Update.
    method Overwrite(item: Item<T>, value: T, priority: int)
      requires Valid() && item in handles
      modifies this`elems, item`value, item`priority
      ensures Indexed() && |elems| == old(|elems|) && HeapBut(less, elems, |elems|, item.index)
      ensures item.value == value && item.priority == priority
      ensures multiset(elems) ==
        if item.index == -1 then multiset(old(elems))
        else multiset(old(elems)) - multiset{old(item.Look())} + multiset{Elem(value, priority)}
    {
      item.value := value;
      item.priority := priority;
      if item.index != -1 {
        ghost var changed := elems[item.index := item.Look()];
        HeapReplaced(less, elems, changed, |elems|, item.index);
        elems := changed;
      }
    }

    // Changes a handle in place. A handle that has left the queue stays out and
    // leaves the queue as it was.
    method Update(item: Item<T>, value: T, priority: int)
      requires Valid() && item in handles
      modifies this`items, this`elems, handles`index, item`value, item`priority
      ensures Valid() && item.value == value && item.priority == priority
      ensures multiset(elems) ==
        if old(item.index) == -1 then multiset(old(elems))
        else multiset(old(elems)) - multiset{old(item.Look())} + multiset{Elem(value, priority)}
      ensures forall h :: h in handles ==> (h.index == -1 <==> old(h.index) == -1)
    {
      Overwrite(item, value, priority);
      HeapFix(item.index);
    }

    // Takes a handle out, wherever in the heap it is.
    method Remove(item: Item<T>)
      requires Valid() && item in handles && item.index != -1
      modifies this`items, this`elems, handles`index
      ensures Valid() && item.index == -1
      ensures multiset(elems) == multiset(old(elems)) - multiset{item.Look()}
      ensures forall h :: h in handles && h != item ==> (h.index == -1 <==> old(h.index) == -1)
    {
      var removed := HeapRemove(item.index);
    }
  }

  // ---------- Emptying the queue ----------

  ghost predicate InOrder<T>(less: (Elem<T>, Elem<T>) -> bool, order: seq<Elem<T>>) {
    forall i, j :: 0 <= i < j < |order| ==> !less(order[j], order[i])
  }

  // No waiting element precedes one that has come out.
  ghost predicate Behind<T(!new)>(less: (Elem<T>, Elem<T>) -> bool, waiting: multiset<Elem<T>>, order: seq<Elem<T>>) {
    forall e, k :: e in waiting && 0 <= k < |order| ==> !less(e, order[k])
  }

  lemma NextInOrder<T(!new)>(
    less: (Elem<T>, Elem<T>) -> bool, elems: seq<Elem<T>>, order: seq<Elem<T>>, rest: multiset<Elem<T>>)
    requires elems != [] && forall j :: 0 <= j < |elems| ==> !less(elems[j], elems[0])
    requires InOrder(less, order) && Behind(less, multiset(elems), order)
    requires rest == multiset(elems) - multiset{elems[0]}
    ensures InOrder(less, order + [elems[0]]) && Behind(less, rest, order + [elems[0]])
    ensures rest + multiset(order + [elems[0]]) == multiset(elems) + multiset(order)
  {
    assert elems[0] in multiset(elems);
    forall e | e in rest ensures !less(e, elems[0]) {
      assert e in multiset(elems);
      var j :| 0 <= j < |elems| && elems[j] == e;
    }
  }

  // One pop, behind what has come out already.
  method PopNext<T(!new)>(queue: PriorityQueue<T>, ghost order: seq<Elem<T>>) returns (value: T, ghost next: Elem<T>)
    requires queue.Valid() && queue.items != []
    requires InOrder(queue.less, order) && Behind(queue.less, multiset(queue.elems), order)
    modifies queue`items, queue`elems, queue.handles`index
    ensures queue.Valid() && |queue.items| == old(|queue.items|) - 1 && value == next.value
    ensures InOrder(queue.less, order + [next]) && Behind(queue.less, multiset(queue.elems), order + [next])
    ensures multiset(queue.elems) + multiset(order + [next]) == multiset(old(queue.elems)) + multiset(order)
  {
    ghost var before := queue.elems;
    next := before[0];
    var r := queue.PopItem();
    value := r.value;
    NextInOrder(queue.less, before, order, multiset(queue.elems));
    assert |multiset(queue.elems)| == |multiset(before)| - 1;
  }

  // Popping until the queue is empty yields every element once, in an order in
  // which none precedes an earlier one.
  method PopAll<T(!new)>(queue: PriorityQueue<T>) returns (values: seq<T>, ghost order: seq<Elem<T>>)
    requires queue.Valid()
    modifies queue`items, queue`elems, queue.handles`index
    ensures queue.Valid() && queue.items == []
    ensures InOrder(queue.less, order) && multiset(order) == multiset(old(queue.elems))
    ensures |values| == |order| && forall i :: 0 <= i < |order| ==> values[i] == order[i].value
  {
    values, order := [], [];
    while |queue.items| > 0
      invariant queue.Valid() && queue.handles == old(queue.handles)
      invariant InOrder(queue.less, order) && Behind(queue.less, multiset(queue.elems), order)
      invariant multiset(queue.elems) + multiset(order) == multiset(old(queue.elems))
      invariant |values| == |order| && forall i :: 0 <= i < |order| ==> values[i] == order[i].value
      decreases |queue.items|
    {
      var value; ghost var next;
      value, next := PopNext(queue, order);
      values, order := values + [value], order + [next];
    }
  }
}
