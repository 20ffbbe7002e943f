// Binary heaps as sequences: the order a sift repairs, one swap at a time.
module HeapOrder {

  // A strict weak order: less(a, b) says that a must come out before b.
  ghost predicate StrictWeak<T(!new)>(less: (T, T) -> bool) {
    && (forall a, b :: less(a, b) ==> !less(b, a))
    && (forall a, b, c {:trigger less(b, a), less(c, b), less(c, a)} :: !less(b, a) && !less(c, b) ==> !less(c, a))
  }

  function Parent(j: int): (p: int)
    requires j > 0
    ensures 0 <= p < j
  {
    (j - 1) / 2
  }

  function Swapped<T>(s: seq<T>, i: int, j: int): (r: seq<T>)
    requires 0 <= i < |s| && 0 <= j < |s|
    ensures |r| == |s| && r[i] == s[j] && r[j] == s[i]
    ensures forall k :: 0 <= k < |s| && k != i && k != j ==> r[k] == s[k]
    ensures multiset(r) == multiset(s)
  {
    s[i := s[j]][j := s[i]]
  }

  // Position j does not precede its parent.
  ghost predicate LinkOk<T>(less: (T, T) -> bool, s: seq<T>, j: int)
    requires 0 < j < |s|
  {
    !less(s[j], s[Parent(j)])
  }

  ghost predicate Heap<T>(less: (T, T) -> bool, s: seq<T>, n: int)
    requires n <= |s|
  {
    forall j {:trigger LinkOk(less, s, j)} :: 0 < j < n ==> LinkOk(less, s, j)
  }

  // The first n elements form a heap except around position i, and what stands
  // below i may stand above it.
  ghost predicate HeapBut<T>(less: (T, T) -> bool, s: seq<T>, n: int, i: int)
    requires n <= |s|
  {
    && (forall j {:trigger LinkOk(less, s, j)} :: 0 < j < n && j != i && Parent(j) != i ==> LinkOk(less, s, j))
    && (forall j {:trigger Parent(j)} :: 0 < j < n && Parent(j) == i && i > 0 ==> !less(s[j], s[Parent(i)]))
  }

  ghost predicate ChildrenOk<T>(less: (T, T) -> bool, s: seq<T>, n: int, i: int)
    requires n <= |s|
  {
    forall j {:trigger LinkOk(less, s, j)} :: 0 < j < n && Parent(j) == i ==> LinkOk(less, s, j)
  }

  // c is a child of i that precedes i and that no other child precedes.
  ghost predicate Rises<T>(less: (T, T) -> bool, s: seq<T>, n: int, i: int, c: int)
    requires n <= |s|
  {
    && 0 <= i < c < n && Parent(c) == i && !LinkOk(less, s, c)
    && forall d {:trigger Parent(d)} :: 0 < d < n && Parent(d) == i ==> !less(s[d], s[c])
  }

  lemma UpStep<T(!new)>(less: (T, T) -> bool, s: seq<T>, n: int, j: int)
    requires StrictWeak(less) && 0 < j < n <= |s|
    requires HeapBut(less, s, n, j) && ChildrenOk(less, s, n, j) && !LinkOk(less, s, j)
    ensures var p, r := Parent(j), Swapped(s, Parent(j), j);
            HeapBut(less, r, n, p) && ChildrenOk(less, r, n, p)
  {
    var p, r := Parent(j), Swapped(s, Parent(j), j);
    if p > 0 { assert LinkOk(less, s, p); }
    forall k | 0 < k < n && k != p && Parent(k) != p ensures LinkOk(less, r, k) {
      if Parent(k) != j { assert LinkOk(less, s, k); }
    }
    forall k | 0 < k < n && Parent(k) == p ensures LinkOk(less, r, k) && (p > 0 ==> !less(r[k], r[Parent(p)])) {
      if k != j { assert LinkOk(less, s, k); }
    }
  }

  // The children of i are 2i+1 and 2i+2.
  lemma NoChildren<T>(less: (T, T) -> bool, s: seq<T>, n: int, i: int)
    requires n <= |s| && (2 * i + 1 >= n || i < 0)
    ensures ChildrenOk(less, s, n, i)
  {
  }

  // c is a child of i that no other child precedes.
  lemma SmallestChild<T(!new)>(less: (T, T) -> bool, s: seq<T>, n: int, i: int, c: int)
    requires StrictWeak(less) && 0 <= i && c < n <= |s|
    requires if 2 * i + 2 < n && less(s[2 * i + 2], s[2 * i + 1]) then c == 2 * i + 2 else c == 2 * i + 1
    ensures if less(s[c], s[i]) then Rises(less, s, n, i, c) else ChildrenOk(less, s, n, i)
  {
    forall d | 0 < d < n && Parent(d) == i ensures !less(s[d], s[c]) {
      assert d == 2 * i + 1 || d == 2 * i + 2;
    }
  }

  lemma DownStep<T(!new)>(less: (T, T) -> bool, s: seq<T>, n: int, i: int, c: int)
    requires StrictWeak(less) && n <= |s|
    requires HeapBut(less, s, n, i) && Rises(less, s, n, i, c)
    ensures HeapBut(less, Swapped(s, i, c), n, c) && LinkOk(less, Swapped(s, i, c), c)
  {
    var r := Swapped(s, i, c);
    forall k | 0 < k < n && k != c && Parent(k) != c ensures LinkOk(less, r, k) {
      if k != i && Parent(k) != i { assert LinkOk(less, s, k); }
    }
    forall k | 0 < k < n && Parent(k) == c ensures !less(r[k], r[Parent(c)]) {
      assert LinkOk(less, s, k);
    }
  }

  // Replacing one element of a heap leaves a heap except around it.
  lemma HeapReplaced<T(!new)>(less: (T, T) -> bool, s: seq<T>, r: seq<T>, n: int, i: int)
    requires StrictWeak(less) && 0 <= i < |s| && n <= |s| == |r| && Heap(less, s, n)
    requires forall k :: 0 <= k < n && k != i ==> r[k] == s[k]
    ensures HeapBut(less, r, n, i)
  {
    forall k | 0 < k < n && k != i && Parent(k) != i ensures LinkOk(less, r, k) {
      assert LinkOk(less, s, k);
    }
    forall k | 0 < k < n && Parent(k) == i && i > 0 ensures !less(r[k], r[Parent(i)]) {
      assert LinkOk(less, s, k) && LinkOk(less, s, i);
    }
  }

  // Appending to a heap leaves a heap except at the new end.
  lemma HeapExtended<T>(less: (T, T) -> bool, s: seq<T>, x: T)
    requires Heap(less, s, |s|)
    ensures HeapBut(less, s + [x], |s| + 1, |s|) && ChildrenOk(less, s + [x], |s| + 1, |s|)
  {
    forall j | 0 < j < |s| ensures LinkOk(less, s + [x], j) {
      assert LinkOk(less, s, j);
    }
  }

  lemma HeapPrefix<T>(less: (T, T) -> bool, s: seq<T>, n: nat)
    requires n <= |s| && Heap(less, s, n)
    ensures Heap(less, s[..n], n)
  {
    forall j | 0 < j < n ensures LinkOk(less, s[..n], j) {
      assert LinkOk(less, s, j);
    }
  }

  lemma HeapRepaired<T>(less: (T, T) -> bool, s: seq<T>, n: int, i: int)
    requires n <= |s| && HeapBut(less, s, n, i) && ChildrenOk(less, s, n, i)
    requires 0 < i < n ==> LinkOk(less, s, i)
    ensures Heap(less, s, n)
  {
  }

  // No element of a heap precedes its root.
  lemma {:induction false} RootIsFirst<T(!new)>(less: (T, T) -> bool, s: seq<T>, n: int, j: int)
    requires StrictWeak(less) && 0 <= j < n <= |s| && Heap(less, s, n)
    ensures !less(s[j], s[0])
  {
    if j > 0 {
      assert LinkOk(less, s, j);
      RootIsFirst(less, s, n, Parent(j));
    }
  }
}
