// Sequence operations shared by the other modules.
module Sequences {

  ghost function Init<T>(s: seq<T>): seq<T>
    requires s != []
  {
    s[..|s| - 1]
  }

  ghost function Last<T>(s: seq<T>): T
    requires s != []
  {
    s[|s| - 1]
  }

  // Taking out the element at p.
  ghost function Cut<T>(s: seq<T>, p: nat): (r: seq<T>)
    requires p < |s|
    ensures |r| == |s| - 1
    ensures forall i :: 0 <= i < p ==> r[i] == s[i]
    ensures forall i :: p <= i < |r| ==> r[i] == s[i + 1]
  {
    s[..p] + s[p + 1..]
  }

  lemma Associative<T>(a: seq<T>, b: seq<T>, c: seq<T>)
    ensures (a + b) + c == a + (b + c)
  {
  }

  // The concatenation of a list of sequences.
  ghost function Flatten<T>(ss: seq<seq<T>>): seq<T> {
    if ss == [] then [] else ss[0] + Flatten(ss[1..])
  }

  lemma {:induction false} FlattenConcat<T>(a: seq<seq<T>>, b: seq<seq<T>>)
    ensures Flatten(a + b) == Flatten(a) + Flatten(b)
  {
    if a == [] {
      assert a + b == b;
    } else {
      var x, y, z := a[0], Flatten(a[1..]), Flatten(b);
      FlattenConcat(a[1..], b);
      assert (a + b)[1..] == a[1..] + b && (a + b)[0] == x;
      Associative(x, y, z);
    }
  }

  function Sum(s: seq<int>): int {
    if s == [] then 0 else s[0] + Sum(s[1..])
  }

  lemma {:induction false} SumAppend(s: seq<int>, x: int)
    ensures Sum(s + [x]) == Sum(s) + x
  {
    if s == [] {
      assert s + [x] == [x];
    } else {
      assert (s + [x])[1..] == s[1..] + [x];
      SumAppend(s[1..], x);
    }
  }
}
