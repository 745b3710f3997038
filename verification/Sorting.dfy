/** Sorting in place by insertion, in any total order. */
module Sorting {
  ghost predicate Orders<T(!new)>(leq: (T, T) -> bool) {
    && (forall x, y :: leq(x, y) || leq(y, x))
    && (forall x, y, z :: leq(x, y) && leq(y, z) ==> leq(x, z))
  }

  ghost predicate Ascending<T>(s: seq<T>, leq: (T, T) -> bool) {
    forall i, j :: 0 <= i < j < |s| ==> leq(s[i], s[j])
  }

  method SwapDown<T>(a: array<T>, i: nat)
    requires 0 < i < a.Length
    modifies a
    ensures a[i] == old(a[i - 1]) && a[i - 1] == old(a[i])
    ensures forall j :: 0 <= j < a.Length && j != i && j != i - 1 ==> a[j] == old(a[j])
    ensures multiset(a[..]) == multiset(old(a[..]))
  {
    a[i], a[i - 1] := a[i - 1], a[i];
  }

  /** Moves element `n` down to its place among the sorted elements before it. */
  method Insert<T(!new)>(a: array<T>, leq: (T, T) -> bool, n: nat)
    requires Orders(leq) && n < a.Length && Ascending(a[..n], leq)
    modifies a
    ensures Ascending(a[..n + 1], leq) && multiset(a[..]) == multiset(old(a[..]))
  {
    var i := n;
    while i > 0 && !leq(a[i - 1], a[i])
      invariant 0 <= i <= n
      invariant multiset(a[..]) == multiset(old(a[..]))
      invariant forall j, k :: 0 <= j < k <= n && k != i ==> leq(a[j], a[k])
    {
      SwapDown(a, i);
      i := i - 1;
    }
    forall j | 0 <= j < i ensures leq(a[j], a[i]) {
      if j < i - 1 {
        assert leq(a[j], a[i - 1]);
      }
    }
  }

  method Sort<T(!new)>(a: array<T>, leq: (T, T) -> bool)
    requires Orders(leq)
    modifies a
    ensures Ascending(a[..], leq) && multiset(a[..]) == multiset(old(a[..]))
  {
    for n := 0 to a.Length
      invariant Ascending(a[..n], leq)
      invariant multiset(a[..]) == multiset(old(a[..]))
    {
      Insert(a, leq, n);
    }
    assert a[..a.Length] == a[..];
  }
}
