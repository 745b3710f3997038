/** Small shared definitions. */
module Base {
  datatype Option<+T> = None | Some(value: T)

  function Last<T>(s: seq<T>): T
    requires s != []
  {
    s[|s| - 1]
  }

  predicate EndsWith(s: string, end: string) {
    |s| >= |end| && s[|s| - |end|..] == end
  }

  function Indices(n: nat): (s: set<nat>)
    ensures forall i :: i in s <==> 0 <= i < n
  {
    if n == 0 then {} else Indices(n - 1) + {n - 1}
  }

  lemma {:induction false} IndexCount(n: nat)
    ensures |Indices(n)| == n
  {
    if n > 0 {
      IndexCount(n - 1);
    }
  }

  ghost predicate Distinct<T>(s: seq<T>) {
    forall i, j :: 0 <= i < j < |s| ==> s[i] != s[j]
  }

  lemma {:induction false} DistinctCount<T>(s: seq<T>, elements: set<T>)
    requires Distinct(s) && forall x :: x in s <==> x in elements
    ensures |s| == |elements|
  {
    if s != [] {
      assert s[0] !in s[1..];
      assert forall x :: x in s ==> x == s[0] || x in s[1..];
      DistinctCount(s[1..], elements - {s[0]});
    }
  }

  lemma {:induction false} SubsetCount<T>(a: set<T>, b: set<T>)
    requires a <= b
    ensures |a| <= |b|
  {
    if a != {} {
      var x :| x in a;
      SubsetCount(a - {x}, b - {x});
    }
  }

  /** More places than values: some value is there twice. */
  lemma Pigeonhole(s: seq<nat>, n: nat) returns (i: nat, j: nat)
    requires |s| > n && forall x :: x in s ==> x < n
    ensures i < j < |s| && s[i] == s[j]
  {
    if Distinct(s) {
      var values := set x | x in s;
      DistinctCount(s, values);
      SubsetCount(values, Indices(n));
      IndexCount(n);
      assert false;
    }
    i, j :| 0 <= i < j < |s| && s[i] == s[j];
  }
}
