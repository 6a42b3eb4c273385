/** Facts about finite collections, and sorting as `sort.Slice` leaves a slice of distinct keys. */
module Collections {

  ghost predicate NoRepeats<T>(s: seq<T>)
  {
    forall i, j :: 0 <= i < j < |s| ==> s[i] != s[j]
  }

  function Elements<T(==)>(s: seq<T>): (r: set<T>)
  {
    set x | x in s
  }

  lemma ElementsMore<T>(s: seq<T>, x: T)
    ensures Elements(s + [x]) == Elements(s) + {x}
  {
  }

  lemma MoreWithoutRepeats<T>(s: seq<T>, x: T)
    requires NoRepeats(s) && x !in Elements(s)
    ensures NoRepeats(s + [x])
  {
  }

  /** Grouping does not matter. */
  lemma Regroup<T>(a: seq<T>, b: seq<T>, c: seq<T>, d: seq<T>)
    ensures a + (b + c) + d == a + b + (c + d)
    ensures a + (b + c) + d == (a + b) + c + d
  {
  }

  lemma SubsetSize<T>(a: set<T>, b: set<T>)
    requires a <= b
    ensures |a| <= |b| && (|a| == |b| ==> a == b)
  {
    assert b == a + (b - a);
  }

  ghost predicate StrictlyAscending(s: seq<nat>)
  {
    forall i, j :: 0 <= i < j < |s| ==> s[i] < s[j]
  }

  ghost predicate Enumerates(r: seq<nat>, s: set<nat>)
  {
    StrictlyAscending(r) && forall x :: x in r <==> x in s
  }

  /** Inserts `x` before the first larger element. */
  method Insert(r: seq<nat>, x: nat) returns (r': seq<nat>)
    requires StrictlyAscending(r) && x !in r
    ensures StrictlyAscending(r') && (forall y :: y in r' <==> y == x || y in r) && |r'| == |r| + 1
  {
    var i := 0;
    while i < |r| && r[i] < x
      invariant 0 <= i <= |r|
      invariant forall k :: 0 <= k < i ==> r[k] < x
    {
      i := i + 1;
    }
    r' := r[..i] + [x] + r[i..];
    SameElements(r, i);
    assert forall k :: i <= k < |r| ==> x < r[k];
  }

  lemma SameElements<T>(r: seq<T>, i: nat)
    requires i <= |r|
    ensures forall y :: y in r <==> y in r[..i] || y in r[i..]
  {
    assert r == r[..i] + r[i..];
  }

  method SortSet(s: set<nat>) returns (r: seq<nat>)
    ensures Enumerates(r, s) && |r| == |s|
  {
    r := [];
    var todo := s;
    while todo != {}
      invariant todo <= s && Enumerates(r, s - todo) && |r| + |todo| == |s|
      decreases todo
    {
      var x :| x in todo;
      r := Insert(r, x);
      todo := todo - {x};
    }
  }

  /** There is only one ascending enumeration. */
  lemma {:induction false} EnumerationUnique(a: seq<nat>, b: seq<nat>, s: set<nat>)
    requires Enumerates(a, s) && Enumerates(b, s)
    ensures a == b
    decreases |a|
  {
    EmptyEnumerates(a, s);
    EmptyEnumerates(b, s);
    if a != [] {
      assert a[0] in b;
      assert b[0] in a;
      assert a[0] == b[0];
      TailEnumerates(a, s);
      TailEnumerates(b, s);
      EnumerationUnique(a[1..], b[1..], s - {a[0]});
      assert a == [a[0]] + a[1..] && b == [b[0]] + b[1..];
    }
  }

  lemma EmptyEnumerates(a: seq<nat>, s: set<nat>)
    requires Enumerates(a, s)
    ensures a == [] <==> s == {}
  {
    if a != [] {
      assert a[0] in s;
    }
  }

  lemma TailEnumerates(a: seq<nat>, s: set<nat>)
    requires a != [] && Enumerates(a, s)
    ensures Enumerates(a[1..], s - {a[0]})
  {
    assert forall x :: x in a ==> x == a[0] || x in a[1..];
  }
}
