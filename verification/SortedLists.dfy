/** Strictly increasing lists as sets: sorting, difference and union by merging. */
module SortedLists {
  import Bytes

  predicate Increasing(s: seq<int>) {
    forall i, j | 0 <= i < j < |s| :: s[i] < s[j]
  }

  predicate Distinct(s: seq<int>) {
    forall i, j | 0 <= i < j < |s| :: s[i] != s[j]
  }

  // ----- sorting distinct ids ---------------------------------------------------------------

  function Insert(s: seq<int>, x: int): (t: seq<int>)
    requires Increasing(s) && x !in s
    ensures Increasing(t)
    ensures forall y :: y in t <==> y in s || y == x
  {
    if s == [] then [x]
    else if x < s[0] then [x] + s
    else
      var tail := Insert(s[1..], x);
      Prepend(s[0], tail);
      [s[0]] + tail
  }

  /** std::sort on a list without repetitions. */
  function Sorted(s: seq<int>): (t: seq<int>)
    requires Distinct(s)
    ensures Increasing(t)
    ensures forall y :: y in t <==> y in s
  {
    if s == [] then []
    else
      var n := |s| - 1;
      assert s[n] !in s[..n];
      assert forall y :: y in s <==> y in s[..n] || y == s[n];
      Insert(Sorted(s[..n]), s[n])
  }

  // ----- the merge loops of set_difference and set_union -------------------------------------

  /** a without b: both lists are walked once. */
  method SetDifference(a: seq<int>, b: seq<int>) returns (r: seq<int>)
    requires Increasing(a) && Increasing(b)
    ensures r == Difference(a, b)
  {
    hide Difference;
    r := [];
    var i, j := 0, 0;
    assert a[0..] == a && b[0..] == b && [] + Difference(a, b) == Difference(a, b);
    while i < |a| && j < |b|
      invariant i <= |a| && j <= |b| && Difference(a, b) == r + Difference(a[i..], b[j..])
      decreases |a| - i + |b| - j
    {
      DifferenceStep(a[i..], b[j..], r);
      assert a[i..][1..] == a[i + 1..] && b[j..][1..] == b[j + 1..];
      if a[i] < b[j] {
        r := r + [a[i]];
        i := i + 1;
      } else if b[j] < a[i] {
        j := j + 1;
      } else {
        i, j := i + 1, j + 1;
      }
    }
    DifferenceEnd(a[i..], b[j..]);
    r := r + a[i..];
  }

  function Difference(a: seq<int>, b: seq<int>): seq<int>
    decreases |a| + |b|
  {
    if a == [] || b == [] then a
    else if a[0] < b[0] then [a[0]] + Difference(a[1..], b)
    else if b[0] < a[0] then Difference(a, b[1..])
    else Difference(a[1..], b[1..])
  }

  lemma DifferenceStep(a: seq<int>, b: seq<int>, r: seq<int>)
    requires a != [] && b != []
    ensures r + Difference(a, b) ==
            if a[0] < b[0] then r + [a[0]] + Difference(a[1..], b)
            else if b[0] < a[0] then r + Difference(a, b[1..])
            else r + Difference(a[1..], b[1..])
  {
    if a[0] < b[0] {
      assert r + ([a[0]] + Difference(a[1..], b)) == r + [a[0]] + Difference(a[1..], b);
    }
  }

  lemma DifferenceEnd(a: seq<int>, b: seq<int>)
    requires a == [] || b == []
    ensures Difference(a, b) == a
  {
  }

  /** a and b together, elements of both once. */
  method SetUnion(a: seq<int>, b: seq<int>) returns (r: seq<int>)
    requires Increasing(a) && Increasing(b)
    ensures r == Union(a, b)
  {
    hide Union;
    r := [];
    var i, j := 0, 0;
    assert a[0..] == a && b[0..] == b && [] + Union(a, b) == Union(a, b);
    while i < |a| && j < |b|
      invariant i <= |a| && j <= |b| && Union(a, b) == r + Union(a[i..], b[j..])
      decreases |a| - i + |b| - j
    {
      UnionStepAt(a, i, b, j, r);
      if a[i] < b[j] {
        r := r + [a[i]];
        i := i + 1;
      } else if b[j] < a[i] {
        r := r + [b[j]];
        j := j + 1;
      } else {
        r := r + [a[i]];
        i, j := i + 1, j + 1;
      }
    }
    UnionEnd(a[i..], b[j..]);
    r := r + (if i < |a| then a[i..] else b[j..]);
  }

  function Union(a: seq<int>, b: seq<int>): seq<int>
    decreases |a| + |b|
  {
    if a == [] then b
    else if b == [] then a
    else if a[0] < b[0] then [a[0]] + Union(a[1..], b)
    else if b[0] < a[0] then [b[0]] + Union(a, b[1..])
    else [a[0]] + Union(a[1..], b[1..])
  }

  lemma UnionStepAt(a: seq<int>, i: nat, b: seq<int>, j: nat, r: seq<int>)
    requires i < |a| && j < |b|
    ensures r + Union(a[i..], b[j..]) ==
            if a[i] < b[j] then r + [a[i]] + Union(a[i + 1..], b[j..])
            else if b[j] < a[i] then r + [b[j]] + Union(a[i..], b[j + 1..])
            else r + [a[i]] + Union(a[i + 1..], b[j + 1..])
  {
    hide Union;
    UnionStep(a[i..], b[j..], r);
    assert a[i..][1..] == a[i + 1..] && b[j..][1..] == b[j + 1..];
  }

  lemma UnionStep(a: seq<int>, b: seq<int>, r: seq<int>)
    requires a != [] && b != []
    ensures r + Union(a, b) ==
            if a[0] < b[0] then r + [a[0]] + Union(a[1..], b)
            else if b[0] < a[0] then r + [b[0]] + Union(a, b[1..])
            else r + [a[0]] + Union(a[1..], b[1..])
  {
    NextOfUnion(a, b);
    hide Union;
    if a[0] < b[0] {
      Bytes.Regroup(r, [a[0]], Union(a[1..], b));
    } else if b[0] < a[0] {
      Bytes.Regroup(r, [b[0]], Union(a, b[1..]));
    } else {
      Bytes.Regroup(r, [a[0]], Union(a[1..], b[1..]));
    }
  }

  lemma NextOfUnion(a: seq<int>, b: seq<int>)
    requires a != [] && b != []
    ensures Union(a, b) ==
            if a[0] < b[0] then [a[0]] + Union(a[1..], b)
            else if b[0] < a[0] then [b[0]] + Union(a, b[1..])
            else [a[0]] + Union(a[1..], b[1..])
  {
  }

  lemma UnionEnd(a: seq<int>, b: seq<int>)
    requires a == [] || b == []
    ensures Union(a, b) == if a != [] then a else b
  {
  }

  // ----- set algebra ------------------------------------------------------------------------

  /** On increasing lists the merge for the difference is the difference of the sets, in order. */
  lemma {:induction false} DifferenceIsSetDifference(a: seq<int>, b: seq<int>)
    requires Increasing(a) && Increasing(b)
    ensures Increasing(Difference(a, b))
    ensures forall x :: x in Difference(a, b) <==> x in a && x !in b
    decreases |a| + |b|
  {
    if a != [] && b != [] {
      if a[0] < b[0] {
        DifferenceIsSetDifference(a[1..], b);
        Prepend(a[0], Difference(a[1..], b));
      } else if b[0] < a[0] {
        DifferenceIsSetDifference(a, b[1..]);
      } else {
        DifferenceIsSetDifference(a[1..], b[1..]);
      }
    }
  }

  lemma Prepend(x: int, s: seq<int>)
    requires Increasing(s) && forall y | y in s :: x < y
    ensures Increasing([x] + s)
    ensures forall y :: y in [x] + s <==> y == x || y in s
  {
    var t := [x] + s;
    forall i, j | 0 <= i < j < |t|
      ensures t[i] < t[j]
    {
      assert t[j] == s[j - 1] && s[j - 1] in s;
      assert i > 0 ==> t[i] == s[i - 1];
    }
  }

  /** And the merge for the union is the union. */
  lemma {:induction false} UnionIsSetUnion(a: seq<int>, b: seq<int>)
    requires Increasing(a) && Increasing(b)
    ensures Increasing(Union(a, b))
    ensures forall x :: x in Union(a, b) <==> x in a || x in b
    decreases |a| + |b|
  {
    if a != [] && b != [] {
      if a[0] < b[0] {
        UnionIsSetUnion(a[1..], b);
        Prepend(a[0], Union(a[1..], b));
      } else if b[0] < a[0] {
        UnionIsSetUnion(a, b[1..]);
        Prepend(b[0], Union(a, b[1..]));
      } else {
        UnionIsSetUnion(a[1..], b[1..]);
        Prepend(a[0], Union(a[1..], b[1..]));
      }
    }
  }
}
