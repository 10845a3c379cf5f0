/** Gathering the answers to a parameter request over any number of packets. */
module ParamExchange {
  import opened Bytes
  import opened ParamVectors
  import opened SortedLists

  /** The request as it is filled in, and how many answers were put into it. */
  datatype Exchange = Exchange(params: Params, count: int)

  // ----- one packet's answers -----------------------------------------------------------

  /** Putting answer i of res into its slot; None when a vector is read outside. */
  function MergeOne(e: Exchange, res: Params, i: nat): Option<Exchange>
    requires i < |res.ids|
  {
    var ind := FirstIndex(e.params.ids, res.ids[i]);
    if ind == |e.params.ids| then Some(e)
    else if e.params.HasRow(ind) && res.HasRow(i) then Some(Exchange(e.params.Replace(ind, res.RowAt(i)), e.count + 1))
    else None
  }

  function MergeUpTo(e: Exchange, res: Params, n: nat): Option<Exchange>
    requires n <= |res.ids|
  {
    if n == 0 then Some(e)
    else
      var before := MergeUpTo(e, res, n - 1);
      if before.None? then None else MergeOne(before.value, res, n - 1)
  }

  lemma {:induction false} FailureStays(e: Exchange, res: Params, k: nat, n: nat)
    requires k <= n <= |res.ids| && MergeUpTo(e, res, k).None?
    ensures MergeUpTo(e, res, n).None?
    decreases n
  {
    hide MergeOne;
    if k < n {
      FailureStays(e, res, k, n - 1);
    }
  }

  method MergeAt(e: Exchange, res: Params, i: nat) returns (next: Option<Exchange>)
    requires i < |res.ids|
    ensures next == MergeOne(e, res, i)
  {
    var ind := IndexOf(e.params.ids, res.ids[i]);
    next := Some(e);
    if ind < |e.params.ids| {
      if !e.params.HasRow(ind) || !res.HasRow(i) {
        return None;
      }
      next := Some(Exchange(e.params.Replace(ind, res.RowAt(i)), e.count + 1));
    }
  }

  /** The loop that puts the answers of one packet into their slots. */
  method Merge(e: Exchange, res: Params) returns (next: Option<Exchange>)
    ensures next == MergeUpTo(e, res, |res.ids|)
  {
    hide MergeOne;
    next := Some(e);
    var i := 0;
    while i < |res.ids|
      invariant i <= |res.ids| && next.Some? && MergeUpTo(e, res, i) == next
    {
      next := MergeAt(next.value, res, i);
      i := i + 1;
      if next.None? {
        FailureStays(e, res, i, |res.ids|);
        return;
      }
    }
  }

  // ----- answers as rows ------------------------------------------------------------------

  function Put(e: Exchange, row: Row): (next: Exchange)
    requires e.params.Even()
    ensures next.params.Even() && next.params.ids == e.params.ids
  {
    var ind := FirstIndex(e.params.ids, row.id);
    if ind == |e.params.ids| then e else Exchange(e.params.Replace(ind, row), e.count + 1)
  }

  function PutAll(e: Exchange, rows: seq<Row>): (next: Exchange)
    requires e.params.Even()
    ensures next.params.Even() && next.params.ids == e.params.ids
  {
    if rows == [] then e else Put(PutAll(e, rows[..|rows| - 1]), rows[|rows| - 1])
  }

  /** With even vectors the merge loop puts in row after row. */
  lemma {:induction false} MergePutsRows(e: Exchange, res: Params, n: nat)
    requires e.params.Even() && res.Even() && n <= |res.ids|
    ensures MergeUpTo(e, res, n) == Some(PutAll(e, Rows(res)[..n]))
  {
    hide Put;
    if n > 0 {
      MergePutsRows(e, res, n - 1);
      assert Rows(res)[..n][..n - 1] == Rows(res)[..n - 1];
      var before := PutAll(e, Rows(res)[..n - 1]);
      MergeIsPut(before, res, n - 1);
    }
  }

  lemma MergeIsPut(e: Exchange, res: Params, i: nat)
    requires e.params.Even() && res.Even() && i < |res.ids|
    ensures MergeOne(e, res, i) == Some(Put(e, Rows(res)[i]))
  {
  }

  lemma {:induction false} PutAllConcat(e: Exchange, a: seq<Row>, b: seq<Row>)
    requires e.params.Even()
    ensures PutAll(e, a + b) == PutAll(PutAll(e, a), b)
  {
    hide Put;
    if b == [] {
      assert a + b == a;
    } else {
      var n := |b| - 1;
      PutAllConcat(e, a, b[..n]);
      assert (a + b)[..|a + b| - 1] == a + b[..n];
    }
  }

  // ----- what a run has done -----------------------------------------------------------------

  /** The last answer for an id. */
  function LastFor(rows: seq<Row>, id: int): (row: Option<Row>)
    ensures row.Some? <==> Answered(rows, id)
    ensures row.Some? ==> row.value.id == id && row.value in rows
  {
    if rows == [] then None
    else if rows[|rows| - 1].id == id then Some(rows[|rows| - 1])
    else LastFor(rows[..|rows| - 1], id)
  }

  predicate Answered(rows: seq<Row>, id: int) {
    exists k | 0 <= k < |rows| :: rows[k].id == id
  }

  /** The requested ids among the answers, with repetitions. */
  function MatchedIds(ids: seq<int>, rows: seq<Row>): (matched: seq<int>)
    ensures forall id :: id in matched <==> id in ids && Answered(rows, id)
  {
    if rows == [] then []
    else
      var n := |rows| - 1;
      var before := MatchedIds(ids, rows[..n]);
      assert forall id :: Answered(rows, id) <==> Answered(rows[..n], id) || rows[n].id == id;
      if rows[n].id in ids then before + [rows[n].id] else before
  }

  function SlotAfter(before: Row, rows: seq<Row>, id: int): Row {
    match LastFor(rows, id)
    case None => before
    case Some(row) => row
  }

  /** The counter has counted the answers to requested ids. */
  lemma {:induction false} CountAfter(e: Exchange, rows: seq<Row>)
    requires e.params.Even()
    ensures PutAll(e, rows).count == e.count + |MatchedIds(e.params.ids, rows)|
  {
    if rows != [] {
      var n := |rows| - 1;
      CountAfter(e, rows[..n]);
      hide Answered;
      assert PutAll(e, rows) == Put(PutAll(e, rows[..n]), rows[n]);
    }
  }

  /** After any answers in any order: the counter has counted the answers to requested ids, and
      every slot holds the last answer to its own id, or what the request held there. */
  lemma {:induction false} StateAfter(e: Exchange, rows: seq<Row>, j: nat)
    requires e.params.Even() && Distinct(e.params.ids) && j < |e.params.ids|
    ensures PutAll(e, rows).params.RowAt(j) == SlotAfter(e.params.RowAt(j), rows, e.params.ids[j])
    ensures PutAll(e, rows).count == e.count + |MatchedIds(e.params.ids, rows)|
  {
    CountAfter(e, rows);
    if rows != [] {
      var n := |rows| - 1;
      StateAfter(e, rows[..n], j);
      hide PutAll, Answered, MatchedIds;
      assert PutAll(e, rows) == Put(PutAll(e, rows[..n]), rows[n]);
    }
  }

  lemma {:induction false} MatchedConcat(ids: seq<int>, a: seq<Row>, b: seq<Row>)
    ensures MatchedIds(ids, a + b) == MatchedIds(ids, a) + MatchedIds(ids, b)
  {
    hide Answered;
    if b == [] {
      assert a + b == a;
    } else {
      var n := |b| - 1;
      MatchedConcat(ids, a, b[..n]);
      assert (a + b)[..|a + b| - 1] == a + b[..n];
    }
  }

  // ----- when an exchange is complete -----------------------------------------------------------

  function Elements<T>(s: seq<T>): set<T> {
    set x | x in s
  }

  lemma {:induction false} DistinctByCount(s: seq<int>)
    ensures |Elements(s)| <= |s|
    ensures |Elements(s)| == |s| <==> Distinct(s)
  {
    if s == [] {
      assert Elements(s) == {};
    } else {
      var n := |s| - 1;
      DistinctByCount(s[..n]);
      assert Elements(s) == Elements(s[..n]) + {s[n]};
      if s[n] in s[..n] {
        RepeatIsNotDistinct(s);
      } else {
        NewIsDistinct(s);
      }
    }
  }

  lemma RepeatIsNotDistinct(s: seq<int>)
    requires |s| > 0 && s[|s| - 1] in s[..|s| - 1]
    ensures !Distinct(s) && Elements(s) == Elements(s[..|s| - 1])
  {
    var n := |s| - 1;
    var k :| 0 <= k < n && s[..n][k] == s[n];
    assert s[k] == s[n];
  }

  lemma NewIsDistinct(s: seq<int>)
    requires |s| > 0 && s[|s| - 1] !in s[..|s| - 1]
    ensures Distinct(s) <==> Distinct(s[..|s| - 1])
    ensures s[|s| - 1] !in Elements(s[..|s| - 1])
  {
    var n := |s| - 1;
    if Distinct(s[..n]) {
      forall i, j | 0 <= i < j < |s|
        ensures s[i] != s[j]
      {
        if j < n {
          assert s[..n][i] != s[..n][j];
        } else {
          assert s[i] == s[..n][i];
        }
      }
    }
    if Distinct(s) {
      forall i, j | 0 <= i < j < n
        ensures s[..n][i] != s[..n][j]
      {
        assert s[i] != s[j];
      }
    }
  }

  predicate AllAnswered(ids: seq<int>, rows: seq<Row>) {
    forall id | id in ids :: Answered(rows, id)
  }

  /** The exchange counts as complete when the counter reaches the number of ids. If no requested
      id was answered twice, that is exactly when all are answered; and when the counter has
      reached that number, all are answered only if no requested id was answered twice. */
  lemma CompleteExactly(ids: seq<int>, rows: seq<Row>)
    requires Distinct(ids)
    ensures var matched := MatchedIds(ids, rows);
            && (Distinct(matched) ==> (|matched| == |ids| <==> AllAnswered(ids, rows)))
            && (|matched| == |ids| ==> (AllAnswered(ids, rows) <==> Distinct(matched)))
  {
    var matched := MatchedIds(ids, rows);
    DistinctByCount(ids);
    DistinctByCount(matched);
    hide Distinct;
    assert forall id :: id in matched <==> id in ids && Answered(rows, id);
    assert forall id :: id in matched ==> id in ids;
    SmallerElements(matched, ids);
    if AllAnswered(ids, rows) {
      assert forall id :: id in ids ==> id in matched;
      SmallerElements(ids, matched);
    } else {
      var id :| id in ids && !Answered(rows, id);
      SmallerPart(Elements(matched), Elements(ids), id);
    }
  }

  lemma SmallerElements<T>(a: seq<T>, b: seq<T>)
    requires forall x :: x in a ==> x in b
    ensures Elements(a) <= Elements(b) && |Elements(a)| <= |Elements(b)|
  {
    Subset(Elements(a), Elements(b));
  }

  lemma SmallerPart<T>(a: set<T>, b: set<T>, x: T)
    requires a <= b && x in b && x !in a
    ensures |a| < |b|
  {
    assert a <= b - {x};
    Subset(a, b - {x});
  }

  lemma {:induction false} Subset<T>(a: set<T>, b: set<T>)
    requires a <= b
    ensures |a| <= |b|
  {
    if a != {} {
      var x :| x in a;
      Subset(a - {x}, b - {x});
    }
  }
}
