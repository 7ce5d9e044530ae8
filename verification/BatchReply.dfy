/** Reading the reply to a batch of evidence requests: one row for each request, in
    any order, put back into the order of the requests. */
module BatchReply {
  import opened Common

  /** A request asks for one scope and says which records belong to it. */
  datatype Request<!R> = Request(scope: seq<string>, matches: R -> bool)

  /** One row as parsed; `index` is None unless it is an integer, and `records` is
      None when one of them is malformed. */
  datatype Row<R> = Malformed | Row(index: Option<int>, scope: seq<string>, records: Option<seq<R>>)

  /** The row answers the request its index names. */
  predicate Answers<R>(row: Row<R>, requests: seq<Request<R>>)
  {
    && row.Row? && row.index.Some? && 0 <= row.index.value < |requests|
    && var request := requests[row.index.value];
       && row.scope == request.scope && row.records.Some?
       && forall k :: 0 <= k < |row.records.value| ==> request.matches(row.records.value[k])
  }

  predicate DistinctIndices<R>(rows: seq<Row<R>>)
  {
    forall j, k :: 0 <= j < k < |rows| && rows[j].Row? && rows[k].Row? ==> rows[j].index != rows[k].index
  }

  /** A complete reply: as many rows as requests, each answering a different one. */
  predicate Complete<R>(rows: seq<Row<R>>, requests: seq<Request<R>>)
  {
    |rows| == |requests| && DistinctIndices(rows) && AllAnswer(rows, requests)
  }

  function Indices<R>(rows: seq<Row<R>>): set<int>
  {
    set k | 0 <= k < |rows| && rows[k].Row? && rows[k].index.Some? :: rows[k].index.value
  }

  predicate AllAnswer<R>(rows: seq<Row<R>>, requests: seq<Request<R>>)
  {
    forall k :: 0 <= k < |rows| ==> Answers(rows[k], requests)
  }

  /** The records of the rows are entered under their indices. */
  ghost predicate Entered<R(!new)>(rows: seq<Row<R>>, indexed: map<int, seq<R>>)
  {
    && |indexed| == |rows| && indexed.Keys == Indices(rows)
    && forall k :: 0 <= k < |rows| && rows[k].Row? && rows[k].index.Some? && rows[k].records.Some? ==>
         rows[k].index.value in indexed && indexed[rows[k].index.value] == rows[k].records.value
  }

  /** The loop's state after some rows. */
  ghost predicate Indexed<R(!new)>(rows: seq<Row<R>>, requests: seq<Request<R>>, indexed: map<int, seq<R>>)
  {
    DistinctIndices(rows) && AllAnswer(rows, requests) && Entered(rows, indexed)
  }

  lemma IndicesMore<R>(rows: seq<Row<R>>, row: Row<R>)
    requires row.Row? && row.index.Some?
    ensures Indices(rows + [row]) == Indices(rows) + {row.index.value}
    ensures row.index.value in Indices(rows) ==> !DistinctIndices(rows + [row])
    ensures row.index.value !in Indices(rows) && DistinctIndices(rows) ==> DistinctIndices(rows + [row])
  {
    var more := rows + [row];
    assert more[|rows|] == row && forall k :: 0 <= k < |rows| ==> more[k] == rows[k];
    assert forall x :: x in Indices(rows) ==> exists k :: 0 <= k < |more| && more[k].Row? && more[k].index == Some(x);
    if row.index.value in Indices(rows) {
      var k :| 0 <= k < |rows| && rows[k].Row? && rows[k].index == row.index;
      assert more[k].index == more[|rows|].index;
    }
  }

  lemma EnteredMore<R(!new)>(rows: seq<Row<R>>, indexed: map<int, seq<R>>, row: Row<R>)
    requires Entered(rows, indexed) && row.Row? && row.index.Some? && row.records.Some?
    requires row.index.value !in indexed
    ensures Entered(rows + [row], indexed[row.index.value := row.records.value])
  {
    IndicesMore(rows, row);
    assert forall k :: 0 <= k < |rows| ==> (rows + [row])[k] == rows[k];
  }

  lemma AllAnswerMore<R>(rows: seq<Row<R>>, requests: seq<Request<R>>, row: Row<R>)
    requires AllAnswer(rows, requests) && Answers(row, requests)
    ensures AllAnswer(rows + [row], requests)
  {
  }

  lemma IndexedMore<R(!new)>(rows: seq<Row<R>>, requests: seq<Request<R>>, indexed: map<int, seq<R>>, row: Row<R>)
    requires Indexed(rows, requests, indexed)
    requires Answers(row, requests) && row.index.value !in indexed
    ensures Indexed(rows + [row], requests, indexed[row.index.value := row.records.value])
  {
    IndicesMore(rows, row);
    EnteredMore(rows, indexed, row);
    AllAnswerMore(rows, requests, row);
  }

  function Range(n: nat): (r: set<int>)
    ensures |r| == n && forall i :: i in r <==> 0 <= i < n
  {
    if n == 0 then {} else Range(n - 1) + {n - 1}
  }

  /** As many different indices below a bound as the bound are all of them. */
  lemma AllBelow(indices: set<int>, n: nat)
    requires |indices| == n && forall i :: i in indices ==> 0 <= i < n
    ensures indices == Range(n)
  {
    SubsetOfSameSize(indices, Range(n));
  }

  lemma PrefixComplete<R>(rows: seq<Row<R>>, n: nat)
    requires n <= |rows|
    ensures DistinctIndices(rows) ==> DistinctIndices(rows[..n])
  {
  }

  /** Accepts exactly the complete replies; the closing check that every request was
      answered never fails. The result lists each request's own records. */
  method BatchResolutionResponseRows<R(!new)>(rows: seq<Row<R>>, requests: seq<Request<R>>)
    returns (r: Option<seq<seq<R>>>)
    ensures r.Some? <==> Complete(rows, requests)
    ensures r.Some? ==> |r.value| == |requests|
    ensures r.Some? ==> forall k :: 0 <= k < |rows| ==> r.value[rows[k].index.value] == rows[k].records.value
  {
    if |rows| != |requests| {
      return None;
    }
    var indexed: map<int, seq<R>> := map[];
    for n := 0 to |rows|
      invariant Indexed(rows[..n], requests, indexed)
    {
      var row := rows[n];
      assert rows[..n + 1] == rows[..n] + [row];
      if !row.Row? || row.index.None? || row.index.value < 0 || row.index.value >= |requests| {
        return None;
      }
      IndicesMore(rows[..n], row);
      PrefixComplete(rows, n + 1);
      if row.index.value in indexed {
        return None;
      }
      var expected := requests[row.index.value];
      if row.scope != expected.scope || row.records.None? {
        return None;
      }
      if exists k :: 0 <= k < |row.records.value| && !expected.matches(row.records.value[k]) {
        return None;
      }
      IndexedMore(rows[..n], requests, indexed, row);
      indexed := indexed[row.index.value := row.records.value];
    }
    assert rows[..|rows|] == rows;
    AllBelow(indexed.Keys, |requests|);
    if indexed.Keys != Range(|requests|) {
      return None;
    }
    r := Some(seq(|requests|, i requires 0 <= i < |requests| => assert i in indexed.Keys; indexed[i]));
  }

  /** The order of the rows in the reply does not matter. */
  lemma OrderOfRowsIsIrrelevant<R>(a: seq<Row<R>>, b: seq<Row<R>>, requests: seq<Request<R>>,
                                   x: seq<seq<R>>, y: seq<seq<R>>)
    requires Complete(a, requests) && multiset(a) == multiset(b)
    requires |x| == |y| == |requests|
    requires forall k :: 0 <= k < |a| ==> x[a[k].index.value] == a[k].records.value
    requires forall k :: 0 <= k < |b| ==> Answers(b[k], requests) && y[b[k].index.value] == b[k].records.value
    ensures x == y
  {
    forall i | 0 <= i < |requests| ensures x[i] == y[i] {
      var k := Named(a, requests, i);
      assert a[k] in multiset(b);
      var j :| 0 <= j < |b| && b[j] == a[k];
    }
  }

  /** A complete reply has a row for every request. */
  lemma Named<R>(rows: seq<Row<R>>, requests: seq<Request<R>>, i: nat) returns (k: nat)
    requires Complete(rows, requests) && i < |requests|
    ensures k < |rows| && rows[k].index == Some(i)
  {
    IndicesCount(rows);
    assert forall x :: x in Indices(rows) ==> 0 <= x < |requests|;
    AllBelow(Indices(rows), |requests|);
    assert i in Indices(rows);
    k :| 0 <= k < |rows| && rows[k].Row? && rows[k].index == Some(i);
  }

  lemma {:induction false} IndicesCount<R>(rows: seq<Row<R>>)
    requires DistinctIndices(rows) && forall k :: 0 <= k < |rows| ==> rows[k].Row? && rows[k].index.Some?
    ensures |Indices(rows)| == |rows|
  {
    if rows != [] {
      var n := |rows| - 1;
      IndicesCount(rows[..n]);
      IndicesMore(rows[..n], rows[n]);
      assert rows == rows[..n] + [rows[n]];
    }
  }
}
