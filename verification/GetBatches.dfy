/** Size-bounded batches of evidence records for GET requests, and fixed-size
    batches for POST requests. */
module GetBatches {
  import opened Common

  const BATCH_SIZE := 10
  const TARGET_MAX_BYTES := 4096

  function Flatten<T>(batches: seq<seq<T>>): seq<T>
  {
    if batches == [] then [] else Flatten(batches[..|batches| - 1]) + batches[|batches| - 1]
  }

  predicate Fits<T>(size: seq<T> -> nat, batch: seq<T>)
  {
    |batch| <= BATCH_SIZE && size(batch) <= TARGET_MAX_BYTES
  }

  /** Non-empty batches that fit and together are the records, in order. */
  predicate IsSplit<T(==)>(size: seq<T> -> nat, records: seq<T>, batches: seq<seq<T>>)
  {
    Flatten(batches) == records && forall i :: 0 <= i < |batches| ==> batches[i] != [] && Fits(size, batches[i])
  }

  /** The request target of a stretch of records is no longer than that of a longer stretch. */
  ghost predicate Grows<T(!new)>(size: seq<T> -> nat)
  {
    forall s: seq<T>, i, j :: 0 <= i <= j <= |s| ==> size(s[i..j]) <= size(s)
  }

  /** The length of clauses joined by separators. */
  function Joined<T>(clause: T -> nat, separator: nat, s: seq<T>): nat
  {
    if s == [] then 0
    else clause(s[0]) + (if |s| == 1 then 0 else separator) + Joined(clause, separator, s[1..])
  }

  lemma {:induction false} JoinedDropsLast<T>(clause: T -> nat, separator: nat, s: seq<T>)
    requires s != []
    ensures Joined(clause, separator, s[..|s| - 1]) <= Joined(clause, separator, s)
  {
    if |s| > 1 {
      JoinedDropsLast(clause, separator, s[1..]);
      assert s[1..][..|s| - 2] == s[..|s| - 1][1..];
    }
  }

  lemma {:induction false} JoinedPart<T>(clause: T -> nat, separator: nat, s: seq<T>, i: nat, j: nat)
    requires i <= j <= |s|
    ensures Joined(clause, separator, s[i..j]) <= Joined(clause, separator, s)
    decreases |s|
  {
    if i > 0 {
      JoinedPart(clause, separator, s[1..], i - 1, j - 1);
      assert s[1..][i - 1..j - 1] == s[i..j];
    } else if j < |s| {
      JoinedPart(clause, separator, s[..|s| - 1], i, j);
      assert s[..|s| - 1][i..j] == s[i..j];
      JoinedDropsLast(clause, separator, s);
    } else {
      assert s[i..j] == s;
    }
  }

  /** A target made of a fixed part and one clause for each record, joined by
      separators, grows with the batch, whatever the lengths. */
  lemma JoinedGrows<T(!new)>(size: seq<T> -> nat, base: nat, clause: T -> nat, separator: nat)
    requires forall s: seq<T> :: size(s) == base + Joined(clause, separator, s)
    ensures Grows(size)
  {
    forall s: seq<T>, i, j | 0 <= i <= j <= |s| ensures size(s[i..j]) <= size(s) {
      JoinedPart(clause, separator, s, i, j);
    }
  }

  /** Where greedy batches start; each start is blocked from the batch before it. */
  ghost predicate Blocked<T>(size: seq<T> -> nat, records: seq<T>, starts: seq<nat>)
  {
    && (starts != [] ==> starts[0] == 0)
    && (forall j :: 0 <= j < |starts| ==> starts[j] < |records|)
    && (forall j :: 1 <= j < |starts| ==> starts[j - 1] < starts[j])
    && (forall j :: 1 <= j < |starts| ==> !Fits(size, records[starts[j - 1]..starts[j] + 1]))
  }

  lemma SliceOfSlice<T>(s: seq<T>, lo: nat, hi: nat, a: nat, b: nat)
    requires lo <= a <= b <= hi <= |s|
    ensures s[lo..hi][a - lo..b - lo] == s[a..b]
  {
    var outer, inner := s[lo..hi], s[lo..hi][a - lo..b - lo];
    forall k | 0 <= k < b - a ensures inner[k] == s[a..b][k] {
      assert inner[k] == outer[a - lo + k] == s[lo + (a - lo + k)];
    }
  }

  /** A batch that fits cannot cover a stretch that does not. */
  lemma LateCut<T(!new)>(size: seq<T> -> nat, records: seq<T>, a: nat, b: nat, cut: nat, m: nat)
    requires Grows(size) && a <= b <= m <= |records| && cut <= m
    requires !Fits(size, records[a..b]) && Fits(size, records[cut..m])
    ensures cut > a
  {
    if cut <= a {
      SliceOfSlice(records, cut, m, a, b);
    }
  }

  /** Any split of a prefix that reaches past the `j`-th start has more than `j` batches. */
  lemma {:induction false} GreedyStaysAhead<T(!new)>(size: seq<T> -> nat, records: seq<T>, starts: seq<nat>, j: nat,
                                                     m: nat, split: seq<seq<T>>)
    requires Grows(size) && Blocked(size, records, starts) && j < |starts| && starts[j] < m <= |records|
    requires IsSplit(size, records[..m], split)
    ensures |split| > j
    decreases j
  {
    assert split != [];
    if j > 0 {
      var last, rest := split[|split| - 1], split[..|split| - 1];
      var cut := m - |last|;
      assert |records[..m]| == |Flatten(rest)| + |last|;
      assert Flatten(rest) == records[..m][..cut] == records[..cut];
      assert last == records[..m][cut..] == records[cut..m];
      LateCut(size, records, starts[j - 1], starts[j] + 1, cut, m);
      GreedyStaysAhead(size, records, starts, j - 1, cut, rest);
    }
  }

  lemma FlattenAppend<T>(batches: seq<seq<T>>, batch: seq<T>)
    ensures Flatten(batches + [batch]) == Flatten(batches) + batch
  {
    assert (batches + [batch])[..|batches|] == batches;
  }

  lemma {:induction false} InSomeBatch<T>(size: seq<T> -> nat, records: seq<T>, batches: seq<seq<T>>, i: nat)
    requires IsSplit(size, records, batches) && i < |records|
    ensures exists k, a :: 0 <= k < |batches| && 0 <= a < |batches[k]| && batches[k][a] == records[i]
    decreases |batches|
  {
    var last, rest := batches[|batches| - 1], batches[..|batches| - 1];
    var cut := |records| - |last|;
    assert Flatten(rest) == records[..cut] && last == records[cut..];
    if i >= cut {
      assert last[i - cut] == records[i];
    } else {
      InSomeBatch(size, records[..cut], rest, i);
      var k, a :| 0 <= k < |rest| && 0 <= a < |rest[k]| && rest[k][a] == records[..cut][i];
      assert batches[k][a] == records[i];
    }
  }

  /** The closed batches and the open one. */
  function All<T>(batches: seq<seq<T>>, current: seq<T>): seq<seq<T>>
  {
    if current == [] then batches else batches + [current]
  }

  lemma GrowCurrent<T>(size: seq<T> -> nat, records: seq<T>, i: nat, batches: seq<seq<T>>, current: seq<T>)
    requires i < |records| && IsSplit(size, records[..i], All(batches, current))
    requires Fits(size, current + [records[i]])
    ensures IsSplit(size, records[..i + 1], All(batches, current + [records[i]]))
  {
    assert records[..i + 1] == records[..i] + [records[i]];
    FlattenAppend(batches, current);
    FlattenAppend(batches, current + [records[i]]);
    forall k | 0 <= k < |batches| ensures batches[k] != [] && Fits(size, batches[k]) {
      assert All(batches, current)[k] == batches[k];
    }
  }

  /** The batches so far, the starts of the greedy batches, and the open batch. */
  ghost predicate Progress<T(!new)>(size: seq<T> -> nat, records: seq<T>, i: nat, batches: seq<seq<T>>, current: seq<T>,
                                    starts: seq<nat>)
  {
    && i <= |records|
    && IsSplit(size, records[..i], All(batches, current))
    && Blocked(size, records, starts)
    && |starts| == |All(batches, current)|
    && (current == [] <==> i == 0)
    && (i > 0 ==> starts[|starts| - 1] + |current| == i && current == records[i - |current|..i])
  }

  lemma Extended<T(!new)>(size: seq<T> -> nat, records: seq<T>, i: nat, batches: seq<seq<T>>, current: seq<T>,
                          starts: seq<nat>)
    requires i < |records| && Progress(size, records, i, batches, current, starts)
    requires Fits(size, current + [records[i]])
    ensures Progress(size, records, i + 1, batches, current + [records[i]], if i == 0 then [0] else starts)
  {
    GrowCurrent(size, records, i, batches, current);
    assert i > 0 ==> current + [records[i]] == records[i - |current|..i + 1];
  }

  lemma Flushed<T(!new)>(size: seq<T> -> nat, records: seq<T>, i: nat, batches: seq<seq<T>>, current: seq<T>,
                         starts: seq<nat>)
    requires i < |records| && current != [] && Progress(size, records, i, batches, current, starts)
    requires !Fits(size, current + [records[i]]) && Fits(size, [records[i]])
    ensures Progress(size, records, i + 1, batches + [current], [records[i]], starts + [i])
  {
    var closed := batches + [current];
    assert All(closed, []) == All(batches, current);
    assert [] + [records[i]] == [records[i]];
    GrowCurrent(size, records, i, closed, []);
    assert current + [records[i]] == records[starts[|starts| - 1]..i + 1];
  }

  /** Finished greedy batches hold every record, and no split has fewer. */
  lemma GreedyOptimal<T(!new)>(size: seq<T> -> nat, records: seq<T>, batches: seq<seq<T>>, starts: seq<nat>)
    requires Grows(size) && IsSplit(size, records, batches)
    requires Blocked(size, records, starts) && |starts| == |batches|
    ensures forall i :: 0 <= i < |records| ==> Fits(size, [records[i]])
    ensures forall split :: IsSplit(size, records, split) ==> |batches| <= |split|
  {
    forall i | 0 <= i < |records| ensures Fits(size, [records[i]]) {
      InSomeBatch(size, records, batches, i);
      var k, a :| 0 <= k < |batches| && 0 <= a < |batches[k]| && batches[k][a] == records[i];
      assert batches[k][a..a + 1] == [records[i]];
    }
    forall split | IsSplit(size, records, split) ensures |batches| <= |split| {
      if starts != [] {
        assert records[..|records|] == records;
        GreedyStaysAhead(size, records, starts, |starts| - 1, |records|, split);
      }
    }
  }

  /** The greedy choice for one record: onto the open batch, into a new one, or not at all. */
  method AddRecord<T(!new,==)>(size: seq<T> -> nat, ghost records: seq<T>, ghost i: nat, record: T,
                               batches: seq<seq<T>>, current: seq<T>, ghost starts: seq<nat>)
    returns (ok: bool, closed: seq<seq<T>>, open: seq<T>, ghost begun: seq<nat>)
    requires i < |records| && record == records[i] && Progress(size, records, i, batches, current, starts)
    ensures ok ==> Progress(size, records, i + 1, closed, open, begun)
    ensures !ok ==> !Fits(size, [record])
  {
    ok, closed, open, begun := true, batches, current, starts;
    var full := |current| == BATCH_SIZE;
    var candidate := (if full then [] else current) + [record];
    assert [] + [record] == [record];
    if size(candidate) <= TARGET_MAX_BYTES {
      if full {
        Flushed(size, records, i, batches, current, starts);
        closed, begun := batches + [current], starts + [i];
      } else {
        Extended(size, records, i, batches, current, starts);
        begun := if i == 0 then [0] else starts;
      }
      open := candidate;
    } else if full || current == [] || size([record]) > TARGET_MAX_BYTES {
      ok := false;
    } else {
      Flushed(size, records, i, batches, current, starts);
      closed, begun, open := batches + [current], starts + [i], [record];
    }
  }

  lemma Started<T(!new)>(size: seq<T> -> nat, records: seq<T>)
    ensures Progress(size, records, 0, [], [], [])
  {
  }

  lemma Finished<T(!new)>(size: seq<T> -> nat, records: seq<T>, batches: seq<seq<T>>, current: seq<T>, starts: seq<nat>)
    requires Progress(size, records, |records|, batches, current, starts)
    ensures IsSplit(size, records, All(batches, current))
    ensures Blocked(size, records, starts) && |starts| == |All(batches, current)|
  {
    assert records[..|records|] == records;
  }

  /** The batches are a split of the records. When targets grow with the batch,
      the method fails exactly when some single record does not fit, and no split
      has fewer batches. */
  method ValidationGetBatches<T(!new,==)>(records: seq<T>, size: seq<T> -> nat) returns (r: Option<seq<seq<T>>>)
    ensures r.Some? ==> IsSplit(size, records, r.value)
    ensures r.None? ==> exists i :: 0 <= i < |records| && !Fits(size, [records[i]])
    ensures Grows(size) && r.Some? ==> forall i :: 0 <= i < |records| ==> Fits(size, [records[i]])
    ensures Grows(size) && r.Some? ==> forall split :: IsSplit(size, records, split) ==> |r.value| <= |split|
  {
    var batches: seq<seq<T>>, current: seq<T> := [], [];
    ghost var starts: seq<nat> := [];
    Started(size, records);
    for i := 0 to |records|
      invariant Progress(size, records, i, batches, current, starts)
    {
      var ok;
      ok, batches, current, starts := AddRecord(size, records, i, records[i], batches, current, starts);
      if !ok {
        return None;
      }
    }
    Finished(size, records, batches, current, starts);
    batches := All(batches, current);
    if Grows(size) {
      GreedyOptimal(size, records, batches, starts);
    }
    return Some(batches);
  }

  /** Publish batches: all of the fixed size but the last, in order. */
  method ValidationBatches<T>(records: seq<T>) returns (batches: seq<seq<T>>)
    ensures Flatten(batches) == records
    ensures forall i :: 0 <= i < |batches| ==> 0 < |batches[i]| <= BATCH_SIZE
    ensures forall i :: 0 <= i < |batches| - 1 ==> |batches[i]| == BATCH_SIZE
  {
    batches := [];
    var offset := 0;
    while offset < |records|
      invariant 0 <= offset <= |records|
      invariant Flatten(batches) == records[..offset]
      invariant forall i :: 0 <= i < |batches| ==> 0 < |batches[i]| <= BATCH_SIZE
      invariant offset < |records| ==> forall i :: 0 <= i < |batches| ==> |batches[i]| == BATCH_SIZE
      invariant forall i :: 0 <= i < |batches| - 1 ==> |batches[i]| == BATCH_SIZE
    {
      var end := if offset + BATCH_SIZE < |records| then offset + BATCH_SIZE else |records|;
      FlattenAppend(batches, records[offset..end]);
      batches := batches + [records[offset..end]];
      offset := end;
    }
    assert records[..|records|] == records;
  }
}
