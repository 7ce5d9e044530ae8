/** Publishing evidence to an append-only table that other writers append to as
    well. Every request is one atomic step of the database; before it, any other
    writer may have appended rows, and it may fail, with or without its effect. */
module EvidenceStore {
  import opened Common
  import opened EvidenceRecords
  import opened GetBatches

  type Rows = map<Identity, Record>

  /** Rows sit under their own identity, and evidence ids are unique. */
  predicate Proper(rows: Rows)
  {
    && (forall id :: id in rows ==> rows[id].identity == id)
    && (forall a, b :: a in rows && b in rows && rows[a].evidence == rows[b].evidence ==> a == b)
  }

  /** Append-only: no row is changed or removed. */
  ghost predicate Extends(before: Rows, after: Rows)
  {
    forall id :: id in before ==> id in after && after[id] == before[id]
  }

  function Selected(rows: Rows, batch: seq<Record>): seq<Record>
  {
    if batch == [] then []
    else
      var last := batch[|batch| - 1];
      Selected(rows, batch[..|batch| - 1]) + if last.identity in rows then [rows[last.identity]] else []
  }

  /** The batch records whose identity is not in the table. */
  function Missing(rows: Rows, batch: seq<Record>): seq<Record>
  {
    if batch == [] then []
    else
      var last := batch[|batch| - 1];
      Missing(rows, batch[..|batch| - 1]) + if last.identity in rows then [] else [last]
  }

  function Inserted(rows: Rows, batch: seq<Record>): Rows
  {
    if batch == [] then rows
    else
      var last, before := batch[|batch| - 1], Inserted(rows, batch[..|batch| - 1]);
      if last.identity in rows then before else before[last.identity := last]
  }

  lemma {:induction false} SelectedIs(rows: Rows, batch: seq<Record>)
    ensures forall x :: x in Selected(rows, batch) <==>
              exists r :: r in batch && r.identity in rows && x == rows[r.identity]
  {
    if batch != [] {
      SelectedIs(rows, batch[..|batch| - 1]);
      assert batch == batch[..|batch| - 1] + [batch[|batch| - 1]];
    }
  }

  lemma {:induction false} SelectedOnce(rows: Rows, batch: seq<Record>)
    requires Proper(rows) && Separate(batch)
    ensures forall i, j :: 0 <= i < j < |Selected(rows, batch)| ==>
              Selected(rows, batch)[i].identity != Selected(rows, batch)[j].identity
  {
    if batch != [] {
      var rest, last := batch[..|batch| - 1], batch[|batch| - 1];
      SelectedOnce(rows, rest);
      SelectedIs(rows, rest);
      forall x | x in Selected(rows, rest) ensures x.identity != last.identity {
        var r :| r in rest && r.identity in rows && x == rows[r.identity];
        var i :| 0 <= i < |rest| && rest[i] == r;
        assert batch[i].identity != batch[|batch| - 1].identity;
      }
    }
  }

  lemma {:induction false} MissingIs(rows: Rows, batch: seq<Record>)
    ensures forall x :: x in Missing(rows, batch) <==> x in batch && x.identity !in rows
  {
    if batch != [] {
      MissingIs(rows, batch[..|batch| - 1]);
      assert batch == batch[..|batch| - 1] + [batch[|batch| - 1]];
    }
  }

  lemma {:induction false} MissingOnce(rows: Rows, batch: seq<Record>)
    requires Separate(batch)
    ensures Separate(Missing(rows, batch))
  {
    if batch != [] {
      var rest, last := batch[..|batch| - 1], batch[|batch| - 1];
      MissingOnce(rows, rest);
      MissingIs(rows, rest);
      forall x | x in Missing(rows, rest) ensures x.identity != last.identity && x.evidence != last.evidence {
        var i :| 0 <= i < |rest| && rest[i] == x;
        assert batch[i].identity != batch[|batch| - 1].identity && batch[i].evidence != batch[|batch| - 1].evidence;
      }
    }
  }

  lemma {:induction false} InsertedKeeps(rows: Rows, batch: seq<Record>)
    requires Separate(batch)
    ensures Extends(rows, Inserted(rows, batch))
    ensures forall x :: x in batch && x.identity !in rows ==>
              x.identity in Inserted(rows, batch) && Inserted(rows, batch)[x.identity] == x
    ensures forall id :: id in Inserted(rows, batch) ==> id in rows || id in IdentitiesOf(batch)
  {
    if batch != [] {
      var rest, last := batch[..|batch| - 1], batch[|batch| - 1];
      assert batch == rest + [last];
      InsertedKeeps(rows, rest);
      LastUnseen(batch);
      assert IdentitiesOf(batch) == IdentitiesOf(rest) + [last.identity];
      assert last.identity !in rows ==> last.identity !in Inserted(rows, rest);
    }
  }

  /** An insertion adds exactly the records whose identity is new, as they are. */
  lemma InsertedIs(rows: Rows, batch: seq<Record>)
    requires Separate(batch)
    ensures Extends(rows, Inserted(rows, batch))
    ensures forall x :: x in batch && x.identity !in rows ==>
              x.identity in Inserted(rows, batch) && Inserted(rows, batch)[x.identity] == x
    ensures forall id :: id in Inserted(rows, batch) && id !in rows ==>
              exists x :: x in batch && x.identity == id && Inserted(rows, batch)[id] == x
  {
    InsertedKeeps(rows, batch);
    forall id | id in Inserted(rows, batch) && id !in rows
      ensures exists x :: x in batch && x.identity == id && Inserted(rows, batch)[id] == x
    {
      var i :| 0 <= i < |batch| && IdentitiesOf(batch)[i] == id;
      assert batch[i] in batch && batch[i].identity == id;
    }
  }

  /** The unique constraint on evidence ids lets the insertion through. */
  predicate Insertable(rows: Rows, batch: seq<Record>)
  {
    Proper(Inserted(rows, batch))
  }

  /** The rows of one reply added to those read before; an unexpected or repeated
      identity is refused. */
  method Merge(batch: seq<Record>, reply: seq<Record>, before: Rows) returns (r: Option<Rows>)
    ensures r == Merged(batch, reply, before)
  {
    var existing := before;
    for i := 0 to |reply|
      invariant Merged(batch, reply[..i], before) == Some(existing)
    {
      assert reply[..i + 1][..i] == reply[..i];
      var identity := reply[i].identity;
      if identity !in IdentitiesOf(batch) || identity in existing {
        MergedFails(batch, reply, i + 1, before);
        return None;
      }
      existing := existing[identity := reply[i]];
    }
    assert reply[..|reply|] == reply;
    return Some(existing);
  }

  function Merged(batch: seq<Record>, reply: seq<Record>, before: Rows): Option<Rows>
  {
    if reply == [] then Some(before)
    else
      var last, rest := reply[|reply| - 1], Merged(batch, reply[..|reply| - 1], before);
      if rest.None? || last.identity !in IdentitiesOf(batch) || last.identity in rest.value then None
      else Some(rest.value[last.identity := last])
  }

  lemma {:induction false} MergedFails(batch: seq<Record>, reply: seq<Record>, i: nat, before: Rows)
    requires i <= |reply| && Merged(batch, reply[..i], before).None?
    ensures Merged(batch, reply, before).None?
    decreases |reply| - i
  {
    if i == |reply| {
      assert reply[..i] == reply;
    } else {
      assert reply[..i + 1][..i] == reply[..i];
      MergedFails(batch, reply, i + 1, before);
    }
  }

  lemma {:induction false} MergedKeeps(batch: seq<Record>, reply: seq<Record>, before: Rows)
    requires forall i, j :: 0 <= i < j < |reply| ==> reply[i].identity != reply[j].identity
    requires forall x :: x in reply ==> x.identity in IdentitiesOf(batch) && x.identity !in before
    ensures var r := Merged(batch, reply, before);
            && r.Some? && Extends(before, r.value)
            && (forall x :: x in reply ==> x.identity in r.value && r.value[x.identity] == x)
            && (forall id :: id in r.value ==> id in before || id in IdentitiesOf(reply))
  {
    if reply != [] {
      var rest, last := reply[..|reply| - 1], reply[|reply| - 1];
      assert reply == rest + [last];
      MergedKeeps(batch, rest, before);
      LastUnseen(reply);
      assert IdentitiesOf(reply) == IdentitiesOf(rest) + [last.identity];
      assert last.identity !in IdentitiesOf(rest);
    }
  }

  lemma LastUnseen(batch: seq<Record>)
    requires batch != [] && forall i, j :: 0 <= i < j < |batch| ==> batch[i].identity != batch[j].identity
    ensures var n := |batch| - 1;
            && (forall x :: x in batch[..n] ==> x.identity != batch[n].identity)
            && batch[n].identity !in IdentitiesOf(batch[..n])
  {
    var n := |batch| - 1;
    forall x | x in batch[..n] ensures x.identity != batch[n].identity {
      var i :| 0 <= i < n && batch[..n][i] == x;
      assert batch[i].identity != batch[n].identity;
    }
  }

  /** A reply of distinct new rows is merged in whole and nothing else is. */
  lemma MergedIs(batch: seq<Record>, reply: seq<Record>, before: Rows)
    requires forall i, j :: 0 <= i < j < |reply| ==> reply[i].identity != reply[j].identity
    requires forall x :: x in reply ==> x.identity in IdentitiesOf(batch) && x.identity !in before
    ensures var r := Merged(batch, reply, before);
            && r.Some? && Extends(before, r.value)
            && (forall x :: x in reply ==> x.identity in r.value && r.value[x.identity] == x)
            && (forall id :: id in r.value ==>
                  id in before || exists x :: x in reply && x.identity == id && r.value[id] == x)
  {
    MergedKeeps(batch, reply, before);
    var r := Merged(batch, reply, before).value;
    forall id | id in r && id !in before ensures exists x :: x in reply && x.identity == id && r[id] == x {
      var i :| 0 <= i < |reply| && IdentitiesOf(reply)[i] == id;
      assert reply[i] in reply && reply[i].identity == id;
    }
  }

  /** What was read is stored, was asked for, and holds all that was stored at the start. */
  ghost predicate ReadSo(start: Rows, rows: Rows, existing: Rows, asked: seq<Record>)
  {
    && Extends(existing, rows)
    && (forall id :: id in existing ==> id in IdentitiesOf(asked))
    && (forall x :: x in asked && x.identity in start ==> x.identity in existing)
  }

  /** Merging an honest reply to a new batch always succeeds and adds what is stored. */
  lemma HonestMerge(rows: Rows, batch: seq<Record>, before: Rows, earlier: seq<Record>)
    requires Proper(rows) && Separate(earlier + batch) && Extends(before, rows)
    requires forall id :: id in before ==> id in IdentitiesOf(earlier)
    ensures var r := Merged(batch, Selected(rows, batch), before);
            && r.Some? && Extends(before, r.value) && Extends(r.value, rows)
            && (forall x :: x in batch && x.identity in rows ==> x.identity in r.value)
            && (forall id :: id in r.value ==> id in IdentitiesOf(earlier + batch))
  {
    var reply, both := Selected(rows, batch), earlier + batch;
    assert Separate(batch) by {
      assert forall i :: 0 <= i < |batch| ==> batch[i] == both[|earlier| + i];
    }
    SelectedIs(rows, batch);
    SelectedOnce(rows, batch);
    forall x | x in batch ensures x.identity in IdentitiesOf(batch) && x.identity !in before {
      var i :| 0 <= i < |batch| && batch[i] == x;
      assert IdentitiesOf(batch)[i] == x.identity;
      forall j | 0 <= j < |earlier| ensures IdentitiesOf(earlier)[j] != x.identity {
        assert both[j].identity != both[|earlier| + i].identity;
      }
    }
    MergedIs(batch, reply, before);
    forall id | id in IdentitiesOf(earlier) || id in IdentitiesOf(batch) ensures id in IdentitiesOf(both) {
      if id in IdentitiesOf(earlier) {
        var j :| 0 <= j < |earlier| && IdentitiesOf(earlier)[j] == id;
        assert IdentitiesOf(both)[j] == id;
      } else {
        var j :| 0 <= j < |batch| && IdentitiesOf(batch)[j] == id;
        assert IdentitiesOf(both)[|earlier| + j] == id;
      }
    }
  }

  lemma FlattenStep<T>(batches: seq<seq<T>>, i: nat)
    requires i < |batches|
    ensures Flatten(batches[..i + 1]) == Flatten(batches[..i]) + batches[i]
  {
    assert batches[..i + 1] == batches[..i] + [batches[i]];
    FlattenAppend(batches[..i], batches[i]);
  }

  lemma {:induction false} FlattenPrefix<T>(batches: seq<seq<T>>, i: nat)
    requires i <= |batches|
    ensures Flatten(batches[..i]) <= Flatten(batches)
    decreases |batches| - i
  {
    if i == |batches| {
      assert batches[..i] == batches;
    } else {
      FlattenStep(batches, i);
      FlattenPrefix(batches, i + 1);
    }
  }

  lemma SplitSeparate(records: seq<Record>, batches: seq<seq<Record>>, i: nat)
    requires Flatten(batches) == records && Separate(records) && i < |batches|
    ensures Separate(Flatten(batches[..i]) + batches[i]) && Separate(batches[i])
  {
    FlattenStep(batches, i);
    FlattenPrefix(batches, i + 1);
    PartsSeparate(records, Flatten(batches[..i]), batches[i]);
  }

  lemma PartsSeparate(records: seq<Record>, before: seq<Record>, batch: seq<Record>)
    requires before + batch <= records && Separate(records)
    ensures Separate(before + batch) && Separate(batch)
  {
    var done := before + batch;
    assert forall k :: 0 <= k < |done| ==> done[k] == records[k];
    assert forall k :: 0 <= k < |batch| ==> batch[k] == done[|before| + k];
  }

  /** The created identities of one reply added to those before; an unexpected or
      repeated identity, or a row that differs from what was sent, is refused. */
  method CheckCreated(batch: seq<Record>, reply: seq<Record>, before: set<Identity>)
    returns (r: Result<set<Identity>, Error>)
    ensures r.Ok? ==> r.value == before + IdentitySet(reply)
    ensures r.Err? ==> r.error in {ResponseInvalid, Conflict}
    ensures (forall x :: x in reply ==> x in batch && x.identity !in before) && Separate(batch) && Separate(reply) ==>
              r.Ok?
  {
    var created := before;
    for i := 0 to |reply|
      invariant created == before + IdentitySet(reply[..i])
    {
      IdentitySetGrows(reply, i);
      var returned := reply[i];
      assert returned in reply;
      if exists k :: 0 <= k < |batch| && batch[k].identity == returned.identity {
        var k :| 0 <= k < |batch| && batch[k].identity == returned.identity;
        if returned.identity in created {
          if returned.identity !in before {
            var x :| x in reply[..i] && x.identity == returned.identity;
            var j :| 0 <= j < i && reply[..i][j] == x;
            assert reply[j].identity == reply[i].identity;
          }
          return Err(ResponseInvalid);
        }
        if returned != batch[k] {
          if returned in batch {
            var m :| 0 <= m < |batch| && batch[m] == returned;
            assert m != k && batch[m].identity == batch[k].identity;
          }
          return Err(Conflict);
        }
        created := created + {returned.identity};
      } else {
        assert returned !in batch;
        return Err(ResponseInvalid);
      }
    }
    assert reply[..|reply|] == reply;
    return Ok(created);
  }

  function IdentitySet(records: seq<Record>): set<Identity>
  {
    set x | x in records :: x.identity
  }

  lemma IdentitySetGrows(records: seq<Record>, i: nat)
    requires i < |records|
    ensures IdentitySet(records[..i + 1]) == IdentitySet(records[..i]) + {records[i].identity}
  {
    assert records[..i + 1] == records[..i] + [records[i]];
  }

  /** The validated records not stored yet; a stored row that differs is a conflict. */
  method PendingRecords(validated: seq<Record>, existing: Rows) returns (r: Result<seq<Record>, Error>)
    ensures r.Err? ==> r.error == Conflict &&
                       exists x :: x in validated && x.identity in existing && existing[x.identity] != x
    ensures r.Ok? ==> r.value == Missing(existing, validated)
    ensures r.Ok? ==> forall x :: x in validated && x.identity in existing ==> existing[x.identity] == x
  {
    var pending: seq<Record> := [];
    for i := 0 to |validated|
      invariant pending == Missing(existing, validated[..i])
      invariant forall x :: x in validated[..i] && x.identity in existing ==> existing[x.identity] == x
    {
      assert validated[..i + 1][..i] == validated[..i];
      var record := validated[i];
      if record.identity !in existing {
        pending := pending + [record];
      } else if existing[record.identity] != record {
        return Err(Conflict);
      }
    }
    assert validated[..|validated|] == validated;
    return Ok(pending);
  }

  /** What was sent and not reported created. */
  function Unreported(batch: seq<Record>, created: set<Identity>): (r: seq<Record>)
    ensures forall x :: x in r <==> x in batch && x.identity !in created
  {
    if batch == [] then []
    else
      assert batch == batch[..|batch| - 1] + [batch[|batch| - 1]];
      Unreported(batch[..|batch| - 1], created) +
      if batch[|batch| - 1].identity in created then [] else [batch[|batch| - 1]]
  }

  lemma {:induction false} UnreportedSeparate(batch: seq<Record>, created: set<Identity>)
    requires Separate(batch)
    ensures Separate(Unreported(batch, created))
  {
    if batch != [] {
      var rest, last := batch[..|batch| - 1], batch[|batch| - 1];
      UnreportedSeparate(rest, created);
      forall x | x in rest ensures x.identity != last.identity && x.evidence != last.evidence {
        var i :| 0 <= i < |rest| && rest[i] == x;
        assert batch[i].identity != batch[|batch| - 1].identity && batch[i].evidence != batch[|batch| - 1].evidence;
      }
    }
  }

  /** Every record done with is stored, and reported created or left to confirm, with
      the honest server; `added` are the identities this store added. */
  ghost predicate SentSo(honest: bool, rows: Rows, added: set<Identity>, done: seq<Record>, created: set<Identity>,
                         unresolved: seq<Record>)
  {
    && (forall x :: x in unresolved ==> x in done)
    && Separate(unresolved)
    && (honest ==>
          && created == added
          && (forall x :: x in done ==> x.identity in rows && (x.identity in created || x in unresolved)))
  }

  lemma SentMore(honest: bool, middle: Rows, rows: Rows, before: set<Identity>, more: set<Identity>,
                 done: seq<Record>, batch: seq<Record>, created: set<Identity>, next: set<Identity>,
                 unresolved: seq<Record>, left: seq<Record>)
    requires SentSo(honest, middle, before, done, created, unresolved) && Extends(middle, rows)
    requires Separate(done + batch) && Separate(left) && forall x :: x in left ==> x in batch
    requires honest ==>
               && next == created + more
               && (forall x :: x in batch ==> x.identity in rows && (x.identity in next || x in left))
    ensures SentSo(honest, rows, before + more, done + batch, next, unresolved + left)
  {
    SeparateParts(done, batch, unresolved, left);
  }

  /** Records from two separate stretches stay separate when some are left out. */
  lemma SeparateParts(a: seq<Record>, b: seq<Record>, x: seq<Record>, y: seq<Record>)
    requires Separate(a + b) && Separate(x) && Separate(y)
    requires (forall r :: r in x ==> r in a) && (forall r :: r in y ==> r in b)
    ensures Separate(x + y)
  {
    var both := a + b;
    forall i, j | 0 <= i < |x| && 0 <= j < |y|
      ensures x[i].identity != y[j].identity && x[i].evidence != y[j].evidence
    {
      assert x[i] in a && y[j] in b;
      var p :| 0 <= p < |a| && a[p] == x[i];
      var q :| 0 <= q < |b| && b[q] == y[j];
      assert both[p].identity != both[|a| + q].identity && both[p].evidence != both[|a| + q].evidence;
    }
  }

  lemma SameIdentitySame(batch: seq<Record>, x: Record, y: Record)
    requires Separate(batch) && x in batch && y in batch && x.identity == y.identity
    ensures x == y
  {
    var i :| 0 <= i < |batch| && batch[i] == x;
    var j :| 0 <= j < |batch| && batch[j] == y;
    assert i < j || j < i || i == j;
  }

  lemma BatchIsValues(values: seq<Option<Record>>, batch: seq<Record>)
    requires AllPresent(values) && forall x :: x in batch <==> x in Present(values)
    ensures forall x :: x in batch <==> Some(x) in values
  {
    forall x ensures x in batch <==> Some(x) in values {
      if x in batch {
        var i :| 0 <= i < |values| && Present(values)[i] == x;
        assert values[i] == Some(x);
      }
      if Some(x) in values {
        var i :| 0 <= i < |values| && values[i] == Some(x);
        assert Present(values)[i] == x;
      }
    }
  }

  /** A record's evidence id is stored under another identity. */
  ghost predicate EvidenceTaken(rows: Rows, x: Record)
  {
    exists id :: id in rows && id != x.identity && rows[id].evidence == x.evidence
  }

  /** The unique constraint refuses a batch exactly when a record of it whose identity
      is new has an evidence id that is taken. */
  lemma RefusedOverEvidence(rows: Rows, batch: seq<Record>)
    requires Proper(rows) && Separate(batch)
    ensures !Insertable(rows, batch) <==> exists x :: x in batch && x.identity !in rows && EvidenceTaken(rows, x)
  {
    if x :| x in batch && x.identity !in rows && EvidenceTaken(rows, x) {
      TakenIsRefused(rows, batch, x);
    } else {
      FreeIsInsertable(rows, batch);
    }
  }

  lemma TakenIsRefused(rows: Rows, batch: seq<Record>, x: Record)
    requires Separate(batch) && x in batch && x.identity !in rows && EvidenceTaken(rows, x)
    ensures !Insertable(rows, batch)
  {
    var id :| id in rows && id != x.identity && rows[id].evidence == x.evidence;
    InsertedKeeps(rows, batch);
    var after := Inserted(rows, batch);
    assert id in after && x.identity in after && after[id].evidence == after[x.identity].evidence;
  }

  lemma FreeIsInsertable(rows: Rows, batch: seq<Record>)
    requires Proper(rows) && Separate(batch)
    requires forall x :: x in batch && x.identity !in rows ==> !EvidenceTaken(rows, x)
    ensures Insertable(rows, batch)
  {
    InsertedIs(rows, batch);
    var after := Inserted(rows, batch);
    forall a, b | a in after && b in after && after[a].evidence == after[b].evidence ensures a == b {
      if a !in rows && b !in rows {
        SameEvidenceSame(batch, after[a], after[b]);
      } else if a !in rows {
        assert !EvidenceTaken(rows, after[a]);
      } else if b !in rows {
        assert !EvidenceTaken(rows, after[b]);
      }
    }
  }

  const FIRST_RUN := Identity("c", "a", "1", "test", "1")
  const SECOND_RUN := FIRST_RUN.(run := "2")
  const STORED := Record(FIRST_RUN, "e", 0, "")
  const NEWCOMER := Record(SECOND_RUN, "e", 1, "")
  const BYSTANDER := Record(FIRST_RUN.(run := "3"), "f", 2, "")

  /** A new identity with the evidence id of a stored row keeps the whole batch out,
      a record without any fault of its own included. */
  lemma NewIdentitiesRefused()
    ensures Proper(map[FIRST_RUN := STORED]) && Separate([BYSTANDER, NEWCOMER])
    ensures NEWCOMER.identity != FIRST_RUN && BYSTANDER.identity != FIRST_RUN
    ensures Insertable(map[FIRST_RUN := STORED], [BYSTANDER])
    ensures !Insertable(map[FIRST_RUN := STORED], [BYSTANDER, NEWCOMER])
  {
    var rows := map[FIRST_RUN := STORED];
    assert rows[FIRST_RUN].evidence == NEWCOMER.evidence;
    assert NEWCOMER in [BYSTANDER, NEWCOMER] && EvidenceTaken(rows, NEWCOMER);
    TakenIsRefused(rows, [BYSTANDER, NEWCOMER], NEWCOMER);
    FreeIsInsertable(rows, [BYSTANDER]);
  }

  lemma SameEvidenceSame(batch: seq<Record>, x: Record, y: Record)
    requires Separate(batch) && x in batch && y in batch && x.evidence == y.evidence
    ensures x == y
  {
    var i :| 0 <= i < |batch| && batch[i] == x;
    var j :| 0 <= j < |batch| && batch[j] == y;
    assert i < j || j < i || i == j;
  }

  class ValidationStore {
    var rows: Rows
    var tick: nat
    ghost var mine: set<Identity>
    const others: nat -> Rows
    const fails: nat -> bool
    const applied: nat -> bool
    const honest: bool
    const replies: nat -> seq<Record>
    const size: seq<Record> -> nat

    ghost predicate Valid()
      reads this
    {
      Proper(rows) && forall id :: id in mine ==> id in rows
    }

    constructor (rows: Rows, others: nat -> Rows, fails: nat -> bool, applied: nat -> bool, honest: bool,
                 replies: nat -> seq<Record>, size: seq<Record> -> nat)
      requires Proper(rows)
      ensures Valid() && this.rows == rows && mine == {} && this.honest == honest && this.size == size
    {
      this.rows, this.others, this.fails, this.applied := rows, others, fails, applied;
      this.honest, this.replies, this.size := honest, replies, size;
      tick, mine := 0, {};
    }

    /** Why a request may fail: the schedule says so, a record is too large for any
        request, or its evidence id is taken. */
    ghost predicate Trouble(from: nat, records: seq<Record>)
      reads this
    {
      || (exists t :: from <= t < tick && fails(t))
      || (exists x :: x in records && (!Fits(size, [x]) || EvidenceTaken(rows, x)))
    }

    /** Another writer appends rows, unless the table's constraints refuse them. */
    method OthersWrite()
      requires Valid()
      modifies `rows
      ensures Valid() && Extends(old(rows), rows)
    {
      var merged := others(tick) + rows;
      if Proper(merged) {
        rows := merged;
      }
    }

    /** Reads the rows of a batch. An honest reply is the stored rows. */
    method Get(batch: seq<Record>) returns (reply: Option<seq<Record>>)
      requires Valid()
      modifies `rows, `tick
      ensures Valid() && Extends(old(rows), rows)
      ensures honest && reply.Some? ==> reply.value == Selected(rows, batch)
      ensures tick == old(tick) + 1 && (reply.None? ==> fails(old(tick)))
    {
      OthersWrite();
      var failed := fails(tick);
      reply := if failed then None else Some(if honest then Selected(rows, batch) else replies(tick));
      tick := tick + 1;
    }

    /** Inserts a batch, ignoring identities already stored. A clash of evidence ids
        refuses the whole batch; a failure may hide an insertion that happened. */
    method Post(batch: seq<Record>) returns (reply: Option<seq<Record>>)
      requires Valid() && Separate(batch)
      modifies `rows, `tick, `mine
      ensures Valid() && Extends(old(rows), rows) && mine >= old(mine)
      ensures Owns(old(rows), old(mine), batch)
      ensures tick >= old(tick) && (reply.None? ==> Trouble(old(tick), batch))
      ensures honest && reply.Some? ==>
                && Separate(reply.value)
                && (forall x :: x in reply.value ==> x in batch)
                && (forall id :: id in mine - old(mine) <==> exists x :: x in reply.value && x.identity == id)
                && (forall x :: x in batch ==> x.identity in rows)
    {
      OthersWrite();
      var insertable, failed := Insertable(rows, batch), fails(tick);
      reply := None;
      ghost var seen := rows;
      RefusedOverEvidence(rows, batch);
      if insertable && (!failed || applied(tick)) {
        var created := Missing(rows, batch);
        MissingIs(rows, batch);
        MissingOnce(rows, batch);
        InsertedIs(rows, batch);
        ghost var added := set x | x in created :: x.identity;
        rows := Inserted(rows, batch);
        mine := mine + added;
        if !failed {
          reply := Some(if honest then created else replies(tick));
        }
      }
      tick := tick + 1;
      assert failed ==> old(tick) <= tick - 1 < tick && fails(tick - 1);
    }

    /** Identities this store added since are new ones of the batch, stored unchanged. */
    ghost predicate Owns(before: Rows, owned: set<Identity>, batch: seq<Record>)
      reads this
    {
      forall id :: id in mine && id !in owned ==>
        id !in before && exists x :: x in batch && x.identity == id && id in rows && rows[id] == x
    }

    /** One batch read and merged into what was read before. */
    method ReadBatch(ghost start: Rows, ghost earlier: seq<Record>, batch: seq<Record>, before: Rows)
      returns (r: Result<Rows, Error>)
      requires Valid() && Separate(earlier + batch) && Extends(start, rows)
      requires honest ==> ReadSo(start, rows, before, earlier)
      modifies `rows, `tick
      ensures Valid() && Extends(old(rows), rows)
      ensures r.Err? ==> r.error in {RequestFailed, ResponseInvalid} && (honest ==> r.error == RequestFailed)
      ensures tick == old(tick) + 1 && (r == Err(RequestFailed) ==> fails(old(tick)))
      ensures honest && r.Ok? ==> ReadSo(start, rows, r.value, earlier + batch)
    {
      var reply := Get(batch);
      if reply.None? {
        return Err(RequestFailed);
      }
      var merged := Merge(batch, reply.value, before);
      if honest {
        HonestMerge(rows, batch, before, earlier);
      }
      r := if merged.None? then Err(ResponseInvalid) else Ok(merged.value);
    }

    /** The stored rows of the given identities, read in size-bounded batches. */
    method ExistingValidations(records: seq<Record>) returns (r: Result<Rows, Error>)
      requires Valid() && Separate(records)
      modifies `rows, `tick
      ensures Valid() && Extends(old(rows), rows)
      ensures r.Err? ==> r.error in {RequestFailed, ResponseInvalid} && (honest ==> r.error == RequestFailed)
      ensures tick >= old(tick) && (r == Err(RequestFailed) ==> Trouble(old(tick), records))
      ensures honest && r.Ok? ==> Extends(r.value, rows)
      ensures honest && r.Ok? ==> forall x :: x in records && x.identity in old(rows) ==> x.identity in r.value
    {
      var batches := ValidationGetBatches(records, size);
      if batches.None? {
        ghost var i :| 0 <= i < |records| && !Fits(size, [records[i]]);
        assert records[i] in records;
        return Err(RequestFailed);
      }
      var existing: Rows := map[];
      for i := 0 to |batches.value|
        invariant Valid() && Extends(old(rows), rows) && tick >= old(tick)
        invariant honest ==> ReadSo(old(rows), rows, existing, Flatten(batches.value[..i]))
      {
        FlattenStep(batches.value, i);
        SplitSeparate(records, batches.value, i);
        ghost var now := tick;
        r := ReadBatch(old(rows), Flatten(batches.value[..i]), batches.value[i], existing);
        if r.Err? {
          assert r == Err(RequestFailed) ==> old(tick) <= now < tick && fails(now);
          return;
        }
        existing := r.value;
      }
      assert batches.value[..|batches.value|] == batches.value;
      return Ok(existing);
    }

    ghost predicate Sent(owned: set<Identity>, done: seq<Record>, created: set<Identity>, unresolved: seq<Record>)
      reads this
    {
      SentSo(honest, rows, mine - owned, done, created, unresolved)
    }

    /** Inserts one batch and checks the reply. */
    method InsertBatch(batch: seq<Record>, before: set<Identity>)
      returns (r: Result<set<Identity>, Error>, left: seq<Record>)
      requires Valid() && Separate(batch) && (honest ==> before <= mine)
      modifies `rows, `tick, `mine
      ensures Valid() && Extends(old(rows), rows) && mine >= old(mine)
      ensures Owns(old(rows), old(mine), batch)
      ensures tick >= old(tick) && (r == Err(RequestFailed) ==> Trouble(old(tick), batch))
      ensures r.Err? ==> r.error in {RequestFailed, ResponseInvalid, Conflict} && (honest ==> r.error == RequestFailed)
      ensures (forall x :: x in left ==> x in batch) && Separate(left)
      ensures honest && r.Ok? ==>
                && r.value == before + (mine - old(mine))
                && (forall x :: x in batch ==> x.identity in rows && (x.identity in r.value || x in left))
    {
      left := [];
      var reply := Post(batch);
      if reply.None? {
        return Err(RequestFailed), [];
      }
      if honest {
        forall x | x in reply.value ensures x in batch && x.identity !in before {
          assert x.identity in mine - old(mine);
        }
      }
      r := CheckCreated(batch, reply.value, before);
      if r.Ok? {
        left := Unreported(batch, r.value);
        UnreportedSeparate(batch, r.value);
      }
    }

    lemma OwnsMore(before: Rows, owned: set<Identity>, done: seq<Record>, middle: Rows, between: set<Identity>,
                   batch: seq<Record>)
      requires Extends(before, middle) && Extends(middle, rows) && between <= mine
      requires forall id :: id in between && id !in owned ==>
                 id !in before && exists x :: x in done && x.identity == id && id in middle && middle[id] == x
      requires Owns(middle, between, batch)
      ensures Owns(before, owned, done + batch)
    {
      forall id | id in mine && id !in owned
        ensures id !in before && exists x :: x in done + batch && x.identity == id && id in rows && rows[id] == x
      {
        if id in between {
          var x :| x in done && x.identity == id && id in middle && middle[id] == x;
          assert x in done + batch;
        } else {
          var x :| x in batch && x.identity == id && id in rows && rows[id] == x;
          assert x in done + batch;
        }
      }
    }

    lemma OwnsWhole(before: Rows, owned: set<Identity>, pending: seq<Record>, batches: seq<seq<Record>>, i: nat)
      requires i < |batches| && Flatten(batches) == pending
      requires Owns(before, owned, Flatten(batches[..i]) + batches[i])
      ensures Owns(before, owned, pending) && forall x :: x in batches[i] ==> x in pending
    {
      FlattenStep(batches, i);
      FlattenPrefix(batches, i + 1);
      assert forall x :: x in Flatten(batches[..i]) + batches[i] ==> x in pending;
    }

    /** Inserts the pending records batch by batch. */
    method InsertPending(pending: seq<Record>)
      returns (r: Result<set<Identity>, Error>, unresolved: seq<Record>)
      requires Valid() && Separate(pending)
      modifies `rows, `tick, `mine
      ensures Valid() && Extends(old(rows), rows) && mine >= old(mine)
      ensures Owns(old(rows), old(mine), pending)
      ensures tick >= old(tick) && (r == Err(RequestFailed) ==> Trouble(old(tick), pending))
      ensures r.Err? ==> r.error in {RequestFailed, ResponseInvalid, Conflict} && (honest ==> r.error == RequestFailed)
      ensures r.Ok? ==> Sent(old(mine), pending, r.value, unresolved)
    {
      var batches := ValidationBatches(pending);
      var created: set<Identity> := {};
      unresolved := [];
      for i := 0 to |batches|
        invariant Valid() && Extends(old(rows), rows) && mine >= old(mine)
        invariant tick >= old(tick) && Owns(old(rows), old(mine), Flatten(batches[..i]))
        invariant Sent(old(mine), Flatten(batches[..i]), created, unresolved)
      {
        ghost var done, middle, between := Flatten(batches[..i]), rows, mine;
        FlattenStep(batches, i);
        SplitSeparate(pending, batches, i);
        var checked, left := InsertBatch(batches[i], created);
        OwnsMore(old(rows), old(mine), done, middle, between, batches[i]);
        if checked.Err? {
          OwnsWhole(old(rows), old(mine), pending, batches, i);
          return Err(checked.error), unresolved;
        }
        SentMore(honest, middle, rows, between - old(mine), mine - between, done, batches[i], created, checked.value,
                 unresolved, left);
        assert (between - old(mine)) + (mine - between) == mine - old(mine);
        created, unresolved := checked.value, unresolved + left;
      }
      assert batches[..|batches|] == batches;
      return Ok(created), unresolved;
    }

    /** Re-reads what the inserts did not report: all of it must be stored unchanged. */
    method Confirm(unresolved: seq<Record>) returns (r: Result<(), Error>)
      requires Valid() && Separate(unresolved)
      requires honest ==> forall x :: x in unresolved ==> x.identity in rows
      modifies `rows, `tick
      ensures Valid() && Extends(old(rows), rows)
      ensures r.Err? ==> r.error in {RequestFailed, ResponseInvalid, Conflict}
      ensures tick >= old(tick) && (r == Err(RequestFailed) ==> Trouble(old(tick), unresolved))
      ensures honest && r.Ok? ==> forall x :: x in unresolved ==> x.identity in rows && rows[x.identity] == x
      ensures honest ==> r != Err(ResponseInvalid)
      ensures honest && r == Err(Conflict) ==>
                exists x :: x in unresolved && x.identity in rows && rows[x.identity] != x
    {
      var existing := ExistingValidations(unresolved);
      if existing.Err? {
        return Err(existing.error);
      }
      for i := 0 to |unresolved|
        invariant honest ==> forall x :: x in unresolved[..i] ==> x.identity in rows && rows[x.identity] == x
      {
        var record := unresolved[i];
        assert unresolved[..i + 1] == unresolved[..i] + [record] && record in unresolved;
        if record.identity !in existing.value {
          return Err(ResponseInvalid);
        }
        if existing.value[record.identity] != record {
          return Err(Conflict);
        }
      }
      assert unresolved[..|unresolved|] == unresolved;
      return Ok(());
    }

    /** Every well-formed record is stored unchanged at its identity. */
    ghost predicate Stored(values: seq<Option<Record>>)
      reads this
    {
      forall x :: Some(x) in values ==> x.identity in rows && rows[x.identity] == x
    }

    /** Some record meets a different record stored at its identity. */
    ghost predicate Clashes(values: seq<Option<Record>>)
      reads this
    {
      exists x :: Some(x) in values && x.identity in rows && rows[x.identity] != x
    }

    /** Publishing a batch. The table only grows, and only this call's new rows are
        counted: on success every record is stored unchanged and the result is the
        number of rows this call inserted. */
    method Publish(values: seq<Option<Record>>) returns (r: Result<nat, Error>)
      requires Valid()
      modifies `rows, `tick, `mine
      ensures Valid() && Extends(old(rows), rows) && mine >= old(mine)
      ensures forall id :: id in mine && id !in old(mine) ==>
                id !in old(rows) && exists x :: Some(x) in values && x.identity == id && id in rows && rows[id] == x
      ensures r == Err(Invalid) <==> !AllPresent(values)
      ensures AllPresent(values) && !Compatible(Present(values)) ==> r == Err(Conflict)
      ensures honest && r.Ok? ==> AllPresent(values) && Stored(values) && r.value == |mine - old(mine)|
      ensures honest && r == Err(Conflict) ==>
                AllPresent(values) && (!Compatible(Present(values)) || Clashes(values))
      ensures honest ==> r != Err(ResponseInvalid)
      ensures r == Err(RequestFailed) ==> AllPresent(values) && Trouble(old(tick), Present(values))
    {
      var validated := ValidatedPublishBatch(values);
      if validated.Err? {
        return Err(validated.error);
      }
      var batch := validated.value;
      BatchIsValues(values, batch);
      var existing := ExistingValidations(batch);
      if existing.Err? {
        return Err(existing.error);
      }
      var pending := PendingRecords(batch, existing.value);
      if pending.Err? {
        return Err(pending.error);
      }
      MissingIs(existing.value, batch);
      MissingOnce(existing.value, batch);
      if pending.value == [] {
        assert mine - old(mine) == {};
        return Ok(0);
      }
      var created, unresolved := InsertPending(pending.value);
      if created.Err? {
        return Err(created.error);
      }
      if unresolved != [] {
        var confirmed := Confirm(unresolved);
        if confirmed.Err? {
          return Err(confirmed.error);
        }
      }
      if honest {
        AllStored(old(rows), old(mine), batch, pending.value, existing.value, created.value, unresolved);
      }
      return Ok(|created.value|);
    }

    lemma AllStored(before: Rows, owned: set<Identity>, batch: seq<Record>, pending: seq<Record>, existing: Rows,
                    created: set<Identity>, unresolved: seq<Record>)
      requires honest && Separate(pending) && Sent(owned, pending, created, unresolved)
      requires Extends(existing, rows)
      requires forall x :: x in batch ==> x in pending || (x.identity in existing && existing[x.identity] == x)
      requires forall id :: id in mine && id !in owned ==>
                 exists x :: x in pending && x.identity == id && id in rows && rows[id] == x
      requires forall x :: x in unresolved ==> x.identity in rows && rows[x.identity] == x
      ensures forall x :: x in batch ==> x.identity in rows && rows[x.identity] == x
    {
      forall x | x in batch ensures x.identity in rows && rows[x.identity] == x {
        if x in pending && x !in unresolved {
          assert x.identity in created;
          var y :| y in pending && y.identity == x.identity && y.identity in rows && rows[y.identity] == y;
          SameIdentitySame(pending, x, y);
        }
      }
    }

    /** An immediate repeat of a successful publish inserts nothing and reports 0. */
    method PublishTwice(values: seq<Option<Record>>) returns (first: Result<nat, Error>, again: Result<nat, Error>)
      requires Valid() && honest
      modifies `rows, `tick, `mine
      ensures first.Ok? && again.Ok? ==> again.value == 0
      ensures first.Ok? && again.Err? ==> again.error == RequestFailed
    {
      first := Publish(values);
      ghost var owned := mine;
      again := Publish(values);
      assert first.Ok? ==> mine - owned == {};
    }
  }
}
