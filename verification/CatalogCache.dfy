/** The local catalog cache: a table of actions and the entity tag they came with,
    replaced together in one transaction. */
module CatalogCache {
  import opened Common
  import opened CatalogActions
  import opened StableSort
  import opened TextOrder

  /** A stored row; the payload is the action its text decodes to, if it does. */
  datatype Row = Row(id: string, version: string, payload: Option<Action>)

  datatype Error = Duplicate | DatabaseFailed | RowInvalid

  function RowsOf(actions: seq<Action>): seq<Row>
  {
    seq(|actions|, i requires 0 <= i < |actions| => Row(actions[i].id, actions[i].version, Some(actions[i])))
  }

  predicate Decodes(row: Row)
  {
    row.payload.Some? && row.payload.value.id == row.id && row.payload.value.version == row.version
  }

  function PayloadsOf(rows: seq<Row>): seq<Action>
    requires forall i :: 0 <= i < |rows| ==> Decodes(rows[i])
  {
    seq(|rows|, i requires 0 <= i < |rows| => assert Decodes(rows[i]); rows[i].payload.value)
  }

  /** Every row decodes to an action of its own, and no two share an id or version. */
  predicate Readable(rows: seq<Row>)
  {
    (forall i :: 0 <= i < |rows| ==> Decodes(rows[i])) && Distinct(PayloadsOf(rows))
  }

  function RowById(): (Row, Row) -> bool { Up((row: Row) => row.id) }

  lemma StoredIsReadable(actions: seq<Action>)
    requires Distinct(actions)
    ensures Readable(RowsOf(actions)) && PayloadsOf(RowsOf(actions)) == actions
  {
    assert PayloadsOf(RowsOf(actions)) == actions;
  }

  lemma {:induction false} PayloadCount(rows: seq<Row>, x: Action)
    requires forall i :: 0 <= i < |rows| ==> Decodes(rows[i])
    ensures multiset(PayloadsOf(rows))[x] == multiset(rows)[Row(x.id, x.version, Some(x))]
  {
    if rows != [] {
      var n := |rows| - 1;
      PayloadCount(rows[..n], x);
      assert rows == rows[..n] + [rows[n]];
      assert PayloadsOf(rows) == PayloadsOf(rows[..n]) + [rows[n].payload.value];
    }
  }

  lemma PermutedPayloads(a: seq<Row>, b: seq<Row>)
    requires multiset(a) == multiset(b) && forall i :: 0 <= i < |a| ==> Decodes(a[i])
    ensures forall i :: 0 <= i < |b| ==> Decodes(b[i])
    ensures multiset(PayloadsOf(a)) == multiset(PayloadsOf(b))
  {
    SameElements(a, b);
    forall i | 0 <= i < |b| ensures Decodes(b[i]) {
      assert b[i] in a;
    }
    forall x ensures multiset(PayloadsOf(a))[x] == multiset(PayloadsOf(b))[x] {
      PayloadCount(a, x);
      PayloadCount(b, x);
    }
  }

  lemma PermutedReadable(a: seq<Row>, b: seq<Row>)
    requires multiset(a) == multiset(b) && Readable(a)
    ensures Readable(b)
  {
    PermutedPayloads(a, b);
    DistinctUnderPermutation(PayloadsOf(a), PayloadsOf(b));
  }

  lemma PermutedRows(a: seq<Row>, b: seq<Row>)
    requires multiset(a) == multiset(b)
    ensures Readable(a) <==> Readable(b)
  {
    if Readable(a) {
      PermutedReadable(a, b);
    } else if Readable(b) {
      PermutedReadable(b, a);
    }
  }

  lemma PayloadsStep(rows: seq<Row>, i: nat)
    requires i < |rows| && forall j :: 0 <= j <= i ==> Decodes(rows[j])
    ensures PayloadsOf(rows[..i + 1]) == PayloadsOf(rows[..i]) + [rows[i].payload.value]
    ensures Readable(rows) ==> Distinct(PayloadsOf(rows[..i]) + [rows[i].payload.value])
  {
    if Readable(rows) {
      PrefixDistinct(PayloadsOf(rows), i + 1);
      assert PayloadsOf(rows)[..i + 1] == PayloadsOf(rows[..i]) + [rows[i].payload.value];
    }
  }

  class Cache {
    var rows: seq<Row>
    var etag: Option<Tag>

    constructor ()
      ensures rows == [] && etag.None?
    {
      rows, etag := [], None;
    }

    /** The cache holds exactly these actions. */
    predicate Holds(actions: seq<Action>)
      reads this
    {
      Distinct(actions) && rows == RowsOf(actions)
    }

    /** Replaces the rows and the tag together or not at all. `budget` is the number
        of statements the database completes before one fails. */
    method ReplaceGlobal(actions: seq<Action>, tag: Tag, budget: nat) returns (r: Result<(), Error>)
      modifies this
      ensures r.Ok? ==> Holds(actions) && etag == if tag == Text("") then None else Some(tag)
      ensures r.Err? ==> rows == old(rows) && etag == old(etag)
      ensures !Distinct(actions) <==> r == Err(Duplicate)
      ensures Distinct(actions) && budget >= |actions| + 4 ==> r.Ok?
    {
      var checked := RowsForActions(actions);
      if checked.Err? {
        return Err(Duplicate);
      }
      var left := budget;
      if left == 0 {
        return Err(DatabaseFailed);
      }
      var savedRows, savedTag := rows, etag;
      left := left - 1;
      if left == 0 {
        return Err(DatabaseFailed);
      }
      rows, left := [], left - 1;
      for i := 0 to |checked.value|
        invariant rows == checked.value[..i] && left >= budget - 2 - i
        invariant etag == savedTag
      {
        if left == 0 {
          Rollback(savedRows, savedTag);
          return Err(DatabaseFailed);
        }
        rows, left := rows + [checked.value[i]], left - 1;
      }
      if left == 0 {
        Rollback(savedRows, savedTag);
        return Err(DatabaseFailed);
      }
      etag, left := if tag == Text("") then None else Some(tag), left - 1;
      if left == 0 {
        Rollback(savedRows, savedTag);
        return Err(DatabaseFailed);
      }
      r := Ok(());
    }

    /** The database undoes an open transaction. */
    method Rollback(savedRows: seq<Row>, savedTag: Option<Tag>)
      modifies this
      ensures rows == savedRows && etag == savedTag
    {
      rows, etag := savedRows, savedTag;
    }

    method RowsForActions(actions: seq<Action>) returns (r: Result<seq<Row>, Error>)
      ensures r == if Distinct(actions) then Ok(RowsOf(actions)) else Err(Duplicate)
    {
      var made: seq<Row> := [];
      var ids: set<string>, versions: set<string> := {}, {};
      for i := 0 to |actions|
        invariant made == RowsOf(actions[..i]) && Seen(actions[..i], ids, versions)
      {
        var a := actions[i];
        assert actions[..i + 1] == actions[..i] + [a];
        SeenMore(actions[..i], ids, versions, a);
        PrefixDistinct(actions, i + 1);
        if a.id in ids || a.version in versions {
          return Err(Duplicate);
        }
        ids, versions := ids + {a.id}, versions + {a.version};
        made := made + [Row(a.id, a.version, Some(a))];
      }
      assert actions[..|actions|] == actions;
      r := Ok(made);
    }

    method ConditionalHeaders() returns (tag: Option<Tag>)
      ensures tag == if etag == Some(Text("")) then None else etag
    {
      tag := if etag.Some? && etag.value != Text("") then etag else None;
    }

    /** The cached actions in listing order; fails exactly on an unreadable table. */
    method ListGlobal() returns (r: Result<seq<Action>, Error>)
      ensures r.Ok? <==> Readable(rows)
      ensures r.Ok? ==> r.value == Sort(Listing(), PayloadsOf(rows))
    {
      var selected := Sort(RowById(), rows);
      SortPermutes(RowById(), rows);
      PermutedRows(rows, selected);
      var decoded := DecodeRows(selected);
      if decoded.Err? {
        return Err(RowInvalid);
      }
      var merged := MergeActions([], decoded.value);
      PermutedPayloads(rows, selected);
      ListingIgnoresOrder(decoded.value, PayloadsOf(rows));
      r := Ok(merged.value);
    }

    static method DecodeRows(selected: seq<Row>) returns (r: Result<seq<Action>, Error>)
      ensures r == if Readable(selected) then Ok(PayloadsOf(selected)) else Err(RowInvalid)
    {
      var actions: seq<Action> := [];
      var ids: set<string>, versions: set<string> := {}, {};
      for i := 0 to |selected|
        invariant forall j :: 0 <= j < i ==> Decodes(selected[j])
        invariant actions == PayloadsOf(selected[..i]) && Seen(actions, ids, versions)
      {
        var row := selected[i];
        if !Decodes(row) {
          return Err(RowInvalid);
        }
        var a := row.payload.value;
        PayloadsStep(selected, i);
        SeenMore(actions, ids, versions, a);
        if a.id in ids || a.version in versions {
          return Err(RowInvalid);
        }
        ids, versions := ids + {a.id}, versions + {a.version};
        actions := actions + [a];
      }
      assert selected[..|selected|] == selected;
      r := Ok(actions);
    }
  }
}
