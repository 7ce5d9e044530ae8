/** Validation evidence: identities, the batch a publish accepts, and the order in
    which coverage is reported. */
module EvidenceRecords {
  import opened Common
  import opened StableSort
  import opened TextOrder

  datatype Identity = Identity(connector: string, action: string, version: string, environment: string, run: string)

  /** `body` stands for every further field of the payload. */
  datatype Record = Record(identity: Identity, evidence: string, evaluatedAt: int, body: string)

  datatype Error = Invalid | Conflict | RequestFailed | ResponseInvalid

  // ----- the batch a publish accepts -----

  /** Python's order on the identity tuples. */
  function IdentityOrder(): (Identity, Identity) -> bool
  {
    Lex(Up((i: Identity) => i.connector), Lex(Up((i: Identity) => i.action), Lex(Up((i: Identity) => i.version),
        Lex(Up((i: Identity) => i.environment), Up((i: Identity) => i.run)))))
  }

  lemma IdentityOrderIsTotal()
    ensures TotalPreorder(IdentityOrder())
  {
    KeyPreorder((i: Identity) => i.connector);
    KeyPreorder((i: Identity) => i.action);
    KeyPreorder((i: Identity) => i.version);
    KeyPreorder((i: Identity) => i.environment);
    KeyPreorder((i: Identity) => i.run);
    var run := Up((i: Identity) => i.run);
    var env := Lex(Up((i: Identity) => i.environment), run);
    var version := Lex(Up((i: Identity) => i.version), env);
    var action := Lex(Up((i: Identity) => i.action), version);
    LexIsPreorder(Up((i: Identity) => i.environment), run);
    LexIsPreorder(Up((i: Identity) => i.version), env);
    LexIsPreorder(Up((i: Identity) => i.action), version);
    LexIsPreorder(Up((i: Identity) => i.connector), action);
  }

  /** Records that share an identity or an evidence id are the same record. */
  predicate Compatible(records: seq<Record>)
  {
    forall i, j :: 0 <= i < |records| && 0 <= j < |records| && Share(records[i], records[j]) ==>
      records[i] == records[j]
  }

  predicate Share(a: Record, b: Record) { a.identity == b.identity || a.evidence == b.evidence }

  /** No two positions share an identity or an evidence id. */
  predicate Separate(batch: seq<Record>)
  {
    forall i, j :: 0 <= i < j < |batch| ==>
      batch[i].identity != batch[j].identity && batch[i].evidence != batch[j].evidence
  }

  predicate AllPresent(values: seq<Option<Record>>)
  {
    forall i :: 0 <= i < |values| ==> values[i].Some?
  }

  function Present(values: seq<Option<Record>>): (r: seq<Record>)
    requires AllPresent(values)
    ensures |r| == |values| && forall i :: 0 <= i < |r| ==> r[i] == values[i].value
  {
    seq(|values|, i requires 0 <= i < |values| => values[i].value)
  }

  function IdentitiesOf(batch: seq<Record>): (r: seq<Identity>)
    ensures |r| == |batch| && forall i :: 0 <= i < |r| ==> r[i] == batch[i].identity
  {
    seq(|batch|, i requires 0 <= i < |batch| => batch[i].identity)
  }

  /** What the two dictionaries say of the records read so far. */
  ghost predicate Indexed(seen: seq<Record>, byIdentity: map<Identity, Record>, byEvidence: map<string, Record>,
                          order: seq<Identity>)
  {
    && (forall r :: r in seen ==> r.identity in byIdentity && byIdentity[r.identity] == r &&
                                  r.evidence in byEvidence && byEvidence[r.evidence] == r)
    && (forall id :: id in byIdentity ==> byIdentity[id] in seen && byIdentity[id].identity == id)
    && (forall e :: e in byEvidence ==> byEvidence[e] in seen && byEvidence[e].evidence == e)
    && (forall id :: id in byIdentity <==> id in order)
    && (forall i, j :: 0 <= i < j < |order| ==> order[i] != order[j])
  }

  lemma IndexedIsCompatible(seen: seq<Record>, byIdentity: map<Identity, Record>, byEvidence: map<string, Record>,
                            order: seq<Identity>)
    requires Indexed(seen, byIdentity, byEvidence, order)
    ensures Compatible(seen)
  {
    forall i, j | 0 <= i < |seen| && 0 <= j < |seen| && Share(seen[i], seen[j])
      ensures seen[i] == seen[j]
    {
      assert seen[i] in seen && seen[j] in seen;
    }
  }

  /** Exactly the batches without a conflict are accepted; what is accepted holds
      each record once, in the order of the identities. */
  method ValidatedPublishBatch(values: seq<Option<Record>>) returns (r: Result<seq<Record>, Error>)
    ensures r == Err(Invalid) <==> !AllPresent(values)
    ensures AllPresent(values) ==> (r == Err(Conflict) <==> !Compatible(Present(values)))
    ensures r.Ok? ==> && AllPresent(values) && Separate(r.value)
                      && (forall x :: x in r.value <==> x in Present(values))
                      && Sorted(IdentityOrder(), IdentitiesOf(r.value))
    ensures r.Err? ==> r.error in {Invalid, Conflict}
  {
    if exists i :: 0 <= i < |values| && values[i].None? {
      return Err(Invalid);
    }
    var validated := Present(values);
    var byIdentity: map<Identity, Record>, byEvidence: map<string, Record> := map[], map[];
    var order: seq<Identity> := [];
    for i := 0 to |validated|
      invariant Indexed(validated[..i], byIdentity, byEvidence, order)
    {
      var record := validated[i];
      assert validated[..i + 1] == validated[..i] + [record];
      if record.identity in byIdentity {
        if byIdentity[record.identity] != record {
          Clash(validated, i, byIdentity[record.identity]);
          return Err(Conflict);
        }
        assert record in validated[..i];
      } else {
        if record.evidence in byEvidence && byEvidence[record.evidence] != record {
          Clash(validated, i, byEvidence[record.evidence]);
          return Err(Conflict);
        }
        byIdentity := byIdentity[record.identity := record];
        byEvidence := byEvidence[record.evidence := record];
        order := order + [record.identity];
      }
    }
    assert validated[..|validated|] == validated;
    IndexedIsCompatible(validated, byIdentity, byEvidence, order);
    var batch := InOrder(validated, byIdentity, byEvidence, order);
    return Ok(batch);
  }

  lemma Clash(records: seq<Record>, i: nat, other: Record)
    requires i < |records| && other in records[..i] && other != records[i]
    requires Share(other, records[i])
    ensures !Compatible(records)
  {
    var j :| 0 <= j < i && records[..i][j] == other;
    assert records[j] == other;
  }

  /** The indexed records, by sorted identity. */
  method InOrder(ghost seen: seq<Record>, byIdentity: map<Identity, Record>, ghost byEvidence: map<string, Record>,
                 order: seq<Identity>) returns (batch: seq<Record>)
    requires Indexed(seen, byIdentity, byEvidence, order)
    ensures Separate(batch) && (forall x :: x in batch <==> x in seen)
    ensures Sorted(IdentityOrder(), IdentitiesOf(batch))
  {
    var sorted := Sort(IdentityOrder(), order);
    SortedIdentities(order, sorted);
    batch := seq(|sorted|, i requires 0 <= i < |sorted| => assert sorted[i] in order; byIdentity[sorted[i]]);
    InOrderFacts(seen, byIdentity, byEvidence, order, sorted, batch);
  }

  lemma SortedIdentities(order: seq<Identity>, sorted: seq<Identity>)
    requires sorted == Sort(IdentityOrder(), order) && forall i, j :: 0 <= i < j < |order| ==> order[i] != order[j]
    ensures Sorted(IdentityOrder(), sorted) && forall id :: id in sorted <==> id in order
    ensures forall i, j :: 0 <= i < j < |sorted| ==> sorted[i] != sorted[j]
  {
    SortPermutes(IdentityOrder(), order);
    SameElements(sorted, order);
    IdentityOrderIsTotal();
    SortSorts(IdentityOrder(), order);
    DistinctPermutation(order, sorted);
  }

  lemma InOrderFacts(seen: seq<Record>, byIdentity: map<Identity, Record>, byEvidence: map<string, Record>,
                     order: seq<Identity>, sorted: seq<Identity>, batch: seq<Record>)
    requires Indexed(seen, byIdentity, byEvidence, order)
    requires forall id :: id in sorted <==> id in order
    requires forall i, j :: 0 <= i < j < |sorted| ==> sorted[i] != sorted[j]
    requires |batch| == |sorted|
    requires forall i :: 0 <= i < |batch| ==> sorted[i] in byIdentity && batch[i] == byIdentity[sorted[i]]
    ensures IdentitiesOf(batch) == sorted
    ensures Separate(batch) && forall x :: x in batch <==> x in seen
  {
    forall x | x in seen ensures x in batch {
      assert x.identity in sorted;
      var i :| 0 <= i < |sorted| && sorted[i] == x.identity;
      assert batch[i] == x;
    }
    forall i, j | 0 <= i < j < |batch|
      ensures batch[i].identity != batch[j].identity && batch[i].evidence != batch[j].evidence
    {
      assert batch[i] in seen && batch[j] in seen;
    }
  }

  // ----- coverage order -----

  function ByRun(): (Record, Record) -> bool { Down((r: Record) => r.identity.run) }
  function ByTime(): (Record, Record) -> bool { (a: Record, b: Record) => a.evaluatedAt >= b.evaluatedAt }
  function ByAction(): (Record, Record) -> bool
  {
    Lex(Up((r: Record) => r.identity.action), Up((r: Record) => r.identity.version))
  }

  /** Action and version ascending, then evaluation time and run id descending. */
  function CoverageOrder(): (Record, Record) -> bool { Lex(ByAction(), Lex(ByTime(), ByRun())) }

  lemma CoverageOrderIsTotal()
    ensures TotalPreorder(ByRun()) && TotalPreorder(ByTime()) && TotalPreorder(ByAction())
    ensures TotalPreorder(Lex(ByTime(), ByRun())) && TotalPreorder(CoverageOrder())
  {
    KeyPreorder((r: Record) => r.identity.run);
    KeyPreorder((r: Record) => r.identity.action);
    KeyPreorder((r: Record) => r.identity.version);
    LexIsPreorder(Up((r: Record) => r.identity.action), Up((r: Record) => r.identity.version));
    LexIsPreorder(ByTime(), ByRun());
    LexIsPreorder(ByAction(), Lex(ByTime(), ByRun()));
  }

  /** Three stable sorts in a row are one stable sort by the combined order. */
  method OrderedCoverageRecords(records: seq<Record>) returns (ordered: seq<Record>)
    ensures ordered == Sort(CoverageOrder(), records)
    ensures Sorted(CoverageOrder(), ordered) && multiset(ordered) == multiset(records)
  {
    ordered := records;
    ordered := Sort(ByRun(), ordered);
    ordered := Sort(ByTime(), ordered);
    ordered := Sort(ByAction(), ordered);
    CoverageOrderIsTotal();
    SortTwice(ByTime(), ByRun(), records);
    SortTwice(ByAction(), Lex(ByTime(), ByRun()), records);
    SortSorts(CoverageOrder(), records);
    SortPermutes(CoverageOrder(), records);
  }

  /** Within one connector and environment, the report does not depend on the order
      the rows arrived in. */
  lemma CoverageIgnoresInputOrder(a: seq<Record>, b: seq<Record>)
    requires multiset(a) == multiset(b)
    requires forall x, y :: x in a && y in a ==>
               && x.identity.connector == y.identity.connector && x.identity.environment == y.identity.environment
               && (x.identity == y.identity ==> x == y)
    ensures Sort(CoverageOrder(), a) == Sort(CoverageOrder(), b)
  {
    var le := CoverageOrder();
    var sa, sb := Sort(le, a), Sort(le, b);
    CoverageOrderIsTotal();
    SortSorts(le, a);
    SortSorts(le, b);
    SortPermutes(le, a);
    SortPermutes(le, b);
    SameElements(sa, a);
    forall x, y | x in sa && y in sa && le(x, y) && le(y, x) ensures x == y {
      TiesAreEqual(x, y);
    }
    SortedPermutationUnique(le, sa, sb);
  }

  lemma TiesAreEqual(x: Record, y: Record)
    requires CoverageOrder()(x, y) && CoverageOrder()(y, x)
    ensures x.identity.action == y.identity.action && x.identity.version == y.identity.version
    ensures x.identity.run == y.identity.run && x.evaluatedAt == y.evaluatedAt
  {
    AtMostTotal(x.identity.action, y.identity.action);
    AtMostTotal(x.identity.version, y.identity.version);
    AtMostTotal(x.identity.run, y.identity.run);
    var inner := Lex(ByTime(), ByRun());
    assert ByAction()(x, y) && ByAction()(y, x);
    assert inner(x, y) && inner(y, x);
    assert ByRun()(x, y) && ByRun()(y, x);
  }
}
