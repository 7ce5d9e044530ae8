/** Catalog actions, the orders they are listed in, and merging two collections. */
module CatalogActions {
  import opened Common
  import opened StableSort
  import opened TextOrder

  datatype Action = Action(connector: string, capability: string, httpMethod: string, path: string, variant: string,
                           id: string, version: string, body: string)

  datatype Filter = Filter(connector: Option<string>, httpMethod: Option<string>)
  {
    function Selects(): Action -> bool
    {
      (a: Action) =>
        (connector.None? || a.connector == connector.value) && (httpMethod.None? || a.httpMethod == httpMethod.value)
    }
  }

  /** An entity tag: the digest of a listing, taken to be collision-free, or other text. */
  datatype Tag = DigestOf(listing: seq<Action>) | Text(text: string)

  const EVERYTHING := Filter.Filter(None, None)

  function Filtered(f: Filter, actions: seq<Action>): seq<Action> { StableSort.Filter(f.Selects(), actions) }

  predicate DistinctIds(actions: seq<Action>)
  {
    forall i, j :: 0 <= i < j < |actions| ==> actions[i].id != actions[j].id
  }

  predicate Distinct(actions: seq<Action>)
  {
    DistinctIds(actions) && forall i, j :: 0 <= i < j < |actions| ==> actions[i].version != actions[j].version
  }

  /** Lexicographic order by a list of text keys. */
  function ByKeys(keys: seq<Action -> string>): (Action, Action) -> bool
  {
    if keys == [] then (a, b) => true else Lex(Up(keys[0]), ByKeys(keys[1..]))
  }

  const ID := (a: Action) => a.id

  const LISTING_KEYS := [
    (a: Action) => a.connector, (a: Action) => a.capability, (a: Action) => a.httpMethod, (a: Action) => a.path,
    (a: Action) => a.variant, ID, (a: Action) => a.version
  ]

  function ById(): (Action, Action) -> bool { Up(ID) }
  function Listing(): (Action, Action) -> bool { ByKeys(LISTING_KEYS) }

  lemma {:induction false} ByKeysTotal(keys: seq<Action -> string>)
    ensures TotalPreorder(ByKeys(keys))
  {
    if keys != [] {
      ByKeysTotal(keys[1..]);
      KeyPreorder(keys[0]);
      LexIsPreorder(Up(keys[0]), ByKeys(keys[1..]));
    }
  }

  lemma {:induction false} TiesAgree(keys: seq<Action -> string>, a: Action, b: Action, i: nat)
    requires i < |keys| && ByKeys(keys)(a, b) && ByKeys(keys)(b, a)
    ensures keys[i](a) == keys[i](b)
  {
    AtMostTotal(keys[0](a), keys[0](b));
    if i > 0 {
      TiesAgree(keys[1..], a, b, i - 1);
    }
  }

  lemma SameId(actions: seq<Action>, x: Action, y: Action)
    requires DistinctIds(actions) && x in actions && y in actions && x.id == y.id
    ensures x == y
  {
  }

  /** Any two arrangements of actions with distinct ids are listed alike. */
  lemma ListingIgnoresOrder(a: seq<Action>, b: seq<Action>)
    requires DistinctIds(a) && multiset(a) == multiset(b)
    ensures Sort(Listing(), a) == Sort(Listing(), b)
  {
    var sa, sb := Sort(Listing(), a), Sort(Listing(), b);
    ByKeysTotal(LISTING_KEYS);
    SortSorts(Listing(), a);
    SortSorts(Listing(), b);
    SortPermutes(Listing(), a);
    SortPermutes(Listing(), b);
    SameElements(sa, a);
    forall x, y | x in sa && y in sa && Listing()(x, y) && Listing()(y, x) ensures x == y {
      TiesAgree(LISTING_KEYS, x, y, 5);
      SameId(a, x, y);
    }
    SortedPermutationUnique(Listing(), sa, sb);
  }

  lemma {:induction false} FilterCounts(p: Action -> bool, s: seq<Action>, x: Action)
    ensures multiset(StableSort.Filter(p, s))[x] == if p(x) then multiset(s)[x] else 0
  {
    if s != [] {
      FilterCounts(p, s[1..], x);
      assert s == [s[0]] + s[1..];
    }
  }

  /** Filtering commutes with rearranging. */
  lemma FilterPermuted(f: Filter, a: seq<Action>, b: seq<Action>)
    requires multiset(a) == multiset(b)
    ensures multiset(Filtered(f, a)) == multiset(Filtered(f, b))
  {
    forall x ensures multiset(Filtered(f, a))[x] == multiset(Filtered(f, b))[x] {
      FilterCounts(f.Selects(), a, x);
      FilterCounts(f.Selects(), b, x);
    }
  }

  lemma {:induction false} FilterEverything(s: seq<Action>)
    ensures Filtered(EVERYTHING, s) == s
  {
    if s != [] {
      FilterEverything(s[1..]);
    }
  }

  /** The ids and versions of the actions seen so far, as a loop collects them. */
  ghost predicate Seen(actions: seq<Action>, ids: set<string>, versions: set<string>)
  {
    && Distinct(actions)
    && ids == (set i | 0 <= i < |actions| :: actions[i].id)
    && versions == (set i | 0 <= i < |actions| :: actions[i].version)
  }

  lemma SeenMore(actions: seq<Action>, ids: set<string>, versions: set<string>, a: Action)
    requires Seen(actions, ids, versions)
    ensures Distinct(actions + [a]) <==> a.id !in ids && a.version !in versions
    ensures a.id !in ids && a.version !in versions ==>
              Seen(actions + [a], ids + {a.id}, versions + {a.version})
  {
    var more := actions + [a];
    assert more[|actions|] == a && forall i :: 0 <= i < |actions| ==> more[i] == actions[i];
    if a.id in ids {
      var i :| 0 <= i < |actions| && actions[i].id == a.id;
      assert more[i].id == more[|actions|].id;
    } else if a.version in versions {
      var i :| 0 <= i < |actions| && actions[i].version == a.version;
      assert more[i].version == more[|actions|].version;
    } else {
      assert (set i | 0 <= i < |more| :: more[i].id) == ids + {a.id} by {
        assert forall id :: id in ids ==> exists i :: 0 <= i < |more| && more[i].id == id;
      }
      assert (set i | 0 <= i < |more| :: more[i].version) == versions + {a.version} by {
        assert forall v :: v in versions ==> exists i :: 0 <= i < |more| && more[i].version == v;
      }
    }
  }

  lemma PrefixDistinct(actions: seq<Action>, n: nat)
    requires n <= |actions|
    ensures Distinct(actions) ==> Distinct(actions[..n])
  {
  }

  lemma DistinctPermuted(a: seq<Action>, b: seq<Action>)
    requires DistinctIds(a) && multiset(a) == multiset(b)
    ensures DistinctIds(b)
  {
    SameElements(a, b);
    DistinctPermutation(a, b);
    forall i, j | 0 <= i < j < |b| ensures b[i].id != b[j].id {
      assert b[i] in a && b[j] in a;
      if b[i].id == b[j].id {
        SameId(a, b[i], b[j]);
      }
    }
  }

  lemma DistinctUnderPermutation(a: seq<Action>, b: seq<Action>)
    requires Distinct(a) && multiset(a) == multiset(b)
    ensures Distinct(b)
  {
    DistinctPermuted(a, b);
    SameElements(a, b);
    forall i, j | 0 <= i < j < |b| ensures b[i].version != b[j].version {
      assert b[i] in a && b[j] in a && b[i].id != b[j].id;
    }
  }

  lemma {:induction false} FilteredDistinct(p: Action -> bool, actions: seq<Action>)
    requires Distinct(actions)
    ensures Distinct(StableSort.Filter(p, actions))
  {
    if actions != [] {
      FilteredDistinct(p, actions[1..]);
      forall x | x in StableSort.Filter(p, actions[1..])
        ensures x.id != actions[0].id && x.version != actions[0].version
      {
        FilterMember(p, actions[1..], x);
      }
    }
  }

  // ---- merging ----

  /** The id of `a` belongs to one of the actions. */
  predicate Knows(actions: seq<Action>, id: string)
  {
    exists i :: 0 <= i < |actions| && actions[i].id == id
  }

  method UniqueActions(actions: seq<Action>) returns (r: Result<seq<Action>, string>)
    ensures r == if DistinctIds(actions) then Ok(actions) else Err("catalog_action_duplicate")
  {
    var indexed: seq<Action> := [];
    var ids: set<string> := {};
    for i := 0 to |actions|
      invariant indexed == actions[..i] && DistinctIds(indexed)
      invariant forall id :: id in ids <==> Knows(indexed, id)
    {
      if actions[i].id in ids {
        ghost var j :| 0 <= j < i && actions[..i][j].id == actions[i].id;
        assert actions[j].id == actions[i].id;
        return Err("catalog_action_duplicate");
      }
      var before := indexed;
      indexed, ids := indexed + [actions[i]], ids + {actions[i].id};
      forall id ensures id in ids <==> Knows(indexed, id) {
        KnowsMore(before, actions[i], id);
      }
    }
    assert actions[..|actions|] == actions;
    r := Ok(indexed);
  }

  lemma KnowsMore(actions: seq<Action>, a: Action, id: string)
    ensures Knows(actions + [a], id) <==> Knows(actions, id) || id == a.id
  {
    if id == a.id {
      assert (actions + [a])[|actions|].id == id;
    }
    if i :| 0 <= i < |actions| && actions[i].id == id {
      assert (actions + [a])[i].id == id;
    }
  }

  /** What a dictionary holds after an update: the value in place, or appended. */
  function Put(entries: seq<Action>, a: Action): seq<Action>
  {
    if entries == [] then [a]
    else if entries[0].id == a.id then [a] + entries[1..]
    else [entries[0]] + Put(entries[1..], a)
  }

  lemma {:induction false} PutReplaces(entries: seq<Action>, a: Action)
    requires DistinctIds(entries)
    ensures DistinctIds(Put(entries, a))
    ensures forall x :: x in Put(entries, a) <==> x == a || (x in entries && x.id != a.id)
  {
    if entries != [] {
      assert entries == [entries[0]] + entries[1..];
      if entries[0].id == a.id {
        forall x | x in entries[1..] ensures x.id != a.id {
        }
      } else {
        PutReplaces(entries[1..], a);
        forall x | x in Put(entries[1..], a) ensures x.id != entries[0].id {
        }
      }
    }
  }

  /** Local actions override global ones of the same id; the list is in listing
      order, so it does not depend on the order of either collection. */
  method MergeActions(globals: seq<Action>, locals: seq<Action>) returns (r: Result<seq<Action>, string>)
    ensures r.Ok? <==> DistinctIds(globals) && DistinctIds(locals)
    ensures r.Ok? ==>
              && Sorted(Listing(), r.value) && DistinctIds(r.value)
              && forall x :: x in r.value <==> x in locals || (x in globals && !Knows(locals, x.id))
    ensures r.Err? ==> r.error == "catalog_action_duplicate"
    ensures r.Ok? && globals == [] ==> r.value == Sort(Listing(), locals)
  {
    var first := UniqueActions(globals);
    if first.Err? {
      return Err(first.error);
    }
    var second := UniqueActions(locals);
    if second.Err? {
      return Err(second.error);
    }
    var merged := globals;
    for i := 0 to |locals|
      invariant DistinctIds(merged)
      invariant forall x :: x in merged <==> x in locals[..i] || (x in globals && !Knows(locals[..i], x.id))
      invariant globals == [] ==> merged == locals[..i]
    {
      MergeStep(globals, locals, i, merged);
      merged := Put(merged, locals[i]);
    }
    assert locals[..|locals|] == locals;
    ByKeysTotal(LISTING_KEYS);
    SortSorts(Listing(), merged);
    SortPermutes(Listing(), merged);
    SameElements(Sort(Listing(), merged), merged);
    DistinctPermuted(merged, Sort(Listing(), merged));
    r := Ok(Sort(Listing(), merged));
  }

  lemma MergeStep(globals: seq<Action>, locals: seq<Action>, i: nat, merged: seq<Action>)
    requires i < |locals| && DistinctIds(locals) && DistinctIds(merged)
    requires forall x :: x in merged <==> x in locals[..i] || (x in globals && !Knows(locals[..i], x.id))
    ensures var next := Put(merged, locals[i]);
            && DistinctIds(next)
            && (forall x :: x in next <==> x in locals[..i + 1] || (x in globals && !Knows(locals[..i + 1], x.id)))
            && (merged == locals[..i] ==> next == locals[..i + 1])
  {
    var a := locals[i];
    PutReplaces(merged, a);
    assert locals[..i + 1] == locals[..i] + [a];
    forall x | x in locals[..i] ensures x.id != a.id {
      var j :| 0 <= j < i && locals[j] == x;
    }
    forall x: Action ensures Knows(locals[..i + 1], x.id) <==> Knows(locals[..i], x.id) || x.id == a.id {
      KnowsMore(locals[..i], a, x.id);
    }
    if merged == locals[..i] {
      PutAppends(merged, a);
    }
  }

  lemma {:induction false} PutAppends(entries: seq<Action>, a: Action)
    requires forall x :: x in entries ==> x.id != a.id
    ensures Put(entries, a) == entries + [a]
  {
    if entries != [] {
      PutAppends(entries[1..], a);
      assert entries == [entries[0]] + entries[1..];
    }
  }
}
