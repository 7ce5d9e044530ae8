/** Listing the catalog: the service, and the client that keeps a copy of it. */
module CloudCatalog {
  import opened Common
  import opened CatalogActions
  import opened CatalogCache
  import opened StableSort

  // ---- the service ----

  datatype Response = BadRequest | Unavailable | NotModified(tag: Tag) | Listed(actions: seq<Action>, tag: Tag)

  function Published(rows: seq<Action>): seq<Action> { Sort(ById(), rows) }

  method PublishedActions(rows: seq<Action>) returns (r: Result<seq<Action>, string>)
    ensures r == if Distinct(rows) then Ok(Published(rows)) else Err("cloud_catalog_duplicate")
  {
    var actions: seq<Action> := [];
    var ids: set<string>, versions: set<string> := {}, {};
    for i := 0 to |rows|
      invariant actions == rows[..i] && Seen(actions, ids, versions)
    {
      var a := rows[i];
      assert rows[..i + 1] == rows[..i] + [a];
      SeenMore(actions, ids, versions, a);
      PrefixDistinct(rows, i + 1);
      if a.id in ids || a.version in versions {
        return Err("cloud_catalog_duplicate");
      }
      ids, versions := ids + {a.id}, versions + {a.version};
      actions := actions + [a];
    }
    assert rows[..|rows|] == rows;
    r := Ok(Sort(ById(), actions));
  }

  /** `rows` is what the database answers, if it does. */
  method ListActions(rows: Option<seq<Action>>, goodQuery: bool, f: Filter, ifNoneMatch: Option<Tag>)
    returns (response: Response)
    ensures !goodQuery ==> response == BadRequest
    ensures goodQuery && (rows.None? || !Distinct(rows.value)) ==> response == Unavailable
    ensures goodQuery && rows.Some? && Distinct(rows.value) ==>
              var listing := Filtered(f, Published(rows.value));
              response == if ifNoneMatch == Some(DigestOf(listing)) then NotModified(DigestOf(listing))
                          else Listed(listing, DigestOf(listing))
  {
    if !goodQuery {
      return BadRequest;
    }
    if rows.None? {
      return Unavailable;
    }
    var all := PublishedActions(rows.value);
    if all.Err? {
      return Unavailable;
    }
    var payload := Filtered(f, all.value);
    var tag := DigestOf(payload);
    response := if ifNoneMatch == Some(tag) then NotModified(tag) else Listed(payload, tag);
  }

  lemma PublishedKeeps(rows: seq<Action>)
    requires Distinct(rows)
    ensures Distinct(Published(rows)) && multiset(Published(rows)) == multiset(rows)
    ensures Published(Published(rows)) == Published(rows)
  {
    SortPermutes(ById(), rows);
    DistinctUnderPermutation(rows, Published(rows));
    PublishedIgnoresOrder(rows, Published(rows));
  }

  /** Two catalogs with the same actions are published alike. */
  lemma PublishedIgnoresOrder(a: seq<Action>, b: seq<Action>)
    requires Distinct(a) && multiset(a) == multiset(b)
    ensures Published(a) == Published(b)
  {
    var sa, sb := Published(a), Published(b);
    TextOrder.KeyPreorder(ID);
    SortSorts(ById(), a);
    SortSorts(ById(), b);
    SortPermutes(ById(), a);
    SortPermutes(ById(), b);
    SameElements(sa, a);
    forall x, y | x in sa && y in sa && ById()(x, y) && ById()(y, x) ensures x == y {
      TextOrder.AtMostTotal(x.id, y.id);
      SameId(a, x, y);
    }
    SortedPermutationUnique(ById(), sa, sb);
  }

  lemma {:induction false} FilterSorted(p: Action -> bool, actions: seq<Action>)
    requires Sorted(ById(), actions)
    ensures Sorted(ById(), StableSort.Filter(p, actions))
  {
    if actions != [] {
      FilterSorted(p, actions[1..]);
      forall x | x in StableSort.Filter(p, actions[1..]) ensures ById()(actions[0], x) {
        FilterMember(p, actions[1..], x);
      }
    }
  }

  /** A filtered catalog is a catalog of its own, published as it is. */
  lemma FilteredIsPublished(f: Filter, catalog: seq<Action>)
    requires Distinct(catalog) && Published(catalog) == catalog
    ensures Distinct(Filtered(f, catalog)) && Published(Filtered(f, catalog)) == Filtered(f, catalog)
  {
    var some := Filtered(f, catalog);
    FilteredDistinct(f.Selects(), catalog);
    TextOrder.KeyPreorder(ID);
    SortSorts(ById(), catalog);
    FilterSorted(f.Selects(), catalog);
    SortSorts(ById(), some);
    SortPermutes(ById(), some);
    SameElements(Published(some), some);
    forall x, y | x in some && y in some && ById()(x, y) && ById()(y, x) ensures x == y {
      TextOrder.AtMostTotal(x.id, y.id);
      SameId(some, x, y);
    }
    SortedPermutationUnique(ById(), some, Published(some));
  }

  // ---- the client ----

  /** What the network does with a request. */
  datatype Network = Down | Garbled | Reaches(rows: Option<seq<Action>>)

  datatype Fetched = Fetched(actions: seq<Action>, fromCloud: bool)
  datatype Failure = InvalidFilter | InvalidResponse | CacheFailed

  /** A stored tag is the digest of exactly the stored actions. */
  predicate Coherent(rows: seq<Row>, etag: Option<Tag>)
  {
    Readable(rows) && (etag.Some? ==> etag.value == DigestOf(PayloadsOf(rows)))
  }

  /** What the cache answers. */
  function FromCache(f: Filter, kept: seq<Action>): seq<Action> { Filtered(f, Sort(Listing(), kept)) }

  lemma FromCacheIsFiltered(f: Filter, kept: seq<Action>)
    ensures multiset(FromCache(f, kept)) == multiset(Filtered(f, kept))
  {
    SortPermutes(Listing(), kept);
    FilterPermuted(f, Sort(Listing(), kept), kept);
  }

  class Client {
    const cache: Cache

    constructor (cache: Cache)
      ensures this.cache == cache
    {
      this.cache := cache;
    }

    method CachedActions(f: Filter) returns (r: Result<seq<Action>, Failure>)
      ensures r.Ok? <==> Readable(cache.rows)
      ensures r.Ok? ==> r.value == FromCache(f, PayloadsOf(cache.rows))
    {
      var listed := cache.ListGlobal();
      r := if listed.Ok? then Ok(Filtered(f, listed.value)) else Err(CacheFailed);
    }

    /** The request carries no query: the service always lists the whole catalog. */
    method Get(network: Network, ifNoneMatch: Option<Tag>) returns (response: Option<Response>)
      requires !network.Garbled?
      ensures network.Down? ==> response == None
      ensures network.Reaches? && (network.rows.None? || !Distinct(network.rows.value)) ==>
                response == Some(Unavailable)
      ensures network.Reaches? && network.rows.Some? && Distinct(network.rows.value) ==>
                var listing := Published(network.rows.value);
                response == Some(if ifNoneMatch == Some(DigestOf(listing)) then NotModified(DigestOf(listing))
                                 else Listed(listing, DigestOf(listing)))
    {
      if network.Down? {
        return None;
      }
      if network.rows.Some? {
        FilterEverything(Published(network.rows.value));
      }
      var answer := ListActions(network.rows, true, EVERYTHING, ifNoneMatch);
      response := Some(answer);
    }

    /** A garbled response is one that is not from the catalog endpoint: a redirect or
        client error, or a body or tag of the wrong form. */
    method ListCatalog(f: Filter, goodFilter: bool, network: Network, budget: nat)
      returns (r: Result<Fetched, Failure>)
      requires Coherent(cache.rows, cache.etag)
      modifies cache
      ensures Coherent(cache.rows, cache.etag)
      ensures r.Err? ==> cache.rows == old(cache.rows) && cache.etag == old(cache.etag)
      ensures !goodFilter ==> r == Err(InvalidFilter)
      ensures goodFilter && network.Garbled? ==> r == Err(InvalidResponse)
      ensures goodFilter && !network.Garbled? && !Answers(network) ==>
                && r == Ok(Fetched(FromCache(f, PayloadsOf(old(cache.rows))), false))
                && cache.rows == old(cache.rows) && cache.etag == old(cache.etag)
      ensures goodFilter && Answers(network) && r.Ok? ==>
                && multiset(r.value.actions) == multiset(Filtered(f, network.rows.value))
                && (r.value.fromCloud <==> old(cache.etag) != Some(DigestOf(Published(network.rows.value))))
                && PayloadsOf(cache.rows) == Published(network.rows.value)
                && cache.etag == Some(DigestOf(Published(network.rows.value)))
      ensures goodFilter && Answers(network) && r.Err? ==>
                && r == Err(CacheFailed) && budget < |network.rows.value| + 4
                && old(cache.etag) != Some(DigestOf(Published(network.rows.value)))
    {
      if !goodFilter {
        return Err(InvalidFilter);
      }
      var tag := cache.ConditionalHeaders();
      if network.Garbled? {
        return Err(InvalidResponse);
      }
      var response := Get(network, tag);
      if Answers(network) {
        PublishedKeeps(network.rows.value);
        FilterPermuted(f, Published(network.rows.value), network.rows.value);
      }
      if response.None? || response.value.NotModified? || response.value.Unavailable? {
        FromCacheIsFiltered(f, PayloadsOf(cache.rows));
        var kept := CachedActions(f);
        r := Ok(Fetched(kept.value, false));
      } else {
        var actions := response.value.actions;
        SortPermutes(ById(), network.rows.value);
        assert |actions| == |multiset(actions)|;
        var stored := cache.ReplaceGlobal(actions, response.value.tag, budget);
        if stored.Err? {
          return Err(CacheFailed);
        }
        StoredIsReadable(actions);
        r := Ok(Fetched(Filtered(f, actions), true));
      }
    }
  }

  predicate Answers(network: Network)
  {
    network.Reaches? && network.rows.Some? && Distinct(network.rows.value)
  }
}
