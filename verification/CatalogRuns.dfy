/** Overlapping calls of one catalog client as interleaved steps: a call reads the
    stored tag, the service answers some time later, and the call handles the answer
    later still. The cache is touched in one transaction at a time. */
module CatalogRuns {
  import opened Common
  import opened CatalogActions
  import opened CloudCatalog
  import opened StableSort

  type TaskId = nat

  datatype Reply =
    | New(listing: seq<Action>)      // 200 with its tag
    | Same(listing: seq<Action>)     // 304: the tag sent was this listing's
    | NoAnswer                       // a transport error or a 5xx status

  /** `since` and `upto` count the stores made before the call read the tag and
      before it used the cache. */
  datatype Task =
    | Asked(f: Filter, since: nat, tag: Option<Tag>)
    | Replied(f: Filter, since: nat, reply: Reply)
    | Answered(f: Filter, since: nat, upto: nat, reply: Reply, actions: seq<Action>)
    | Raised

  datatype State = State(
    catalog: seq<Action>,
    kept: seq<Action>,
    tag: Option<Tag>,
    tasks: map<TaskId, Task>,
    // history
    published: set<seq<Action>>,
    stores: seq<seq<Action>>)

  datatype Step =
    | Publish(rows: seq<Action>)
    | Begin(id: TaskId, f: Filter)
    | Serve(id: TaskId, reached: bool)
    | Deliver(id: TaskId, stored: bool)

  ghost predicate Enabled(s: State, e: Step)
  {
    match e
    case Publish(rows) => Distinct(rows)
    case Begin(id, _) => id !in s.tasks
    case Serve(id, _) => id in s.tasks && s.tasks[id].Asked?
    case Deliver(id, _) => id in s.tasks && s.tasks[id].Replied?
  }

  ghost function Apply(s: State, e: Step): State
    requires Enabled(s, e)
  {
    match e
    case Publish(rows) => s.(catalog := Published(rows), published := s.published + {Published(rows)})
    case Begin(id, f) => s.(tasks := s.tasks[id := Asked(f, |s.stores|, s.tag)])
    case Serve(id, reached) =>
      var t := s.tasks[id];
      var reply := if !reached then NoAnswer
                   else if t.tag == Some(DigestOf(s.catalog)) then Same(s.catalog) else New(s.catalog);
      s.(tasks := s.tasks[id := Replied(t.f, t.since, reply)])
    case Deliver(id, stored) =>
      var t := s.tasks[id];
      if !t.reply.New? then
        s.(tasks := s.tasks[id := Answered(t.f, t.since, |s.stores|, t.reply, FromCache(t.f, s.kept))])
      else if !stored then s.(tasks := s.tasks[id := Raised])
      else
        var listing := t.reply.listing;
        s.(kept := listing, tag := Some(DigestOf(listing)), stores := s.stores + [listing],
           tasks := s.tasks[id := Answered(t.f, t.since, |s.stores|, t.reply, Filtered(t.f, listing))])
  }

  const START := State([], [], None, map[], {[]}, [])

  /** The state after a schedule of steps; one that is not enabled is skipped. */
  ghost function Run(steps: seq<Step>): State
  {
    if steps == [] then START
    else
      var s, e := Run(steps[..|steps| - 1]), steps[|steps| - 1];
      if Enabled(s, e) then Apply(s, e) else s
  }

  /** The state before step `k`. */
  ghost function Before(steps: seq<Step>, k: nat): State
    requires k <= |steps|
  {
    Run(steps[..k])
  }

  ghost predicate Taken(steps: seq<Step>, k: nat)
    requires k < |steps|
  {
    Enabled(Before(steps, k), steps[k])
  }

  lemma StepAt(steps: seq<Step>, k: nat)
    requires k < |steps|
    ensures Before(steps, k + 1) == if Taken(steps, k) then Apply(Before(steps, k), steps[k]) else Before(steps, k)
  {
    assert steps[..k + 1][..k] == steps[..k];
  }

  // ---- what every run keeps ----

  /** The last of the first `n` stores; nothing before the first. */
  function Last(stores: seq<seq<Action>>, n: nat): seq<Action>
  {
    if 0 < n <= |stores| then stores[n - 1] else []
  }

  function LastTag(stores: seq<seq<Action>>, n: nat): Option<Tag>
  {
    if 0 < n <= |stores| then Some(DigestOf(stores[n - 1])) else None
  }

  /** The cache is the last store together with its own tag. */
  ghost predicate CacheInv(s: State)
  {
    && s.kept == Last(s.stores, |s.stores|) && s.tag == LastTag(s.stores, |s.stores|)
    && s.catalog in s.published
    && (forall i :: 0 <= i < |s.stores| ==> s.stores[i] in s.published)
    && (forall c :: c in s.published ==> Distinct(c) && Published(c) == c)
  }

  ghost predicate ReplyInv(s: State, since: nat, reply: Reply)
  {
    && since <= |s.stores|
    && (reply.NoAnswer? || reply.listing in s.published)
    && (reply.Same? ==> 0 < since && Last(s.stores, since) == reply.listing)
  }

  ghost predicate TaskInv(s: State, t: Task)
  {
    match t
    case Asked(_, since, tag) => since <= |s.stores| && tag == LastTag(s.stores, since)
    case Replied(_, since, reply) => ReplyInv(s, since, reply)
    case Answered(f, since, upto, reply, actions) =>
      && ReplyInv(s, since, reply) && since <= upto <= |s.stores|
      && actions == if reply.New? then Filtered(f, reply.listing) else FromCache(f, Last(s.stores, upto))
    case Raised => true
  }

  ghost predicate Inv(s: State)
  {
    CacheInv(s) && forall id :: id in s.tasks ==> TaskInv(s, s.tasks[id])
  }

  lemma StepKeepsCache(s: State, e: Step)
    requires Inv(s) && Enabled(s, e)
    ensures CacheInv(Apply(s, e))
  {
    if e.Publish? {
      PublishedKeeps(e.rows);
    }
  }

  lemma TaskSurvives(s: State, after: State, t: Task)
    requires TaskInv(s, t)
    requires s.stores <= after.stores && s.published <= after.published
    ensures TaskInv(after, t)
  {
  }

  lemma StepKeepsInv(s: State, e: Step)
    requires Inv(s) && Enabled(s, e)
    ensures Inv(Apply(s, e))
  {
    var after := Apply(s, e);
    StepKeepsCache(s, e);
    forall id | id in after.tasks ensures TaskInv(after, after.tasks[id]) {
      if id in s.tasks {
        TaskSurvives(s, after, s.tasks[id]);
      }
    }
  }

  lemma {:induction false} RunKeepsInv(steps: seq<Step>)
    ensures Inv(Run(steps))
  {
    if steps == [] {
      StartIsSound();
    } else {
      var s, e := Run(steps[..|steps| - 1]), steps[|steps| - 1];
      RunKeepsInv(steps[..|steps| - 1]);
      if Enabled(s, e) {
        StepKeepsInv(s, e);
      }
    }
  }

  lemma StartIsSound()
    ensures Inv(START)
  {
    assert Published([]) == [];
  }

  // ---- what the answers mean ----

  /** The listing of a completed answer. */
  predicate Answers(t: Task, listing: seq<Action>)
  {
    (t.Replied? || t.Answered?) && !t.reply.NoAnswer? && t.reply.listing == listing
  }

  /** The service served the call at step `v`. */
  ghost predicate Served(steps: seq<Step>, id: TaskId, v: nat)
    requires v < |steps|
  {
    steps[v] == Serve(id, true) && Taken(steps, v)
  }

  /** A listing that a call was answered with, by 200 or 304, is the catalog that the
      service held when it served that call. */
  lemma {:induction false} ListingIsOfServe(steps: seq<Step>, id: TaskId, listing: seq<Action>)
    requires id in Run(steps).tasks && Answers(Run(steps).tasks[id], listing)
    ensures exists v :: 0 <= v < |steps| && Served(steps, id, v) && Before(steps, v).catalog == listing
  {
    var n := |steps| - 1;
    var earlier := steps[..n];
    var s := Run(earlier);
    if id in s.tasks && Answers(s.tasks[id], listing) {
      ListingIsOfServe(earlier, id, listing);
      var v :| 0 <= v < n && Served(earlier, id, v) && Before(earlier, v).catalog == listing;
      assert earlier[..v] == steps[..v];
      assert Served(steps, id, v);
    } else {
      assert Served(steps, id, n);
      assert Before(steps, n).catalog == listing;
    }
  }

  /** After any run, in any interleaving: a stored tag is the digest of the stored
      actions, and a completed call answers with the filter of a published catalog:
      the one the service sent; else the last one stored, which is empty before the first. */
  lemma AnswersComeFromCatalogs(steps: seq<Step>, id: TaskId)
    ensures var s := Run(steps);
            && (s.tag.Some? ==> s.tag == Some(DigestOf(s.kept)))
            && (id in s.tasks && s.tasks[id].Answered? ==>
                  var t := s.tasks[id];
                  var source := if t.reply.New? then t.reply.listing else Last(s.stores, t.upto);
                  && (source in s.published || t.upto == 0)
                  && multiset(t.actions) == multiset(Filtered(t.f, source)))
  {
    RunKeepsInv(steps);
    var s := Run(steps);
    if id in s.tasks && s.tasks[id].Answered? {
      var t := s.tasks[id];
      FromCacheIsFiltered(t.f, Last(s.stores, t.upto));
    }
  }

  // ---- when a 304 answer is right ----

  /** Step `k` stores a listing. */
  ghost predicate Stores(steps: seq<Step>, k: nat)
    requires k < |steps|
  {
    steps[k].Deliver? && steps[k].stored && Taken(steps, k) && Before(steps, k).tasks[steps[k].id].reply.New?
  }

  ghost function Stored(steps: seq<Step>, k: nat): seq<Action>
    requires k < |steps| && Stores(steps, k)
  {
    Before(steps, k).tasks[steps[k].id].reply.listing
  }

  /** Step `k` is the last between `b` and `d` that stores a listing. */
  ghost predicate LastStore(steps: seq<Step>, b: nat, d: nat, k: nat)
    requires d <= |steps|
  {
    b < k < d && Stores(steps, k) && forall j: nat :: k < j < d ==> !Stores(steps, j)
  }

  ghost predicate NoStore(steps: seq<Step>, b: nat, d: nat)
    requires d <= |steps|
  {
    forall j: nat :: b < j < d ==> !Stores(steps, j)
  }

  lemma StoresGrow(steps: seq<Step>, k: nat)
    requires k < |steps|
    ensures Before(steps, k + 1).stores ==
            Before(steps, k).stores + if Stores(steps, k) then [Stored(steps, k)] else []
  {
    StepAt(steps, k);
  }

  /** What is stored last at `d`, seen from a begin at `b`. */
  lemma {:induction false} StoredSince(steps: seq<Step>, b: nat, d: nat)
    requires b < d <= |steps| && steps[b].Begin?
    ensures NoStore(steps, b, d) ==> Before(steps, d).stores == Before(steps, b).stores
    ensures !NoStore(steps, b, d) ==> exists k: nat :: LastStore(steps, b, d, k)
    ensures forall k: nat :: LastStore(steps, b, d, k) ==>
              var stores := Before(steps, d).stores; Last(stores, |stores|) == Stored(steps, k)
  {
    if d == b + 1 {
      StoresGrow(steps, b);
    } else {
      var n := d - 1;
      StoredSince(steps, b, n);
      StoresGrow(steps, n);
      if Stores(steps, n) {
        assert LastStore(steps, b, d, n);
      } else {
        forall k: nat ensures LastStore(steps, b, d, k) <==> LastStore(steps, b, n, k) {
        }
      }
    }
  }

  /** Once begun, a call keeps its filter and remembers how many stores it began after. */
  lemma {:induction false} CallRemembers(steps: seq<Step>, id: TaskId, b: nat, k: nat)
    requires b < k <= |steps| && steps[b].Begin? && steps[b].id == id && Taken(steps, b)
    ensures id in Before(steps, k).tasks
    ensures var t := Before(steps, k).tasks[id];
            !t.Raised? ==> t.f == steps[b].f && t.since == |Before(steps, b).stores|
  {
    StepAt(steps, k - 1);
    if b + 1 < k {
      CallRemembers(steps, id, b, k - 1);
    }
  }

  lemma {:induction false} AnswerStays(steps: seq<Step>, id: TaskId, d: nat, k: nat)
    requires d <= k <= |steps|
    requires id in Before(steps, d).tasks && Before(steps, d).tasks[id].Answered?
    ensures id in Before(steps, k).tasks && Before(steps, k).tasks[id] == Before(steps, d).tasks[id]
  {
    if d < k {
      AnswerStays(steps, id, d, k - 1);
      StepAt(steps, k - 1);
    }
  }

  lemma {:induction false} StoresExtend(steps: seq<Step>, b: nat, d: nat)
    requires b <= d <= |steps|
    ensures Before(steps, b).stores <= Before(steps, d).stores
  {
    if b < d {
      StoresExtend(steps, b, d - 1);
      StoresGrow(steps, d - 1);
    }
  }

  /** Filtered catalogs with the same actions are the same list. */
  lemma SameFiltered(s: State, f: Filter, a: seq<Action>, b: seq<Action>)
    requires CacheInv(s) && a in s.published && b in s.published
    ensures multiset(Filtered(f, a)) == multiset(Filtered(f, b)) <==> Filtered(f, a) == Filtered(f, b)
  {
    if multiset(Filtered(f, a)) == multiset(Filtered(f, b)) {
      FilteredIsPublished(f, a);
      FilteredIsPublished(f, b);
      PublishedIgnoresOrder(Filtered(f, a), Filtered(f, b));
    }
  }

  /** The call begins at step `b`, is answered 304, and uses the cache at step `d`. */
  ghost predicate Revalidates(steps: seq<Step>, id: TaskId, b: nat, d: nat)
  {
    && b < d < |steps| && steps[b].Begin? && steps[b].id == id && steps[d].Deliver? && steps[d].id == id
    && Taken(steps, b) && id in Before(steps, d).tasks
    && Before(steps, d).tasks[id].Replied? && Before(steps, d).tasks[id].reply.Same?
  }

  /** What is known when a 304 is about to be used. */
  lemma RevalidatedAt(steps: seq<Step>, id: TaskId, b: nat, d: nat)
    requires Revalidates(steps, id, b, d)
    ensures Inv(Before(steps, d)) && Before(steps, d).tasks[id].f == steps[b].f
    ensures var s, earlier := Before(steps, d), Before(steps, b).stores;
            && 0 < |earlier| <= |s.stores|
            && s.tasks[id].reply.listing == Last(earlier, |earlier|)
            && s.tasks[id].reply.listing in s.published && s.kept in s.published
  {
    RunKeepsInv(steps[..d]);
    CallRemembers(steps, id, b, d);
    StoresExtend(steps, b, d);
    var s, t := Before(steps, d), Before(steps, d).tasks[id];
    assert TaskInv(s, t);
    assert ReplyInv(s, t.since, t.reply);
  }

  /** A 304 is answered from the cache, and the answer stays. */
  lemma RevalidatedAnswer(steps: seq<Step>, id: TaskId, b: nat, d: nat)
    requires Revalidates(steps, id, b, d)
    ensures id in Run(steps).tasks && Run(steps).tasks[id].Answered?
    ensures var t, s := Run(steps).tasks[id], Before(steps, d);
            t.reply == s.tasks[id].reply && t.f == s.tasks[id].f && t.actions == FromCache(t.f, s.kept)
  {
    StepAt(steps, d);
    assert Taken(steps, d);
    AnswerStays(steps, id, d + 1, |steps|);
    assert steps[..|steps|] == steps;
  }

  /** For every filter, a 304 answer is the filtered catalog that the service held if
      and only if the last listing that another call stored between this call's begin
      and its use of the cache, if there is one, is the same under the filter. */
  lemma NotModifiedExactly(steps: seq<Step>, id: TaskId, b: nat, d: nat)
    requires Revalidates(steps, id, b, d)
    ensures id in Run(steps).tasks && Run(steps).tasks[id].Answered? && !Run(steps).tasks[id].reply.NoAnswer?
    ensures var t := Run(steps).tasks[id];
            multiset(t.actions) == multiset(Filtered(t.f, t.reply.listing)) <==>
              forall k: nat :: LastStore(steps, b, d, k) ==>
                Filtered(t.f, Stored(steps, k)) == Filtered(t.f, t.reply.listing)
  {
    RevalidatedAt(steps, id, b, d);
    RevalidatedAnswer(steps, id, b, d);
    StoredSince(steps, b, d);
    var s, t := Before(steps, d), Run(steps).tasks[id];
    FromCacheIsFiltered(t.f, s.kept);
    SameFiltered(s, t.f, s.kept, t.reply.listing);
  }

  /** Without a store by another call in between, a 304 answer is the catalog that the
      service held when it served the call. */
  lemma UndisturbedNotModified(steps: seq<Step>, id: TaskId, b: nat, d: nat)
    requires Revalidates(steps, id, b, d)
    requires NoStore(steps, b, d)
    ensures id in Run(steps).tasks && Run(steps).tasks[id].Answered?
    ensures exists v :: 0 <= v < |steps| && Served(steps, id, v) &&
              multiset(Run(steps).tasks[id].actions) == multiset(Filtered(steps[b].f, Before(steps, v).catalog))
  {
    RevalidatedAt(steps, id, b, d);
    RevalidatedAnswer(steps, id, b, d);
    NotModifiedExactly(steps, id, b, d);
    ListingIsOfServe(steps, id, Run(steps).tasks[id].reply.listing);
  }

  // ---- a run that misleads ----

  const ONE := Action("c", "read", "GET", "/x", "v", "id", "version", "body")

  /** A slow first call stores an old listing after a second call was told that the
      newer stored one is current. */
  const OVERLAP := [
    Begin(0, EVERYTHING), Serve(0, true), Publish([ONE]),
    Begin(1, EVERYTHING), Serve(1, true), Deliver(1, true),
    Begin(2, EVERYTHING), Serve(2, true), Deliver(0, true), Deliver(2, true)
  ]

  const EMPTY_FIRST := START.(tasks := map[0 := Replied(EVERYTHING, 0, New([]))])
  const ONE_PUBLISHED := EMPTY_FIRST.(catalog := [ONE], published := {[], [ONE]})
  const ONE_STORED := State([ONE], [ONE], Some(DigestOf([ONE])),
    map[0 := Replied(EVERYTHING, 0, New([])), 1 := Answered(EVERYTHING, 0, 0, New([ONE]), [ONE])],
    {[], [ONE]}, [[ONE]])

  lemma OneMoreStep(steps: seq<Step>, k: nat)
    requires k < |steps| && Enabled(Run(steps[..k]), steps[k])
    ensures Run(steps[..k + 1]) == Apply(Run(steps[..k]), steps[k])
  {
    assert steps[..k + 1][..k] == steps[..k];
  }

  lemma FirstCallWaits()
    ensures Run(OVERLAP[..2]) == EMPTY_FIRST
  {
    assert OVERLAP[..0] == [];
    OneMoreStep(OVERLAP, 0);
    OneMoreStep(OVERLAP, 1);
    assert Run(OVERLAP[..2]).tasks == EMPTY_FIRST.tasks;
  }

  lemma OneIsPublished()
    ensures Run(OVERLAP[..3]) == ONE_PUBLISHED
  {
    FirstCallWaits();
    OneMoreStep(OVERLAP, 2);
    assert [ONE][1..] == [] && Sort(ById(), [ONE][1..]) == [];
    assert {[]} + {[ONE]} == {[], [ONE]};
  }

  const ONE_SERVED := ONE_PUBLISHED.(tasks :=
    map[0 := Replied(EVERYTHING, 0, New([])), 1 := Replied(EVERYTHING, 0, New([ONE]))])

  lemma SecondCallWaits()
    ensures Run(OVERLAP[..5]) == ONE_SERVED
  {
    OneIsPublished();
    OneMoreStep(OVERLAP, 3);
    OneMoreStep(OVERLAP, 4);
    assert Run(OVERLAP[..5]).tasks == ONE_SERVED.tasks;
  }

  lemma SecondCallStores()
    ensures Run(OVERLAP[..6]) == ONE_STORED
  {
    SecondCallWaits();
    OneMoreStep(OVERLAP, 5);
    FilterEverything([ONE]);
    var s := Run(OVERLAP[..6]);
    assert s.tasks == ONE_STORED.tasks && s.stores == ONE_STORED.stores;
  }

  /** Overlapping calls can pass off an old catalog as unmodified. */
  lemma OverlapMisleads()
    ensures var t := Run(OVERLAP).tasks;
            2 in t && t[2].Answered? && t[2].reply == Same([ONE]) && t[2].actions == []
  {
    SecondCallStores();
    OneMoreStep(OVERLAP, 6);
    OneMoreStep(OVERLAP, 7);
    OneMoreStep(OVERLAP, 8);
    OneMoreStep(OVERLAP, 9);
    assert OVERLAP[..10] == OVERLAP;
  }
}
