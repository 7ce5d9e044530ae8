/** The bounded traversal of provider responses: a stack-based loop that refines a
    recursive preorder, and the verdict drawn from it. */
module PeakResponse {
  import opened Json
  import opened StableSort
  import opened TextOrder

  const MAX_NODES := 128
  const MAX_DEPTH := 8
  const ROOT: nat := 0

  // ----- keys in order -----

  predicate IsLeast(least: string, keys: set<string>)
  {
    least in keys && forall k :: k in keys ==> AtMost(least, k)
  }

  lemma {:induction false} LeastKeyExists(keys: set<string>)
    requires keys != {}
    ensures exists least :: IsLeast(least, keys)
    ensures forall a, b :: IsLeast(a, keys) && IsLeast(b, keys) ==> a == b
  {
    forall a, b | IsLeast(a, keys) && IsLeast(b, keys) ensures a == b {
      AtMostTotal(a, b);
    }
    var some :| some in keys;
    var rest := keys - {some};
    AtMostTotal(some, some);
    if rest == {} {
      assert keys == {some};
      assert IsLeast(some, keys);
    } else {
      LeastKeyExists(rest);
      var least :| IsLeast(least, rest);
      AtMostTotal(least, some);
      if AtMost(some, least) {
        forall k | k in rest ensures AtMost(some, k) {
          AtMostTransitive(some, least, k);
        }
        assert IsLeast(some, keys);
      } else {
        assert IsLeast(least, keys);
      }
    }
  }

  /** Python's `sorted` on the keys of a mapping. */
  function SortedKeys(keys: set<string>): (r: seq<string>)
    ensures forall k :: k in r <==> k in keys
    ensures Sorted(AtMost, r)
  {
    if keys == {} then []
    else
      LeastKeyExists(keys);
      var least :| IsLeast(least, keys);
      [least] + SortedKeys(keys - {least})
  }

  // ----- what is visited -----

  predicate IsContainer(v: Json) { v.Obj? || v.Arr? }

  predicate IsProvider(v: Json) { v.Obj? && "resCode" in v.fields }

  function Containers(items: seq<Json>): seq<Json>
  {
    if items == [] then [] else (if IsContainer(items[0]) then [items[0]] else []) + Containers(items[1..])
  }

  /** The values of a mapping in ascending key order. */
  function Values(m: Fields): seq<Json>
  {
    var keys := SortedKeys(m.Keys);
    seq(|keys|, i requires 0 <= i < |keys| => assert keys[i] in keys; m[keys[i]])
  }

  function Providers(items: seq<Json>): seq<Json>
  {
    if items == [] then [] else (if IsProvider(items[0]) then [items[0]] else []) + Providers(items[1..])
  }

  /** The containers a node leads to, in ascending key order or list order. */
  function Children(v: Json, depth: nat): seq<Json>
  {
    match v
    case Obj(m) =>
      if "resCode" !in m then Containers(Values(m))
      else if depth > 0 then []
      else Containers(Providers(Values(m)))
    case Arr(items) => Containers(items)
    case _ => []
  }

  function Own(v: Json): seq<Fields> { if v.Obj? then [v.fields] else [] }

  /** All mappings reachable within the depth limit, parents first. */
  function Preorder(v: Json, depth: nat): seq<Fields>
    decreases MAX_DEPTH - depth, 0, v
  {
    Own(v) + if depth >= MAX_DEPTH then [] else PreorderAll(Children(v, depth), depth + 1)
  }

  function PreorderAll(items: seq<Json>, depth: nat): seq<Fields>
    requires depth <= MAX_DEPTH
    decreases MAX_DEPTH - depth, 1, |items|
  {
    if items == [] then [] else Preorder(items[0], depth) + PreorderAll(items[1..], depth)
  }

  /** A container at the depth limit still has container children. */
  predicate TooDeep(v: Json, depth: nat)
    decreases MAX_DEPTH - depth, 0, v
  {
    if depth >= MAX_DEPTH then Children(v, depth) != []
    else exists i :: 0 <= i < |Children(v, depth)| && TooDeep(Children(v, depth)[i], depth + 1)
  }

  // ----- the loop -----

  datatype Item = Item(value: Json, depth: nat)

  /** What the stack still stands for, its top first. */
  ghost function Remaining(pending: seq<Item>): seq<Fields>
  {
    if pending == [] then []
    else
      var top := pending[|pending| - 1];
      Preorder(top.value, top.depth) + Remaining(pending[..|pending| - 1])
  }

  ghost predicate DeepLeft(pending: seq<Item>)
  {
    exists i :: 0 <= i < |pending| && TooDeep(pending[i].value, pending[i].depth)
  }

  function Stacked(children: seq<Json>, depth: nat): seq<Item>
  {
    if children == [] then [] else Stacked(children[1..], depth) + [Item(children[0], depth)]
  }

  lemma {:induction false} RemainingStacked(pending: seq<Item>, children: seq<Json>, depth: nat)
    requires depth <= MAX_DEPTH
    ensures Remaining(pending + Stacked(children, depth)) == PreorderAll(children, depth) + Remaining(pending)
    decreases |children|
  {
    if children == [] {
      assert pending + [] == pending;
    } else {
      var rest := Stacked(children[1..], depth);
      var all := pending + Stacked(children, depth);
      assert all == (pending + rest) + [Item(children[0], depth)];
      assert all[..|all| - 1] == pending + rest;
      RemainingStacked(pending, children[1..], depth);
    }
  }

  lemma {:induction false} StackedItems(children: seq<Json>, depth: nat)
    ensures forall x :: x in Stacked(children, depth) <==> x.depth == depth && x.value in children
  {
    if children != [] {
      StackedItems(children[1..], depth);
      assert children == [children[0]] + children[1..];
    }
  }

  lemma DeepConcat(a: seq<Item>, b: seq<Item>)
    ensures DeepLeft(a + b) <==> DeepLeft(a) || DeepLeft(b)
  {
    var all := a + b;
    if DeepLeft(all) {
      var i :| 0 <= i < |all| && TooDeep(all[i].value, all[i].depth);
      assert all[i] == if i < |a| then a[i] else b[i - |a|];
    }
    if DeepLeft(a) {
      var i :| 0 <= i < |a| && TooDeep(a[i].value, a[i].depth);
      assert all[i] == a[i];
    }
    if DeepLeft(b) {
      var i :| 0 <= i < |b| && TooDeep(b[i].value, b[i].depth);
      assert all[|a| + i] == b[i];
    }
  }

  lemma DeepChildren(v: Json, depth: nat)
    requires depth < MAX_DEPTH
    ensures DeepLeft(Stacked(Children(v, depth), depth + 1)) <==> TooDeep(v, depth)
  {
    var children := Children(v, depth);
    var pushed := Stacked(children, depth + 1);
    StackedItems(children, depth + 1);
    if DeepLeft(pushed) {
      var i :| 0 <= i < |pushed| && TooDeep(pushed[i].value, pushed[i].depth);
      assert pushed[i] in pushed;
      var j :| 0 <= j < |children| && children[j] == pushed[i].value;
      assert TooDeep(children[j], depth + 1);
    }
    if TooDeep(v, depth) {
      var j :| 0 <= j < |children| && TooDeep(children[j], depth + 1);
      assert children[j] in children && Item(children[j], depth + 1) in pushed;
      var i :| 0 <= i < |pushed| && pushed[i] == Item(children[j], depth + 1);
      assert TooDeep(pushed[i].value, pushed[i].depth);
    }
  }

  /** How many loop rounds a stack item is worth. */
  ghost function Work(v: Json, depth: nat): nat
    decreases MAX_DEPTH - depth, 0, v
  {
    1 + if depth >= MAX_DEPTH then 0 else WorkAll(Children(v, depth), depth + 1)
  }

  ghost function WorkAll(items: seq<Json>, depth: nat): nat
    requires depth <= MAX_DEPTH
    decreases MAX_DEPTH - depth, 1, |items|
  {
    if items == [] then 0 else Work(items[0], depth) + WorkAll(items[1..], depth)
  }

  ghost function WorkLeft(pending: seq<Item>): nat
  {
    if pending == [] then 0
    else Work(pending[|pending| - 1].value, pending[|pending| - 1].depth) + WorkLeft(pending[..|pending| - 1])
  }

  lemma {:induction false} WorkStacked(pending: seq<Item>, children: seq<Json>, depth: nat)
    requires depth <= MAX_DEPTH
    ensures WorkLeft(pending + Stacked(children, depth)) == WorkAll(children, depth) + WorkLeft(pending)
    decreases |children|
  {
    if children == [] {
      assert pending + [] == pending;
    } else {
      var rest := Stacked(children[1..], depth);
      var all := pending + Stacked(children, depth);
      assert all == (pending + rest) + [Item(children[0], depth)];
      assert all[..|all| - 1] == pending + rest;
      WorkStacked(pending, children[1..], depth);
    }
  }

  /** Taking the top off the stack. */
  lemma Popped(pending: seq<Item>, top: Item)
    ensures Remaining(pending + [top]) == Preorder(top.value, top.depth) + Remaining(pending)
    ensures WorkLeft(pending + [top]) == Work(top.value, top.depth) + WorkLeft(pending)
    ensures DeepLeft(pending + [top]) <==> TooDeep(top.value, top.depth) || DeepLeft(pending)
  {
    var all := pending + [top];
    assert all[..|all| - 1] == pending;
    if DeepLeft(pending) {
      var i :| 0 <= i < |pending| && TooDeep(pending[i].value, pending[i].depth);
      assert all[i] == pending[i];
    }
    assert all[|pending|] == top;
  }

  lemma Unfolded(v: Json, depth: nat, children: seq<Json>)
    requires depth < MAX_DEPTH && children == Children(v, depth)
    ensures Preorder(v, depth) == Own(v) + PreorderAll(children, depth + 1)
    ensures Work(v, depth) == 1 + WorkAll(children, depth + 1)
  {
  }

  /** Putting the children of a node on the stack. */
  lemma Pushed(pending: seq<Item>, v: Json, depth: nat, children: seq<Json>, next: seq<Item>)
    requires depth < MAX_DEPTH && children == Children(v, depth) && next == pending + Stacked(children, depth + 1)
    ensures Own(v) + Remaining(next) == Preorder(v, depth) + Remaining(pending)
    ensures WorkLeft(next) < Work(v, depth) + WorkLeft(pending)
    ensures DeepLeft(next) <==> TooDeep(v, depth) || DeepLeft(pending)
  {
    DeepConcat(pending, Stacked(children, depth + 1));
    DeepChildren(v, depth);
    Unfolded(v, depth, children);
    PushedPreorder(pending, Own(v), Preorder(v, depth), depth, children, next);
    PushedWork(pending, v, depth, children, next);
  }

  lemma PushedPreorder(pending: seq<Item>, own: seq<Fields>, whole: seq<Fields>, depth: nat, children: seq<Json>,
                       next: seq<Item>)
    requires depth < MAX_DEPTH && next == pending + Stacked(children, depth + 1)
    requires whole == own + PreorderAll(children, depth + 1)
    ensures own + Remaining(next) == whole + Remaining(pending)
  {
    RemainingStacked(pending, children, depth + 1);
    Associative(own, PreorderAll(children, depth + 1), Remaining(pending));
  }

  lemma PushedWork(pending: seq<Item>, v: Json, depth: nat, children: seq<Json>, next: seq<Item>)
    requires depth < MAX_DEPTH && children == Children(v, depth) && next == pending + Stacked(children, depth + 1)
    ensures WorkLeft(next) < Work(v, depth) + WorkLeft(pending)
  {
    Unfolded(v, depth, children);
    WorkStacked(pending, children, depth + 1);
  }

  lemma Associative(a: seq<Fields>, b: seq<Fields>, c: seq<Fields>)
    ensures a + (b + c) == (a + b) + c
  {
  }

  lemma AtLimit(v: Json, depth: nat)
    requires depth >= MAX_DEPTH
    ensures Preorder(v, depth) == Own(v) && (TooDeep(v, depth) <==> Children(v, depth) != []) && Work(v, depth) == 1
  {
  }

  lemma OwnFirst(v: Json, depth: nat)
    ensures Own(v) <= Preorder(v, depth)
  {
  }

  /** Visiting the top of the stack above the depth limit. */
  lemma Visited(nodes: seq<Fields>, pending: seq<Item>, top: Item, next: seq<Item>)
    requires top.depth < MAX_DEPTH && next == pending + Stacked(Children(top.value, top.depth), top.depth + 1)
    ensures nodes + Own(top.value) + Remaining(next) == nodes + Remaining(pending + [top])
    ensures WorkLeft(next) < WorkLeft(pending + [top])
    ensures DeepLeft(next) <==> DeepLeft(pending + [top])
  {
    Popped(pending, top);
    Pushed(pending, top.value, top.depth, Children(top.value, top.depth), next);
    Associative(nodes, Own(top.value), Remaining(next));
  }

  /** Visiting the top of the stack at the depth limit. */
  lemma VisitedAtLimit(nodes: seq<Fields>, pending: seq<Item>, top: Item)
    requires top.depth >= MAX_DEPTH
    ensures nodes + Own(top.value) + Remaining(pending) == nodes + Remaining(pending + [top])
    ensures WorkLeft(pending) < WorkLeft(pending + [top])
    ensures DeepLeft(pending + [top]) <==> DeepLeft(pending) || Children(top.value, top.depth) != []
  {
    Popped(pending, top);
    AtLimit(top.value, top.depth);
    Associative(nodes, Own(top.value), Remaining(pending));
  }

  lemma Room(nodes: seq<Fields>, pending: seq<Item>, top: Item)
    ensures top.value.Obj? && |nodes| >= MAX_NODES ==> |nodes + Remaining(pending + [top])| > MAX_NODES
  {
    Popped(pending, top);
    OwnFirst(top.value, top.depth);
  }

  lemma Alone(top: Item)
    ensures Remaining([top]) == Preorder(top.value, top.depth)
    ensures DeepLeft([top]) <==> TooDeep(top.value, top.depth)
  {
    Popped([], top);
    assert [] + [top] == [top];
    assert Preorder(top.value, top.depth) + [] == Preorder(top.value, top.depth);
  }

  /** The loop's state: what was visited, and what the stack still stands for, make
      up the whole traversal. */
  ghost predicate Midway(all: seq<Fields>, deep: bool, nodes: seq<Fields>, pending: seq<Item>)
  {
    |nodes| <= MAX_NODES && nodes + Remaining(pending) == all && (DeepLeft(pending) <==> deep)
  }

  lemma Begun(top: Item)
    ensures Midway(Preorder(top.value, top.depth), TooDeep(top.value, top.depth), [], [top])
  {
    Alone(top);
    assert [] + Remaining([top]) == Remaining([top]);
  }

  lemma Ended(all: seq<Fields>, deep: bool, nodes: seq<Fields>)
    requires Midway(all, deep, nodes, [])
    ensures nodes == all && |nodes| <= MAX_NODES && !deep
  {
    assert nodes + [] == nodes;
  }

  /** One round: the top of the stack is visited, or the traversal is cut short. */
  method Visit(ghost all: seq<Fields>, ghost deep: bool, nodes: seq<Fields>, rest: seq<Item>, top: Item)
    returns (cut: bool, visited: seq<Fields>, pending: seq<Item>)
    requires Midway(all, deep, nodes, rest + [top])
    ensures !cut ==> Midway(all, deep, visited, pending) && WorkLeft(pending) < WorkLeft(rest + [top])
    ensures cut ==> |all| > MAX_NODES || deep
    ensures visited <= all && |visited| <= MAX_NODES
  {
    cut, visited, pending := false, nodes, rest;
    Room(nodes, rest, top);
    if top.value.Obj? && |nodes| >= MAX_NODES {
      cut := true;
      return;
    }
    visited := nodes + Own(top.value);
    var children := Children(top.value, top.depth);
    if top.depth >= MAX_DEPTH {
      VisitedAtLimit(nodes, rest, top);
      cut := children != [];
    } else {
      pending := rest + Stacked(children, top.depth + 1);
      Visited(nodes, rest, top, pending);
    }
  }

  method Traverse(top: Item, ghost all: seq<Fields>, ghost deep: bool) returns (nodes: seq<Fields>, truncated: bool)
    requires Midway(all, deep, [], [top])
    ensures truncated <==> |all| > MAX_NODES || deep
    ensures !truncated ==> nodes == all
    ensures nodes <= all && |nodes| <= MAX_NODES
  {
    nodes := [];
    var pending := [top];
    while pending != []
      invariant Midway(all, deep, nodes, pending)
      decreases WorkLeft(pending)
    {
      var last, rest := pending[|pending| - 1], pending[..|pending| - 1];
      assert pending == rest + [last];
      truncated, nodes, pending := Visit(all, deep, nodes, rest, last);
      if truncated {
        return;
      }
    }
    Ended(all, deep, nodes);
    truncated := false;
  }

  /** The stack-based traversal is the recursive preorder: untruncated output is
      exactly it, truncated output is a prefix of it, and truncation happens exactly
      when there are too many mappings or containers below the depth limit. */
  method PeakResponseNodes(payload: Json) returns (nodes: seq<Fields>, truncated: bool)
    ensures truncated <==> |Preorder(payload, ROOT)| > MAX_NODES || TooDeep(payload, ROOT)
    ensures !truncated ==> nodes == Preorder(payload, ROOT)
    ensures nodes <= Preorder(payload, ROOT) && |nodes| <= MAX_NODES
  {
    var top := Item(payload, ROOT);
    Begun(top);
    nodes, truncated := Traverse(top, Preorder(payload, ROOT), TooDeep(payload, ROOT));
  }
}
