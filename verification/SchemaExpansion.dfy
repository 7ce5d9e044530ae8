/** Expansion of a schema into a list of conjunctive branches, as a value: the
    branches when nothing is refused, `None` as soon as any part is refused.
    The reviewer's methods are proved against these functions, and the functions
    against the meaning of schemas. */
module SchemaExpansion {
  import opened Common
  import opened Json
  import opened JsonPointer
  import opened SchemaSemantics

  const MAX_REF_DEPTH := 32
  const MAX_SCHEMA_DEPTH := 64
  const MAX_EXPANDED_BRANCHES := 256

  type Path = seq<string>
  datatype Node = Node(schema: Json, path: Path)
  datatype Fragment = Fragment(schema: Fields, path: Path)
  type Branch = seq<Fragment>

  function VariantPath(path: Path, keyword: string, i: nat): Path
  {
    path + [keyword, "[" + Digits(i) + "]"]
  }

  /** Every branch of `right` appended to one branch. */
  function Extend(left: Branch, right: seq<Branch>): (r: seq<Branch>)
    ensures |r| == |right|
    ensures forall j :: 0 <= j < |r| ==> r[j] == left + right[j]
  {
    seq(|right|, j requires 0 <= j < |right| => left + right[j])
  }

  function Product(left: seq<Branch>, right: seq<Branch>): seq<Branch>
  {
    if left == [] then [] else Extend(left[0], right) + Product(left[1..], right)
  }

  function Cross(left: seq<Branch>, right: seq<Branch>): Option<seq<Branch>>
  {
    if |left| * |right| > MAX_EXPANDED_BRANCHES then None else Some(Product(left, right))
  }

  function CrossOption(left: Option<seq<Branch>>, right: Option<seq<Branch>>): Option<seq<Branch>>
  {
    if left.None? || right.None? then None else Cross(left.value, right.value)
  }

  /** A keyword whose list must be a non-empty array. */
  predicate BadList(m: Fields, keyword: string)
  {
    Has(m, keyword) && (!m[keyword].Arr? || m[keyword].items == [])
  }

  function Expand(root: Fields, node: Node, refStack: seq<string>, depth: nat): Option<seq<Branch>>
    decreases root, MAX_SCHEMA_DEPTH + 1 - depth
  {
    if depth > MAX_SCHEMA_DEPTH || !node.schema.Obj? then None
    else
      var m := node.schema.fields;
      var direct := [[Fragment(Direct(m), node.path)]];
      var referred := if "$ref" in m then ExpandRef(root, m["$ref"], node.path, refStack, depth, direct)
                      else Some(direct);
      if referred.None? || BadList(m, "allOf") then None
      else
        var conjoined := ExpandAll(root, Variants(m, "allOf"), 0, node.path, refStack, depth, referred.value);
        var any := ExpandKeyword(root, m, "anyOf", node.path, refStack, depth, conjoined);
        ExpandKeyword(root, m, "oneOf", node.path, refStack, depth, any)
  }

  function ExpandRef(root: Fields, reference: Json, path: Path, refStack: seq<string>, depth: nat,
                     branches: seq<Branch>): Option<seq<Branch>>
    requires depth <= MAX_SCHEMA_DEPTH
    decreases root, MAX_SCHEMA_DEPTH + 1 - depth, 0
  {
    if !reference.Str? || reference.s in refStack || |refStack| >= MAX_REF_DEPTH then None
    else
      var target := Resolve(root, reference.s);
      if target.None? then None
      else CrossOption(Some(branches),
                       Expand(root, Node(Obj(target.value), path), refStack + [reference.s], depth + 1))
  }

  /** Crosses the branches so far with the expansions of `variants[i..]`. */
  function ExpandAll(root: Fields, variants: seq<Json>, i: nat, path: Path, refStack: seq<string>,
                     depth: nat, branches: seq<Branch>): Option<seq<Branch>>
    requires i <= |variants| && depth <= MAX_SCHEMA_DEPTH
    decreases root, MAX_SCHEMA_DEPTH + 1 - depth, |variants| - i
  {
    if i == |variants| then Some(branches)
    else
      var next := CrossOption(Some(branches),
        Expand(root, Node(variants[i], VariantPath(path, "allOf", i)), refStack, depth + 1));
      if next.None? then None else ExpandAll(root, variants, i + 1, path, refStack, depth, next.value)
  }

  function ExpandKeyword(root: Fields, m: Fields, keyword: string, path: Path, refStack: seq<string>,
                         depth: nat, branches: Option<seq<Branch>>): Option<seq<Branch>>
    requires depth <= MAX_SCHEMA_DEPTH
    decreases root, MAX_SCHEMA_DEPTH + 1 - depth, |Variants(m, keyword)| + 1
  {
    if !Has(m, keyword) then branches
    else if BadList(m, keyword) then None
    else CrossOption(branches, ExpandAny(root, Variants(m, keyword), 0, keyword, path, refStack, depth))
  }

  /** The expansions of `variants[i..]`, one after the other. */
  function ExpandAny(root: Fields, variants: seq<Json>, i: nat, keyword: string, path: Path,
                     refStack: seq<string>, depth: nat): Option<seq<Branch>>
    requires i <= |variants| && depth <= MAX_SCHEMA_DEPTH
    decreases root, MAX_SCHEMA_DEPTH + 1 - depth, |variants| - i
  {
    if i == |variants| then Some([])
    else
      var first := Expand(root, Node(variants[i], VariantPath(path, keyword, i)), refStack, depth + 1);
      var rest := ExpandAny(root, variants, i + 1, keyword, path, refStack, depth);
      if first.None? || rest.None? then None else Some(first.value + rest.value)
  }

  /** All nodes of one field or item position, crossed. */
  function ExpandNodes(root: Fields, nodes: seq<Node>, i: nat, branches: seq<Branch>): Option<seq<Branch>>
    requires i <= |nodes|
    decreases |nodes| - i
  {
    if i == |nodes| then Some(branches)
    else
      var next := CrossOption(Some(branches), Expand(root, nodes[i], [], 0));
      if next.None? then None else ExpandNodes(root, nodes, i + 1, next.value)
  }

  // ----- branches as a disjunctive form -----

  ghost predicate BranchAccepts(doc: Document, n: nat, b: Branch, v: Json)
  {
    forall i :: 0 <= i < |b| ==> FragmentAccepts(doc, n, b[i].schema, v)
  }

  /** Some branch of the list accepts the value. */
  ghost predicate Covers(doc: Document, n: nat, bs: seq<Branch>, v: Json)
  {
    exists i :: 0 <= i < |bs| && BranchAccepts(doc, n, bs[i], v)
  }

  lemma ConcatAccepts(doc: Document, n: nat, a: Branch, b: Branch, v: Json)
    ensures BranchAccepts(doc, n, a + b, v) <==> BranchAccepts(doc, n, a, v) && BranchAccepts(doc, n, b, v)
  {
    if BranchAccepts(doc, n, a + b, v) {
      forall i | 0 <= i < |a| ensures FragmentAccepts(doc, n, a[i].schema, v) {
        assert a[i] == (a + b)[i];
      }
      forall i | 0 <= i < |b| ensures FragmentAccepts(doc, n, b[i].schema, v) {
        assert b[i] == (a + b)[|a| + i];
      }
    }
  }

  lemma CoversConcat(doc: Document, n: nat, a: seq<Branch>, b: seq<Branch>, v: Json)
    ensures Covers(doc, n, a + b, v) <==> Covers(doc, n, a, v) || Covers(doc, n, b, v)
  {
    if Covers(doc, n, a, v) {
      var i :| 0 <= i < |a| && BranchAccepts(doc, n, a[i], v);
      assert (a + b)[i] == a[i];
    }
    if Covers(doc, n, b, v) {
      var i :| 0 <= i < |b| && BranchAccepts(doc, n, b[i], v);
      assert (a + b)[|a| + i] == b[i];
    }
  }

  lemma CoversExtend(doc: Document, n: nat, left: Branch, right: seq<Branch>, v: Json)
    ensures Covers(doc, n, Extend(left, right), v) <==>
            BranchAccepts(doc, n, left, v) && Covers(doc, n, right, v)
  {
    var e := Extend(left, right);
    forall j | 0 <= j < |right|
      ensures BranchAccepts(doc, n, e[j], v) <==>
              BranchAccepts(doc, n, left, v) && BranchAccepts(doc, n, right[j], v)
    {
      ConcatAccepts(doc, n, left, right[j], v);
    }
    if BranchAccepts(doc, n, left, v) && Covers(doc, n, right, v) {
      var j :| 0 <= j < |right| && BranchAccepts(doc, n, right[j], v);
      assert BranchAccepts(doc, n, e[j], v);
    }
  }

  /** Crossing two lists of branches is conjunction. */
  lemma {:induction false} CoversProduct(doc: Document, n: nat, left: seq<Branch>, right: seq<Branch>, v: Json)
    ensures Covers(doc, n, Product(left, right), v) <==>
            Covers(doc, n, left, v) && Covers(doc, n, right, v)
    decreases |left|
  {
    if left != [] {
      assert left == [left[0]] + left[1..];
      CoversConcat(doc, n, [left[0]], left[1..], v);
      assert Covers(doc, n, [left[0]], v) <==> BranchAccepts(doc, n, left[0], v) by {
        assert [left[0]][0] == left[0];
      }
      CoversConcat(doc, n, Extend(left[0], right), Product(left[1..], right), v);
      CoversExtend(doc, n, left[0], right, v);
      CoversProduct(doc, n, left[1..], right, v);
    }
  }

  lemma OneRowMore(rows: nat, columns: nat)
    ensures (rows + 1) * columns == columns + rows * columns
  {
  }

  lemma {:induction false} ProductSize(left: seq<Branch>, right: seq<Branch>)
    ensures |Product(left, right)| == |left| * |right|
    decreases |left|
  {
    if left != [] {
      ProductSize(left[1..], right);
      OneRowMore(|left[1..]|, |right|);
      assert |left| == |left[1..]| + 1;
    }
  }

  lemma BranchStable(doc: Document, n: nat, k: nat, b: Branch, v: Json)
    requires n <= k && BranchAccepts(doc, n, b, v)
    ensures BranchAccepts(doc, k, b, v)
  {
    forall i | 0 <= i < |b| ensures FragmentAccepts(doc, k, b[i].schema, v) {
      FragmentStable(doc, n, k, b[i].schema, v);
    }
  }

  lemma CoversStable(doc: Document, n: nat, k: nat, bs: seq<Branch>, v: Json)
    requires n <= k && Covers(doc, n, bs, v)
    ensures Covers(doc, k, bs, v)
  {
    var i :| 0 <= i < |bs| && BranchAccepts(doc, n, bs[i], v);
    BranchStable(doc, n, k, bs[i], v);
  }

  // ----- expansion loses no value -----

  /** Any value that satisfies a schema satisfies every fragment of some branch. */
  lemma {:induction false} ExpansionComplete(doc: Document, n: nat, node: Node, refStack: seq<string>,
                                             depth: nat, v: Json)
    requires Expand(doc.root, node, refStack, depth).Some?
    requires Accepts(doc, n, node.schema, v)
    ensures Covers(doc, n, Expand(doc.root, node, refStack, depth).value, v)
    decreases MAX_SCHEMA_DEPTH + 1 - depth
  {
    var m := node.schema.fields;
    var direct := [[Fragment(Direct(m), node.path)]];
    var referred := if "$ref" in m then ExpandRef(doc.root, m["$ref"], node.path, refStack, depth, direct)
                    else Some(direct);
    FragmentStable(doc, n - 1, n, Direct(m), v);
    assert BranchAccepts(doc, n, direct[0], v);
    assert Covers(doc, n, direct, v);
    if "$ref" in m {
      RefComplete(doc, n, m["$ref"], node.path, refStack, depth, direct, v);
    }
    assert Covers(doc, n, referred.value, v);
    var variants := Variants(m, "allOf");
    AllComplete(doc, n, variants, 0, node.path, refStack, depth, referred.value, v);
    var conjoined := ExpandAll(doc.root, variants, 0, node.path, refStack, depth, referred.value);
    KeywordComplete(doc, n, m, "anyOf", node.path, refStack, depth, conjoined.value, v);
    var any := ExpandKeyword(doc.root, m, "anyOf", node.path, refStack, depth, conjoined);
    KeywordComplete(doc, n, m, "oneOf", node.path, refStack, depth, any.value, v);
  }

  lemma {:induction false} RefComplete(doc: Document, n: nat, reference: Json, path: Path,
                                       refStack: seq<string>, depth: nat, branches: seq<Branch>, v: Json)
    requires depth <= MAX_SCHEMA_DEPTH && n > 0
    requires ExpandRef(doc.root, reference, path, refStack, depth, branches).Some?
    requires RefAccepts(doc, n - 1, reference, v) && Covers(doc, n, branches, v)
    ensures Covers(doc, n, ExpandRef(doc.root, reference, path, refStack, depth, branches).value, v)
    decreases MAX_SCHEMA_DEPTH + 1 - depth, 0
  {
    var target := Node(Obj(Resolve(doc.root, reference.s).value), path);
    ExpansionComplete(doc, n - 1, target, refStack + [reference.s], depth + 1, v);
    var right := Expand(doc.root, target, refStack + [reference.s], depth + 1).value;
    CoversStable(doc, n - 1, n, right, v);
    CoversProduct(doc, n, branches, right, v);
  }

  lemma {:induction false} AllComplete(doc: Document, n: nat, variants: seq<Json>, i: nat, path: Path,
                                       refStack: seq<string>, depth: nat, branches: seq<Branch>, v: Json)
    requires i <= |variants| && depth <= MAX_SCHEMA_DEPTH && n > 0
    requires ExpandAll(doc.root, variants, i, path, refStack, depth, branches).Some?
    requires AllAccept(doc, n - 1, variants, v) && Covers(doc, n, branches, v)
    ensures Covers(doc, n, ExpandAll(doc.root, variants, i, path, refStack, depth, branches).value, v)
    decreases MAX_SCHEMA_DEPTH + 1 - depth, |variants| - i
  {
    if i < |variants| {
      var node := Node(variants[i], VariantPath(path, "allOf", i));
      ExpansionComplete(doc, n - 1, node, refStack, depth + 1, v);
      var right := Expand(doc.root, node, refStack, depth + 1).value;
      CoversStable(doc, n - 1, n, right, v);
      CoversProduct(doc, n, branches, right, v);
      AllComplete(doc, n, variants, i + 1, path, refStack, depth, Product(branches, right), v);
    }
  }

  lemma {:induction false} AnyComplete(doc: Document, n: nat, variants: seq<Json>, i: nat, keyword: string,
                                       path: Path, refStack: seq<string>, depth: nat, k: nat, v: Json)
    requires i <= k < |variants| && depth <= MAX_SCHEMA_DEPTH && n > 0
    requires ExpandAny(doc.root, variants, i, keyword, path, refStack, depth).Some?
    requires Accepts(doc, n - 1, variants[k], v)
    ensures Covers(doc, n, ExpandAny(doc.root, variants, i, keyword, path, refStack, depth).value, v)
    decreases MAX_SCHEMA_DEPTH + 1 - depth, |variants| - i
  {
    var node := Node(variants[i], VariantPath(path, keyword, i));
    var first := Expand(doc.root, node, refStack, depth + 1).value;
    var rest := ExpandAny(doc.root, variants, i + 1, keyword, path, refStack, depth).value;
    if i == k {
      ExpansionComplete(doc, n - 1, node, refStack, depth + 1, v);
      CoversStable(doc, n - 1, n, first, v);
    } else {
      AnyComplete(doc, n, variants, i + 1, keyword, path, refStack, depth, k, v);
    }
    CoversConcat(doc, n, first, rest, v);
  }

  lemma {:induction false} KeywordComplete(doc: Document, n: nat, m: Fields, keyword: string, path: Path,
                                           refStack: seq<string>, depth: nat, branches: seq<Branch>, v: Json)
    requires depth <= MAX_SCHEMA_DEPTH && n > 0
    requires ExpandKeyword(doc.root, m, keyword, path, refStack, depth, Some(branches)).Some?
    requires Has(m, keyword) ==>
               SomeAccepts(doc, n - 1, Variants(m, keyword), v) || ExactlyOne(doc, n - 1, Variants(m, keyword), v)
    requires Covers(doc, n, branches, v)
    ensures Covers(doc, n, ExpandKeyword(doc.root, m, keyword, path, refStack, depth, Some(branches)).value, v)
    decreases MAX_SCHEMA_DEPTH + 1 - depth, |Variants(m, keyword)| + 1
  {
    if Has(m, keyword) {
      var variants := Variants(m, keyword);
      var k :| 0 <= k < |variants| && Accepts(doc, n - 1, variants[k], v);
      AnyComplete(doc, n, variants, 0, keyword, path, refStack, depth, k, v);
      CoversProduct(doc, n, branches, ExpandAny(doc.root, variants, 0, keyword, path, refStack, depth).value, v);
    }
  }

  // ----- capacity: how many branches, and when nothing is refused -----

  /** A number of branches, with 0 for a refusal. */
  function Capped(a: nat, b: nat): nat
  {
    if a * b > MAX_EXPANDED_BRANCHES then 0 else a * b
  }

  /** The number of branches of a schema, by arithmetic alone; 0 when the schema
      is too deep, malformed, badly referenced, or has more branches than allowed. */
  function Count(root: Fields, schema: Json, refStack: seq<string>, depth: nat): nat
    decreases root, MAX_SCHEMA_DEPTH + 1 - depth
  {
    if depth > MAX_SCHEMA_DEPTH || !schema.Obj? then 0
    else
      var m := schema.fields;
      if BadList(m, "allOf") then 0
      else
        var referred := if "$ref" in m then CountRef(root, m["$ref"], refStack, depth) else 1;
        var all := CountAll(root, Variants(m, "allOf"), 0, refStack, depth, referred);
        CountKeyword(root, m, "oneOf", refStack, depth, CountKeyword(root, m, "anyOf", refStack, depth, all))
  }

  function CountKeyword(root: Fields, m: Fields, keyword: string, refStack: seq<string>, depth: nat, n: nat): nat
    requires depth <= MAX_SCHEMA_DEPTH
    decreases root, MAX_SCHEMA_DEPTH + 1 - depth, |Variants(m, keyword)| + 1
  {
    if !Has(m, keyword) then n
    else if BadList(m, keyword) then 0
    else Capped(n, CountAny(root, Variants(m, keyword), 0, refStack, depth))
  }

  function CountRef(root: Fields, reference: Json, refStack: seq<string>, depth: nat): nat
    requires depth <= MAX_SCHEMA_DEPTH
    decreases root, MAX_SCHEMA_DEPTH + 1 - depth, 0
  {
    if !reference.Str? || reference.s in refStack || |refStack| >= MAX_REF_DEPTH ||
       Resolve(root, reference.s).None? then 0
    else Count(root, Obj(Resolve(root, reference.s).value), refStack + [reference.s], depth + 1)
  }

  function CountAll(root: Fields, variants: seq<Json>, i: nat, refStack: seq<string>, depth: nat, n: nat): nat
    requires i <= |variants| && depth <= MAX_SCHEMA_DEPTH
    decreases root, MAX_SCHEMA_DEPTH + 1 - depth, |variants| - i
  {
    if i == |variants| then n
    else CountAll(root, variants, i + 1, refStack, depth, Capped(n, Count(root, variants[i], refStack, depth + 1)))
  }

  /** The sum over `variants[i..]`, or 0 when one of them is refused or none is left. */
  function CountAny(root: Fields, variants: seq<Json>, i: nat, refStack: seq<string>, depth: nat): nat
    requires i <= |variants| && depth <= MAX_SCHEMA_DEPTH
    decreases root, MAX_SCHEMA_DEPTH + 1 - depth, |variants| - i
  {
    if i == |variants| then 0
    else
      var first := Count(root, variants[i], refStack, depth + 1);
      var rest := CountAny(root, variants, i + 1, refStack, depth);
      if first == 0 || (rest == 0 && i + 1 < |variants|) then 0 else first + rest
  }

  /** `None` stands for 0, a list for its length, and no list is empty. */
  predicate Sized(bs: Option<seq<Branch>>, n: nat)
  {
    if n == 0 then bs.None? else bs.Some? && |bs.value| == n
  }

  lemma CrossSized(a: Option<seq<Branch>>, m: nat, b: Option<seq<Branch>>, n: nat)
    requires Sized(a, m) && Sized(b, n)
    ensures Sized(CrossOption(a, b), Capped(m, n))
  {
    if m > 0 && n > 0 {
      ProductSize(a.value, b.value);
      assert m * n > 0;
    }
  }

  /** Expansion refuses exactly the schemas of count 0, never returns an empty
      list, and otherwise returns exactly the counted number of branches. */
  lemma {:induction false} ExpansionCount(root: Fields, node: Node, refStack: seq<string>, depth: nat)
    ensures Sized(Expand(root, node, refStack, depth), Count(root, node.schema, refStack, depth))
    ensures Count(root, node.schema, refStack, depth) <= MAX_EXPANDED_BRANCHES
    decreases MAX_SCHEMA_DEPTH + 1 - depth
  {
    if depth <= MAX_SCHEMA_DEPTH && node.schema.Obj? {
      var m := node.schema.fields;
      var direct := [[Fragment(Direct(m), node.path)]];
      var referred := if "$ref" in m then ExpandRef(root, m["$ref"], node.path, refStack, depth, direct)
                      else Some(direct);
      var refCount := if "$ref" in m then CountRef(root, m["$ref"], refStack, depth) else 1;
      if "$ref" in m {
        RefCount(root, m["$ref"], node.path, refStack, depth, direct);
      }
      AllCount(root, Variants(m, "allOf"), 0, node.path, refStack, depth, referred, refCount);
      var all := if referred.None? then None
                 else ExpandAll(root, Variants(m, "allOf"), 0, node.path, refStack, depth, referred.value);
      var allCount := CountAll(root, Variants(m, "allOf"), 0, refStack, depth, refCount);
      KeywordCount(root, m, "anyOf", node.path, refStack, depth, all, allCount);
      KeywordCount(root, m, "oneOf", node.path, refStack, depth,
                   ExpandKeyword(root, m, "anyOf", node.path, refStack, depth, all),
                   CountKeyword(root, m, "anyOf", refStack, depth, allCount));
    }
  }

  lemma {:induction false} KeywordCount(root: Fields, m: Fields, keyword: string, path: Path, refStack: seq<string>,
                                        depth: nat, branches: Option<seq<Branch>>, n: nat)
    requires depth <= MAX_SCHEMA_DEPTH && Sized(branches, n) && n <= MAX_EXPANDED_BRANCHES
    ensures Sized(ExpandKeyword(root, m, keyword, path, refStack, depth, branches),
                  CountKeyword(root, m, keyword, refStack, depth, n))
    ensures CountKeyword(root, m, keyword, refStack, depth, n) <= MAX_EXPANDED_BRANCHES
    decreases MAX_SCHEMA_DEPTH + 1 - depth, |Variants(m, keyword)| + 1
  {
    if Has(m, keyword) && !BadList(m, keyword) {
      AnyCount(root, Variants(m, keyword), 0, keyword, path, refStack, depth);
      CrossSized(branches, n, ExpandAny(root, Variants(m, keyword), 0, keyword, path, refStack, depth),
                 CountAny(root, Variants(m, keyword), 0, refStack, depth));
    }
  }

  lemma {:induction false} RefCount(root: Fields, reference: Json, path: Path, refStack: seq<string>,
                                    depth: nat, branches: seq<Branch>)
    requires depth <= MAX_SCHEMA_DEPTH && |branches| == 1
    ensures Sized(ExpandRef(root, reference, path, refStack, depth, branches),
                  CountRef(root, reference, refStack, depth))
    ensures CountRef(root, reference, refStack, depth) <= MAX_EXPANDED_BRANCHES
    decreases MAX_SCHEMA_DEPTH + 1 - depth, 0
  {
    if reference.Str? && Resolve(root, reference.s).Some? && reference.s !in refStack && |refStack| < MAX_REF_DEPTH {
      var node := Node(Obj(Resolve(root, reference.s).value), path);
      ExpansionCount(root, node, refStack + [reference.s], depth + 1);
      CrossSized(Some(branches), 1, Expand(root, node, refStack + [reference.s], depth + 1),
                 Count(root, node.schema, refStack + [reference.s], depth + 1));
    }
  }

  lemma {:induction false} AllCount(root: Fields, variants: seq<Json>, i: nat, path: Path, refStack: seq<string>,
                                    depth: nat, branches: Option<seq<Branch>>, n: nat)
    requires i <= |variants| && depth <= MAX_SCHEMA_DEPTH
    requires Sized(branches, n) && n <= MAX_EXPANDED_BRANCHES
    ensures var count := CountAll(root, variants, i, refStack, depth, n);
            && count <= MAX_EXPANDED_BRANCHES
            && if branches.None? then count == 0
               else Sized(ExpandAll(root, variants, i, path, refStack, depth, branches.value), count)
    decreases MAX_SCHEMA_DEPTH + 1 - depth, |variants| - i
  {
    if i < |variants| {
      var node := Node(variants[i], VariantPath(path, "allOf", i));
      ExpansionCount(root, node, refStack, depth + 1);
      var next := CrossOption(branches, Expand(root, node, refStack, depth + 1));
      var count := Capped(n, Count(root, variants[i], refStack, depth + 1));
      CrossSized(branches, n, Expand(root, node, refStack, depth + 1), Count(root, variants[i], refStack, depth + 1));
      AllCount(root, variants, i + 1, path, refStack, depth, next, count);
    }
  }

  lemma {:induction false} AnyCount(root: Fields, variants: seq<Json>, i: nat, keyword: string, path: Path,
                                    refStack: seq<string>, depth: nat)
    requires i < |variants| && depth <= MAX_SCHEMA_DEPTH
    ensures Sized(ExpandAny(root, variants, i, keyword, path, refStack, depth),
                  CountAny(root, variants, i, refStack, depth))
    decreases MAX_SCHEMA_DEPTH + 1 - depth, |variants| - i
  {
    ExpansionCount(root, Node(variants[i], VariantPath(path, keyword, i)), refStack, depth + 1);
    if i + 1 < |variants| {
      AnyCount(root, variants, i + 1, keyword, path, refStack, depth);
    } else {
      assert ExpandAny(root, variants, i + 1, keyword, path, refStack, depth) == Some([]);
    }
  }
}
