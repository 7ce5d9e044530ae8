/** How deep the analysis of a schema goes: never deeper than the document nests, when
    the document has no `$ref`. */
module SchemaNesting {
  import opened Common
  import opened Json
  import opened SchemaSemantics
  import opened SchemaExpansion
  import opened SchemaReview

  /** No `$ref` anywhere, and at most `d` levels of nesting. */
  predicate Shallow(j: Json, d: nat)
    decreases j
  {
    d > 0 &&
    match j
    case Obj(m) => "$ref" !in m && forall k :: k in m ==> Shallow(m[k], d - 1)
    case Arr(items) => forall i :: 0 <= i < |items| ==> Shallow(items[i], d - 1)
    case _ => true
  }

  predicate AllShallow(xs: seq<Json>, d: nat) { forall i :: 0 <= i < |xs| ==> Shallow(xs[i], d) }

  predicate NodesShallow(nodes: seq<Node>, d: nat)
  {
    d > 0 && forall i :: 0 <= i < |nodes| ==> Shallow(nodes[i].schema, d)
  }

  predicate BranchShallow(b: Branch, d: nat)
  {
    forall i :: 0 <= i < |b| ==> Shallow(Obj(b[i].schema), d)
  }

  predicate BranchesShallow(bs: seq<Branch>, d: nat)
  {
    forall i :: 0 <= i < |bs| ==> BranchShallow(bs[i], d)
  }

  lemma {:induction false} ShallowMore(j: Json, d: nat, more: nat)
    requires d <= more && Shallow(j, d)
    ensures Shallow(j, more)
    decreases j
  {
    match j
    case Obj(m) =>
      forall k | k in m ensures Shallow(m[k], more - 1) {
        ShallowMore(m[k], d - 1, more - 1);
      }
    case Arr(items) =>
      forall i | 0 <= i < |items| ensures Shallow(items[i], more - 1) {
        ShallowMore(items[i], d - 1, more - 1);
      }
    case _ =>
  }

  lemma VariantsShallow(m: Fields, keyword: string, d: nat)
    requires Shallow(Obj(m), d)
    ensures AllShallow(Variants(m, keyword), d)
  {
    var xs := Variants(m, keyword);
    forall i | 0 <= i < |xs| ensures Shallow(xs[i], d) {
      assert Shallow(m[keyword], d - 1);
      ShallowMore(xs[i], d - 2, d);
    }
  }

  lemma {:induction false} ProductShallow(left: seq<Branch>, right: seq<Branch>, d: nat)
    requires BranchesShallow(left, d) && BranchesShallow(right, d)
    ensures BranchesShallow(Product(left, right), d)
    decreases |left|
  {
    if left != [] {
      ProductShallow(left[1..], right, d);
    }
  }

  lemma {:induction false} ExpandShallow(root: Fields, node: Node, refStack: seq<string>, depth: nat, d: nat)
    requires Expand(root, node, refStack, depth).Some? && Shallow(node.schema, d)
    ensures BranchesShallow(Expand(root, node, refStack, depth).value, d)
    decreases MAX_SCHEMA_DEPTH + 1 - depth
  {
    var m := node.schema.fields;
    var direct := [[Fragment(Direct(m), node.path)]];
    assert Shallow(Obj(Direct(m)), d);
    VariantsShallow(m, "allOf", d);
    AllVariantsShallow(root, Variants(m, "allOf"), 0, node.path, refStack, depth, direct, d);
    var conjoined := ExpandAll(root, Variants(m, "allOf"), 0, node.path, refStack, depth, direct);
    KeywordShallow(root, m, "anyOf", node.path, refStack, depth, conjoined.value, d);
    var any := ExpandKeyword(root, m, "anyOf", node.path, refStack, depth, conjoined);
    KeywordShallow(root, m, "oneOf", node.path, refStack, depth, any.value, d);
  }

  lemma {:induction false} AllVariantsShallow(root: Fields, variants: seq<Json>, i: nat, path: Path,
                                              refStack: seq<string>, depth: nat, branches: seq<Branch>, d: nat)
    requires i <= |variants| && depth <= MAX_SCHEMA_DEPTH && AllShallow(variants, d)
    requires BranchesShallow(branches, d)
    requires ExpandAll(root, variants, i, path, refStack, depth, branches).Some?
    ensures BranchesShallow(ExpandAll(root, variants, i, path, refStack, depth, branches).value, d)
    decreases MAX_SCHEMA_DEPTH + 1 - depth, |variants| - i
  {
    if i < |variants| {
      var node := Node(variants[i], VariantPath(path, "allOf", i));
      ExpandShallow(root, node, refStack, depth + 1, d);
      var right := Expand(root, node, refStack, depth + 1).value;
      ProductShallow(branches, right, d);
      AllVariantsShallow(root, variants, i + 1, path, refStack, depth, Product(branches, right), d);
    }
  }

  lemma {:induction false} KeywordShallow(root: Fields, m: Fields, keyword: string, path: Path,
                                          refStack: seq<string>, depth: nat, branches: seq<Branch>, d: nat)
    requires depth <= MAX_SCHEMA_DEPTH && Shallow(Obj(m), d) && BranchesShallow(branches, d)
    requires ExpandKeyword(root, m, keyword, path, refStack, depth, Some(branches)).Some?
    ensures BranchesShallow(ExpandKeyword(root, m, keyword, path, refStack, depth, Some(branches)).value, d)
    decreases MAX_SCHEMA_DEPTH + 1 - depth, |Variants(m, keyword)| + 1
  {
    if Has(m, keyword) {
      VariantsShallow(m, keyword, d);
      AnyShallow(root, Variants(m, keyword), 0, keyword, path, refStack, depth, d);
      ProductShallow(branches, ExpandAny(root, Variants(m, keyword), 0, keyword, path, refStack, depth).value, d);
    }
  }

  lemma {:induction false} AnyShallow(root: Fields, variants: seq<Json>, i: nat, keyword: string, path: Path,
                                      refStack: seq<string>, depth: nat, d: nat)
    requires i <= |variants| && depth <= MAX_SCHEMA_DEPTH && AllShallow(variants, d)
    requires ExpandAny(root, variants, i, keyword, path, refStack, depth).Some?
    ensures BranchesShallow(ExpandAny(root, variants, i, keyword, path, refStack, depth).value, d)
    decreases MAX_SCHEMA_DEPTH + 1 - depth, |variants| - i
  {
    if i < |variants| {
      ExpandShallow(root, Node(variants[i], VariantPath(path, keyword, i)), refStack, depth + 1, d);
      AnyShallow(root, variants, i + 1, keyword, path, refStack, depth, d);
    }
  }

  /** The branches of a position nest no deeper than its schemas. */
  lemma {:induction false} NodesExpandShallow(root: Fields, nodes: seq<Node>, i: nat, branches: seq<Branch>, d: nat)
    requires i <= |nodes| && NodesShallow(nodes, d) && BranchesShallow(branches, d)
    requires ExpandNodes(root, nodes, i, branches).Some?
    ensures BranchesShallow(ExpandNodes(root, nodes, i, branches).value, d)
    decreases |nodes| - i
  {
    if i < |nodes| {
      ExpandShallow(root, nodes[i], [], 0, d);
      var right := Expand(root, nodes[i], [], 0).value;
      ProductShallow(branches, right, d);
      NodesExpandShallow(root, nodes, i + 1, Product(branches, right), d);
    }
  }

  /** The schemas of a property nest less deep than the branch that gives them. */
  lemma {:induction false} PropertiesShallow(b: Branch, name: string, d: nat)
    requires BranchShallow(b, d + 1) && name in PropertyNames(b)
    ensures NodesShallow(PropertyNodes(b, name), d)
  {
    if b != [] {
      var rest, schema := b[..|b| - 1], b[|b| - 1].schema;
      NodesOfName(rest, name);
      if name in PropertyNames(rest) {
        PropertiesShallow(rest, name, d);
      }
      if name in Properties(schema) {
        assert Shallow(Obj(schema), d + 1) && Shallow(schema["properties"], d);
        ShallowMore(Properties(schema)[name], d - 1, d);
      }
    }
  }

  lemma {:induction false} ItemsShallow(b: Branch, d: nat)
    requires BranchShallow(b, d + 1)
    ensures forall i :: 0 <= i < |ItemNodes(b)| ==> Shallow(ItemNodes(b)[i].schema, d)
  {
    if b != [] {
      ItemsShallow(b[..|b| - 1], d);
      assert Shallow(Obj(b[|b| - 1].schema), d + 1);
    }
  }
}
