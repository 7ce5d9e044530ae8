/** The conclusions the reviewer draws from the branches of a schema: when a
    schema passes, and what every value it accepts is then known to be. */
module SchemaReview {
  import opened Common
  import opened Json
  import opened JsonPointer
  import opened SchemaSemantics
  import opened SchemaExpansion

  const JSON_TYPES := {"array", "boolean", "integer", "null", "number", "object", "string"}
  const SOURCE_FIELDS := {"flow_yaml", "flow_files", "workspace_flow_id"}

  // ----- possible types of a branch -----

  function TypeOf(v: Json): string
  {
    match v
    case Null => "null"
    case Bool(_) => "boolean"
    case Int(_) => "integer"
    case Float(_) => "number"
    case Str(_) => "string"
    case Arr(_) => "array"
    case Obj(_) => "object"
  }

  /** A declared `number` admits integers as well. */
  predicate Declares(declared: Json, name: string)
  {
    declared.Str? && (declared.s == name || (declared.s == "number" && name == "integer"))
  }

  function DeclaredTypes(t: Json): set<string>
  {
    var raw := if t.Str? then [t] else if t.Arr? then t.items else [];
    set name | name in JSON_TYPES && exists i :: 0 <= i < |raw| && Declares(raw[i], name)
  }

  function EnumTypes(items: seq<Json>): set<string>
  {
    set i | 0 <= i < |items| :: TypeOf(items[i])
  }

  /** The types one fragment leaves of the types possible so far. */
  function Narrow(possible: set<string>, f: Fields): set<string>
  {
    var typed := if "type" in f then possible * DeclaredTypes(f["type"]) else possible;
    var listed := if "enum" in f && f["enum"].Arr? then typed * EnumTypes(f["enum"].items) else typed;
    if "const" in f then listed * {TypeOf(f["const"])} else listed
  }

  function PossibleTypes(b: Branch): set<string>
  {
    if b == [] then JSON_TYPES else Narrow(PossibleTypes(b[..|b| - 1]), b[|b| - 1].schema)
  }

  predicate Accepting(b: Branch) { PossibleTypes(b) != {} }

  lemma NarrowKeepsType(possible: set<string>, f: Fields, v: Json)
    requires TypeOf(v) in possible && possible <= JSON_TYPES && Asserted(f, v)
    ensures TypeOf(v) in Narrow(possible, f) && Narrow(possible, f) <= JSON_TYPES
  {
    if "type" in f {
      var t := f["type"];
      var raw := if t.Str? then [t] else t.items;
      var i :| 0 <= i < |raw| && raw[i].Str? && HasType(raw[i].s, v);
      assert Declares(raw[i], TypeOf(v));
    }
    if "enum" in f && f["enum"].Arr? {
      var i :| 0 <= i < |f["enum"].items| && f["enum"].items[i] == v;
      assert TypeOf(v) in EnumTypes(f["enum"].items);
    }
  }

  /** The type of an accepted value is among the possible types of the branch. */
  lemma {:induction false} AcceptedType(b: Branch, v: Json)
    requires forall i :: 0 <= i < |b| ==> Asserted(b[i].schema, v)
    ensures TypeOf(v) in PossibleTypes(b) && PossibleTypes(b) <= JSON_TYPES
  {
    if b != [] {
      AcceptedType(b[..|b| - 1], v);
      NarrowKeepsType(PossibleTypes(b[..|b| - 1]), b[|b| - 1].schema, v);
    }
  }

  // ----- what a branch says about objects and arrays -----

  predicate FragmentViewClean(f: Fields, credential: string -> bool)
  {
    && ("properties" in f ==> f["properties"].Obj? &&
                              forall k :: k in f["properties"].fields ==> !credential(k))
    && NoPatterns(f)
    && ("required" in f ==> f["required"].Arr? && AllText(f["required"].items))
  }

  predicate ViewClean(b: Branch, credential: string -> bool)
  {
    forall i :: 0 <= i < |b| ==> FragmentViewClean(b[i].schema, credential)
  }

  function PropertyNames(b: Branch): set<string>
  {
    if b == [] then {} else PropertyNames(b[..|b| - 1]) + Properties(b[|b| - 1].schema).Keys
  }

  /** The schemas all fragments give to one property, in fragment order. */
  function PropertyNodes(b: Branch, name: string): seq<Node>
  {
    if b == [] then []
    else
      var last := b[|b| - 1];
      PropertyNodes(b[..|b| - 1], name) +
      if name in Properties(last.schema)
      then [Node(Properties(last.schema)[name], last.path + [name])] else []
  }

  lemma {:induction false} NodesOfName(b: Branch, name: string)
    ensures PropertyNodes(b, name) == [] <==> name !in PropertyNames(b)
  {
    if b != [] {
      NodesOfName(b[..|b| - 1], name);
    }
  }

  function RequiredNames(b: Branch): set<string>
  {
    if b == [] then {} else RequiredNames(b[..|b| - 1]) + RequiredOf(b[|b| - 1].schema)
  }

  predicate Closed(b: Branch) { exists i :: 0 <= i < |b| && IsClosed(b[i].schema) }

  function ItemNodes(b: Branch): seq<Node>
  {
    if b == [] then []
    else
      var last := b[|b| - 1];
      ItemNodes(b[..|b| - 1]) +
      if "items" in last.schema then [Node(last.schema["items"], last.path + ["items"])] else []
  }

  predicate HasFiniteMax(f: Fields) { "maxItems" in f && f["maxItems"].Int? && f["maxItems"].i >= 0 }

  predicate FiniteMax(b: Branch) { exists i :: 0 <= i < |b| && HasFiniteMax(b[i].schema) }

  predicate HasValues(f: Fields)
  {
    ("enum" in f && f["enum"].Arr? && f["enum"].items != []) || "const" in f
  }

  predicate IsConcrete(f: Fields)
  {
    ("type" in f && DeclaredTypes(f["type"]) != {}) || HasValues(f)
  }

  predicate Concrete(b: Branch) { exists i :: 0 <= i < |b| && IsConcrete(b[i].schema) }

  predicate ExplicitEnum(b: Branch) { exists i :: 0 <= i < |b| && HasValues(b[i].schema) }

  // ----- when a schema passes -----

  /** The analysis of one position succeeds without a finding, within `fuel`
      nested calls of the analysis. */
  predicate Passes(fuel: nat, credential: string -> bool, root: Fields, nodes: seq<Node>, isRoot: bool,
                   field: Option<string>)
    decreases fuel, 0
  {
    fuel > 0 &&
    var bs := ExpandNodes(root, nodes, 0, [[]]);
    && bs.Some?
    && SomeAccepting(bs.value)
    && BranchesPass(fuel - 1, credential, root, bs.value, isRoot, field)
  }

  predicate SomeAccepting(bs: seq<Branch>)
  {
    exists i :: 0 <= i < |bs| && Accepting(bs[i])
  }

  predicate BranchesPass(fuel: nat, credential: string -> bool, root: Fields, bs: seq<Branch>, isRoot: bool,
                         field: Option<string>)
    decreases fuel, 4
  {
    forall i {:trigger BranchPasses(fuel, credential, root, bs[i], isRoot, field)} ::
      0 <= i < |bs| && Accepting(bs[i]) ==> BranchPasses(fuel, credential, root, bs[i], isRoot, field)
  }

  predicate BranchPasses(fuel: nat, credential: string -> bool, root: Fields, b: Branch, isRoot: bool,
                         field: Option<string>)
    decreases fuel, 3
  {
    && ViewClean(b, credential)
    && (if isRoot then PossibleTypes(b) == {"object"} else Concrete(b))
    && EnvironmentPasses(b, field)
    && KindsPass(fuel, credential, root, b, isRoot)
  }

  predicate KindsPass(fuel: nat, credential: string -> bool, root: Fields, b: Branch, isRoot: bool)
    decreases fuel, 2
  {
    && ("object" in PossibleTypes(b) ==> ObjectPasses(fuel, credential, root, b, isRoot))
    && ("array" in PossibleTypes(b) ==> ArrayPasses(fuel, credential, root, b))
  }

  predicate ObjectPasses(fuel: nat, credential: string -> bool, root: Fields, b: Branch, isRoot: bool)
    decreases fuel, 1
  {
    && (PropertyNames(b) == {} ==> isRoot && RequiredNames(b) == {})
    && Closed(b)
    && forall name :: name in PropertyNames(b) ==>
         Passes(fuel, credential, root, PropertyNodes(b, name), false, Some(name))
  }

  predicate ArrayPasses(fuel: nat, credential: string -> bool, root: Fields, b: Branch)
    decreases fuel, 1
  {
    ItemNodes(b) != [] && FiniteMax(b) && Passes(fuel, credential, root, ItemNodes(b), false, None)
  }

  predicate EnvironmentPasses(b: Branch, field: Option<string>)
  {
    field == Some("environment") && PossibleTypes(b) - {"array", "null"} != {} ==> ExplicitEnum(b)
  }

  function RootNode(root: Fields): Node { Node(Obj(root), []) }

  /** The whole review of one tool's input schema. */
  predicate ReviewPasses(fuel: nat, credential: string -> bool, root: Fields, needsWorkspace: bool)
  {
    && Passes(fuel, credential, root, [RootNode(root)], true, None)
    && var bs := ExpandNodes(root, [RootNode(root)], 0, [[]]).value;
       && |SourcesNamed(bs)| <= 1
       && (needsWorkspace ==> forall i :: 0 <= i < |bs| && Accepting(bs[i]) ==>
             "workspace_id" in PropertyNames(bs[i]) && "workspace_id" in RequiredNames(bs[i]))
  }

  /** The source fields named by some accepting branch. */
  function SourcesNamed(bs: seq<Branch>): set<string>
  {
    set name | name in SOURCE_FIELDS &&
               exists i :: 0 <= i < |bs| && Accepting(bs[i]) && name in PropertyNames(bs[i])
  }

  // ----- what a passing schema guarantees -----

  datatype Limits = Limits(credential: string -> bool, items: int, literals: set<Json>, names: set<string>)

  predicate LiteralsWithin(m: Fields, limits: Limits)
  {
    && ("enum" in m && m["enum"].Arr? ==> forall x :: x in m["enum"].items ==> x in limits.literals)
    && ("const" in m ==> m["const"] in limits.literals)
  }

  /** Every integer of the document is at most `limits.items`, every value an `enum` or
      `const` lists is in `limits.literals`, and every property declared anywhere is in
      `limits.names`. */
  predicate Within(j: Json, limits: Limits)
  {
    match j
    case Int(i) => i <= limits.items
    case Arr(items) => forall i :: 0 <= i < |items| ==> Within(items[i], limits)
    case Obj(m) =>
      LiteralsWithin(m, limits) && Properties(m).Keys <= limits.names && forall k :: k in m ==> Within(m[k], limits)
    case _ => true
  }

  // The limits of a document are what its own text holds.

  function IntegersOf(j: Json): set<int>
    decreases j
  {
    match j
    case Int(i) => {i}
    case Arr(items) => set i, x | 0 <= i < |items| && x in IntegersOf(items[i]) :: x
    case Obj(m) => set k, x | k in m && x in IntegersOf(m[k]) :: x
    case _ => {}
  }

  /** Every value that some `enum` or `const` lists. */
  function LiteralsOf(j: Json): set<Json>
    decreases j
  {
    match j
    case Arr(items) => set i, x | 0 <= i < |items| && x in LiteralsOf(items[i]) :: x
    case Obj(m) =>
      (if "enum" in m && m["enum"].Arr? then set x | x in m["enum"].items else {}) +
      (if "const" in m then {m["const"]} else {}) + set k, x | k in m && x in LiteralsOf(m[k]) :: x
    case _ => {}
  }

  /** Every property that some schema declares. */
  function NamesOf(j: Json): set<string>
    decreases j
  {
    match j
    case Arr(items) => set i, x | 0 <= i < |items| && x in NamesOf(items[i]) :: x
    case Obj(m) => Properties(m).Keys + set k, x | k in m && x in NamesOf(m[k]) :: x
    case _ => {}
  }

  /** The largest integer, the listed values and the declared names of a document. */
  ghost function LimitsOf(credential: string -> bool, j: Json): Limits
  {
    Limits(credential, Largest(IntegersOf(j)), LiteralsOf(j), NamesOf(j))
  }

  predicate TextWithin(j: Json, limits: Limits)
  {
    && (forall x :: x in IntegersOf(j) ==> x <= limits.items)
    && LiteralsOf(j) <= limits.literals && NamesOf(j) <= limits.names
  }

  /** Limits hold of a document exactly when they cover what its text holds. */
  lemma {:induction false} WithinExactly(j: Json, limits: Limits)
    ensures Within(j, limits) <==> TextWithin(j, limits)
    decreases j
  {
    match j
    case Arr(items) =>
      forall i | 0 <= i < |items| ensures Within(items[i], limits) <==> TextWithin(items[i], limits) {
        WithinExactly(items[i], limits);
      }
      ItemsText(items, limits);
      assert Within(j, limits) <==> forall i :: 0 <= i < |items| ==> Within(items[i], limits);
    case Obj(m) =>
      forall k | k in m ensures Within(m[k], limits) <==> TextWithin(m[k], limits) {
        WithinExactly(m[k], limits);
      }
      FieldsText(m, limits);
      assert Within(j, limits) <==>
               LiteralsWithin(m, limits) && Properties(m).Keys <= limits.names &&
               forall k :: k in m ==> Within(m[k], limits);
    case _ =>
  }

  lemma ItemsText(items: seq<Json>, limits: Limits)
    ensures TextWithin(Arr(items), limits) <==> forall i :: 0 <= i < |items| ==> TextWithin(items[i], limits)
  {
    if TextWithin(Arr(items), limits) {
      forall i | 0 <= i < |items| ensures TextWithin(items[i], limits) {
        ItemText(items, i);
      }
    }
    if forall i :: 0 <= i < |items| ==> TextWithin(items[i], limits) {
      forall x | x in IntegersOf(Arr(items)) ensures x <= limits.items {
        var i :| 0 <= i < |items| && x in IntegersOf(items[i]);
        assert TextWithin(items[i], limits);
      }
    }
  }

  lemma ItemText(items: seq<Json>, i: nat)
    requires i < |items|
    ensures IntegersOf(items[i]) <= IntegersOf(Arr(items))
    ensures LiteralsOf(items[i]) <= LiteralsOf(Arr(items))
    ensures NamesOf(items[i]) <= NamesOf(Arr(items))
  {
    forall x | x in IntegersOf(items[i]) ensures x in IntegersOf(Arr(items)) {
    }
    forall x | x in LiteralsOf(items[i]) ensures x in LiteralsOf(Arr(items)) {
    }
    forall x | x in NamesOf(items[i]) ensures x in NamesOf(Arr(items)) {
    }
  }

  lemma FieldsText(m: Fields, limits: Limits)
    ensures TextWithin(Obj(m), limits) <==>
              LiteralsWithin(m, limits) && Properties(m).Keys <= limits.names &&
              forall k :: k in m ==> TextWithin(m[k], limits)
  {
    if TextWithin(Obj(m), limits) {
      forall k | k in m ensures TextWithin(m[k], limits) {
        FieldText(m, k);
      }
    }
  }

  lemma FieldText(m: Fields, k: string)
    requires k in m
    ensures IntegersOf(m[k]) <= IntegersOf(Obj(m))
    ensures LiteralsOf(m[k]) <= LiteralsOf(Obj(m))
    ensures NamesOf(m[k]) <= NamesOf(Obj(m))
  {
    forall x | x in IntegersOf(m[k]) ensures x in IntegersOf(Obj(m)) {
    }
    forall x | x in LiteralsOf(m[k]) ensures x in LiteralsOf(Obj(m)) {
    }
    forall x | x in NamesOf(m[k]) ensures x in NamesOf(Obj(m)) {
    }
  }

  lemma WithinOwnLimits(credential: string -> bool, j: Json)
    ensures Within(j, LimitsOf(credential, j))
  {
    WithinExactly(j, LimitsOf(credential, j));
  }

  predicate Pinned(limits: Limits, v: Json) { v.Null? || v.Arr? || v in limits.literals }

  /** At every depth: every key is declared in the document and none is
      credential-bearing, every array is bounded, every `environment` is null, a list or
      a listed value; and the depth is bounded. */
  predicate Tame(limits: Limits, depth: nat, v: Json)
  {
    depth > 0 &&
    match v
    case Obj(m) => forall k :: k in m ==>
        && k in limits.names && !limits.credential(k) && Tame(limits, depth - 1, m[k])
        && (k == "environment" ==> Pinned(limits, m[k]))
    case Arr(items) => |items| <= limits.items && forall i :: 0 <= i < |items| ==> Tame(limits, depth - 1, items[i])
    case _ => true
  }

  /** At most one of the mutually exclusive source fields is among the keys. */
  predicate OneSourceOf(keys: set<string>)
  {
    forall a, b :: a in keys && b in keys && a in SOURCE_FIELDS && b in SOURCE_FIELDS ==> a == b
  }

  // ----- fragments stay within the document -----

  predicate FragmentsWithin(b: Branch, limits: Limits)
  {
    forall i :: 0 <= i < |b| ==> Within(Obj(b[i].schema), limits)
  }

  predicate BranchesWithin(bs: seq<Branch>, limits: Limits)
  {
    forall i :: 0 <= i < |bs| ==> FragmentsWithin(bs[i], limits)
  }

  predicate NodesWithin(nodes: seq<Node>, limits: Limits)
  {
    forall i :: 0 <= i < |nodes| ==> Within(nodes[i].schema, limits)
  }

  lemma {:induction false} ProductWithin(left: seq<Branch>, right: seq<Branch>, limits: Limits)
    requires BranchesWithin(left, limits) && BranchesWithin(right, limits)
    ensures BranchesWithin(Product(left, right), limits)
    decreases |left|
  {
    if left != [] {
      ProductWithin(left[1..], right, limits);
    }
  }

  lemma {:induction false} WalkWithin(target: Json, raws: seq<string>, limits: Limits)
    requires Within(target, limits) && Walk(target, raws).Some?
    ensures Within(Walk(target, raws).value, limits)
    decreases |raws|
  {
    if raws != [] {
      var next := Descend(target, Decode(raws[0]).value).value;
      assert Within(next, limits);
      WalkWithin(next, raws[1..], limits);
    }
  }

  lemma {:induction false} ExpandWithin(root: Fields, node: Node, refStack: seq<string>, depth: nat, limits: Limits)
    requires Within(Obj(root), limits) && Within(node.schema, limits)
    requires Expand(root, node, refStack, depth).Some?
    ensures BranchesWithin(Expand(root, node, refStack, depth).value, limits)
    decreases MAX_SCHEMA_DEPTH + 1 - depth
  {
    var m := node.schema.fields;
    var direct := [[Fragment(Direct(m), node.path)]];
    assert Within(Obj(Direct(m)), limits);
    var referred := direct;
    if "$ref" in m {
      var reference := m["$ref"].s;
      if reference != "#" {
        WalkWithin(Obj(root), Split(reference[2..], '/'), limits);
      }
      var target := Node(Obj(Resolve(root, reference).value), node.path);
      ExpandWithin(root, target, refStack + [reference], depth + 1, limits);
      var right := Expand(root, target, refStack + [reference], depth + 1).value;
      ProductWithin(direct, right, limits);
      referred := Product(direct, right);
    }
    AllWithin(root, Variants(m, "allOf"), 0, node.path, refStack, depth, referred, limits);
    var conjoined := ExpandAll(root, Variants(m, "allOf"), 0, node.path, refStack, depth, referred).value;
    KeywordWithin(root, m, "anyOf", node.path, refStack, depth, conjoined, limits);
    var any := ExpandKeyword(root, m, "anyOf", node.path, refStack, depth, Some(conjoined)).value;
    KeywordWithin(root, m, "oneOf", node.path, refStack, depth, any, limits);
  }

  lemma {:induction false} AllWithin(root: Fields, variants: seq<Json>, i: nat, path: Path, refStack: seq<string>,
                                     depth: nat, branches: seq<Branch>, limits: Limits)
    requires i <= |variants| && depth <= MAX_SCHEMA_DEPTH && Within(Obj(root), limits)
    requires Within(Arr(variants), limits) && BranchesWithin(branches, limits)
    requires ExpandAll(root, variants, i, path, refStack, depth, branches).Some?
    ensures BranchesWithin(ExpandAll(root, variants, i, path, refStack, depth, branches).value, limits)
    decreases MAX_SCHEMA_DEPTH + 1 - depth, |variants| - i
  {
    if i < |variants| {
      var node := Node(variants[i], VariantPath(path, "allOf", i));
      ExpandWithin(root, node, refStack, depth + 1, limits);
      var right := Expand(root, node, refStack, depth + 1).value;
      ProductWithin(branches, right, limits);
      AllWithin(root, variants, i + 1, path, refStack, depth, Product(branches, right), limits);
    }
  }

  lemma {:induction false} KeywordWithin(root: Fields, m: Fields, keyword: string, path: Path, refStack: seq<string>,
                                         depth: nat, branches: seq<Branch>, limits: Limits)
    requires depth <= MAX_SCHEMA_DEPTH && Within(Obj(root), limits)
    requires Within(Obj(m), limits) && BranchesWithin(branches, limits)
    requires ExpandKeyword(root, m, keyword, path, refStack, depth, Some(branches)).Some?
    ensures BranchesWithin(ExpandKeyword(root, m, keyword, path, refStack, depth, Some(branches)).value, limits)
    decreases MAX_SCHEMA_DEPTH + 1 - depth, |Variants(m, keyword)| + 1
  {
    if Has(m, keyword) {
      var variants := Variants(m, keyword);
      assert Within(m[keyword], limits);
      AnyWithin(root, variants, 0, keyword, path, refStack, depth, limits);
      ProductWithin(branches, ExpandAny(root, variants, 0, keyword, path, refStack, depth).value, limits);
    }
  }

  lemma {:induction false} AnyWithin(root: Fields, variants: seq<Json>, i: nat, keyword: string, path: Path,
                                     refStack: seq<string>, depth: nat, limits: Limits)
    requires i <= |variants| && depth <= MAX_SCHEMA_DEPTH
    requires Within(Obj(root), limits) && Within(Arr(variants), limits)
    requires ExpandAny(root, variants, i, keyword, path, refStack, depth).Some?
    ensures BranchesWithin(ExpandAny(root, variants, i, keyword, path, refStack, depth).value, limits)
    decreases MAX_SCHEMA_DEPTH + 1 - depth, |variants| - i
  {
    if i < |variants| {
      ExpandWithin(root, Node(variants[i], VariantPath(path, keyword, i)), refStack, depth + 1, limits);
      AnyWithin(root, variants, i + 1, keyword, path, refStack, depth, limits);
    }
  }

  /** Values accepted by all nodes are covered by the crossed branches, which
      stay within the document. */
  lemma {:induction false} NodesComplete(doc: Document, n: nat, nodes: seq<Node>, i: nat, branches: seq<Branch>,
                                         v: Json, limits: Limits)
    requires i <= |nodes| && ExpandNodes(doc.root, nodes, i, branches).Some?
    requires Covers(doc, n, branches, v) && BranchesWithin(branches, limits)
    requires forall j :: i <= j < |nodes| ==> Accepts(doc, n, nodes[j].schema, v)
    requires Within(Obj(doc.root), limits) && NodesWithin(nodes, limits)
    ensures Covers(doc, n, ExpandNodes(doc.root, nodes, i, branches).value, v)
    ensures BranchesWithin(ExpandNodes(doc.root, nodes, i, branches).value, limits)
    decreases |nodes| - i
  {
    if i < |nodes| {
      var right := Expand(doc.root, nodes[i], [], 0).value;
      ExpansionComplete(doc, n, nodes[i], [], 0, v);
      CoversProduct(doc, n, branches, right, v);
      ExpandWithin(doc.root, nodes[i], [], 0, limits);
      ProductWithin(branches, right, limits);
      NodesComplete(doc, n, nodes, i + 1, Product(branches, right), v, limits);
    }
  }

  // ----- soundness of the analysis -----

  /** Fragment facts that the views of a branch are read from. */
  ghost predicate Holds(doc: Document, n: nat, b: Branch, v: Json, limits: Limits)
  {
    BranchAccepts(doc, n, b, v) && FragmentsWithin(b, limits) && ViewClean(b, limits.credential)
  }

  lemma HoldsPrefix(doc: Document, n: nat, b: Branch, v: Json, limits: Limits)
    requires b != [] && Holds(doc, n, b, v, limits)
    ensures Holds(doc, n, b[..|b| - 1], v, limits)
  {
  }

  lemma {:induction false} PropertyView(doc: Document, n: nat, b: Branch, v: Json, name: string, limits: Limits)
    requires Holds(doc, n, b, v, limits)
    ensures v.Obj? && name in v.fields ==>
              forall j :: 0 <= j < |PropertyNodes(b, name)| ==>
                Accepts(doc, n, PropertyNodes(b, name)[j].schema, v.fields[name])
    ensures NodesWithin(PropertyNodes(b, name), limits)
    ensures name in PropertyNames(b) ==> !limits.credential(name) && name in limits.names
  {
    if b != [] {
      HoldsPrefix(doc, n, b, v, limits);
      PropertyView(doc, n, b[..|b| - 1], v, name, limits);
      var f := b[|b| - 1].schema;
      assert FragmentAccepts(doc, n, f, v) && Within(Obj(f), limits) && FragmentViewClean(f, limits.credential);
      if name in Properties(f) {
        assert Within(f["properties"], limits);
      }
    }
  }

  lemma {:induction false} ItemView(doc: Document, n: nat, b: Branch, v: Json, limits: Limits)
    requires Holds(doc, n, b, v, limits)
    ensures v.Arr? ==>
              forall j, i :: 0 <= j < |ItemNodes(b)| && 0 <= i < |v.items| ==>
                Accepts(doc, n, ItemNodes(b)[j].schema, v.items[i])
    ensures NodesWithin(ItemNodes(b), limits)
  {
    if b != [] {
      HoldsPrefix(doc, n, b, v, limits);
      ItemView(doc, n, b[..|b| - 1], v, limits);
      var f := b[|b| - 1].schema;
      assert FragmentAccepts(doc, n, f, v) && Within(Obj(f), limits);
    }
  }

  lemma {:induction false} NamesGrow(b: Branch, i: nat)
    requires i < |b|
    ensures Properties(b[i].schema).Keys <= PropertyNames(b)
    ensures RequiredOf(b[i].schema) <= RequiredNames(b)
  {
    if i < |b| - 1 {
      NamesGrow(b[..|b| - 1], i);
    }
  }

  lemma {:induction false} RequiredPresent(doc: Document, n: nat, b: Branch, v: Json)
    requires BranchAccepts(doc, n, b, v) && v.Obj?
    ensures RequiredNames(b) <= v.fields.Keys
  {
    if b != [] {
      RequiredPresent(doc, n, b[..|b| - 1], v);
      assert FragmentAccepts(doc, n, b[|b| - 1].schema, v);
    }
  }

  /** A closed branch admits no key it does not name. */
  lemma ClosedKeys(doc: Document, n: nat, b: Branch, v: Json, limits: Limits)
    requires Holds(doc, n, b, v, limits) && Closed(b) && v.Obj?
    ensures v.fields.Keys <= PropertyNames(b)
  {
    var i :| 0 <= i < |b| && IsClosed(b[i].schema);
    assert FragmentAccepts(doc, n, b[i].schema, v) && FragmentViewClean(b[i].schema, limits.credential);
    NamesGrow(b, i);
  }

  lemma BranchType(doc: Document, n: nat, b: Branch, v: Json)
    requires BranchAccepts(doc, n, b, v)
    ensures TypeOf(v) in PossibleTypes(b)
  {
    forall i | 0 <= i < |b| ensures Asserted(b[i].schema, v) {
      assert FragmentAccepts(doc, n, b[i].schema, v);
    }
    AcceptedType(b, v);
  }

  lemma PinnedByEnum(doc: Document, n: nat, b: Branch, v: Json, limits: Limits)
    requires Holds(doc, n, b, v, limits)
    requires EnvironmentPasses(b, Some("environment"))
    ensures Pinned(limits, v)
  {
    BranchType(doc, n, b, v);
    if !v.Null? && !v.Arr? {
      assert TypeOf(v) in PossibleTypes(b) - {"array", "null"};
      var i :| 0 <= i < |b| && HasValues(b[i].schema);
      assert FragmentAccepts(doc, n, b[i].schema, v) && Within(Obj(b[i].schema), limits);
    }
  }

  /** An accepted array is no longer than the largest integer of the document. */
  lemma BoundedItems(doc: Document, n: nat, b: Branch, v: Json, limits: Limits)
    requires Holds(doc, n, b, v, limits) && FiniteMax(b) && v.Arr?
    ensures |v.items| <= limits.items
  {
    var i :| 0 <= i < |b| && HasFiniteMax(b[i].schema);
    assert FragmentAccepts(doc, n, b[i].schema, v) && Within(Obj(b[i].schema), limits);
    assert Within(b[i].schema["maxItems"], limits);
  }

  /** A value accepted at a position that passes is tame. */
  lemma {:induction false} PassingIsTame(fuel: nat, limits: Limits, doc: Document, n: nat, nodes: seq<Node>,
                                         isRoot: bool, field: Option<string>, v: Json)
    requires Passes(fuel, limits.credential, doc.root, nodes, isRoot, field)
    requires Within(Obj(doc.root), limits) && NodesWithin(nodes, limits)
    requires forall j :: 0 <= j < |nodes| ==> Accepts(doc, n, nodes[j].schema, v)
    ensures Tame(limits, fuel, v)
    ensures field == Some("environment") ==> Pinned(limits, v)
    decreases fuel, 1
  {
    var b := AcceptingBranch(fuel, limits, doc, n, nodes, isRoot, field, v);
    assert Tame(limits, fuel, v) by {
      BranchIsTame(fuel - 1, limits, doc, n, b, isRoot, field, v);
    }
    if field == Some("environment") {
      BranchIsPinned(fuel - 1, limits, doc, n, b, isRoot, v);
    }
  }

  lemma BranchIsPinned(fuel: nat, limits: Limits, doc: Document, n: nat, b: Branch, isRoot: bool, v: Json)
    requires BranchPasses(fuel, limits.credential, doc.root, b, isRoot, Some("environment"))
    requires Holds(doc, n, b, v, limits)
    ensures Pinned(limits, v)
  {
    PinnedByEnum(doc, n, b, v, limits);
  }

  lemma AcceptingBranch(fuel: nat, limits: Limits, doc: Document, n: nat, nodes: seq<Node>,
                        isRoot: bool, field: Option<string>, v: Json) returns (b: Branch)
    requires Passes(fuel, limits.credential, doc.root, nodes, isRoot, field)
    requires Within(Obj(doc.root), limits) && NodesWithin(nodes, limits)
    requires forall j :: 0 <= j < |nodes| ==> Accepts(doc, n, nodes[j].schema, v)
    ensures fuel > 0 && BranchPasses(fuel - 1, limits.credential, doc.root, b, isRoot, field)
    ensures b in ExpandNodes(doc.root, nodes, 0, [[]]).value && Accepting(b)
    ensures Holds(doc, n, b, v, limits)
  {
    var start: seq<Branch> := [[]];
    var bs := ExpandNodes(doc.root, nodes, 0, start).value;
    assert Covers(doc, n, start, v) by {
      assert BranchAccepts(doc, n, start[0], v);
    }
    NodesComplete(doc, n, nodes, 0, start, v, limits);
    var i :| 0 <= i < |bs| && BranchAccepts(doc, n, bs[i], v);
    b := bs[i];
    BranchType(doc, n, b, v);
    assert FragmentsWithin(b, limits);
    assert BranchPasses(fuel - 1, limits.credential, doc.root, b, isRoot, field);
  }

  lemma {:induction false} BranchIsTame(fuel: nat, limits: Limits, doc: Document, n: nat, b: Branch,
                                        isRoot: bool, field: Option<string>, v: Json)
    requires BranchPasses(fuel, limits.credential, doc.root, b, isRoot, field)
    requires Within(Obj(doc.root), limits) && Holds(doc, n, b, v, limits)
    ensures Tame(limits, fuel + 1, v)
    decreases fuel, 2
  {
    BranchType(doc, n, b, v);
    assert KindsPass(fuel, limits.credential, doc.root, b, isRoot);
    if v.Obj? {
      assert ObjectPasses(fuel, limits.credential, doc.root, b, isRoot);
      ClosedKeys(doc, n, b, v, limits);
      forall name | name in v.fields
        ensures name in limits.names && !limits.credential(name) && Tame(limits, fuel, v.fields[name])
        ensures name == "environment" ==> Pinned(limits, v.fields[name])
      {
        PropertyView(doc, n, b, v, name, limits);
        assert name in PropertyNames(b);
        PassingIsTame(fuel, limits, doc, n, PropertyNodes(b, name), false, Some(name), v.fields[name]);
      }
    }
    if v.Arr? {
      assert ArrayPasses(fuel, limits.credential, doc.root, b);
      BoundedItems(doc, n, b, v, limits);
      ItemView(doc, n, b, v, limits);
      forall i | 0 <= i < |v.items| ensures Tame(limits, fuel, v.items[i]) {
        PassingIsTame(fuel, limits, doc, n, ItemNodes(b), false, None, v.items[i]);
      }
    }
  }

  /** A tool whose review has no finding: every argument value its input schema
      accepts is an object; it carries `workspace_id` when the tool is scoped to a
      workspace; it carries at most one of the mutually exclusive source fields;
      and it is tame at every depth. This holds whatever the keywords the reviewer
      does not read may mean. */
  lemma ReviewedArguments(fuel: nat, limits: Limits, doc: Document, needsWorkspace: bool, v: Json)
    requires ReviewPasses(fuel, limits.credential, doc.root, needsWorkspace)
    requires Within(Obj(doc.root), limits)
    requires Satisfies(doc, Obj(doc.root), v)
    ensures v.Obj?
    ensures needsWorkspace ==> "workspace_id" in v.fields
    ensures OneSourceOf(v.fields.Keys)
    ensures Tame(limits, fuel, v)
  {
    var n: nat :| Accepts(doc, n, Obj(doc.root), v);
    var nodes := [RootNode(doc.root)];
    var b := AcceptingBranch(fuel, limits, doc, n, nodes, true, None, v);
    BranchType(doc, n, b, v);
    assert v.Obj?;
    RequiredPresent(doc, n, b, v);
    assert ObjectPasses(fuel - 1, limits.credential, doc.root, b, true) by {
      assert KindsPass(fuel - 1, limits.credential, doc.root, b, true);
    }
    ClosedKeys(doc, n, b, v, limits);
    PassingIsTame(fuel, limits, doc, n, nodes, true, None, v);
    OneSource(ExpandNodes(doc.root, nodes, 0, [[]]).value, b, v.fields.Keys);
  }

  /** Keys named by one accepting branch hold at most one source field. */
  lemma OneSource(bs: seq<Branch>, b: Branch, keys: set<string>)
    requires |SourcesNamed(bs)| <= 1 && b in bs && Accepting(b) && keys <= PropertyNames(b)
    ensures OneSourceOf(keys)
  {
    var named := SourcesNamed(bs);
    forall x, y | x in keys && y in keys && x in SOURCE_FIELDS && y in SOURCE_FIELDS ensures x == y {
      assert x in named && y in named;
      if x != y {
        assert |{x, y}| == 2;
        SubsetSize({x, y}, named);
      }
    }
  }

  lemma {:induction false} SubsetSize<T>(a: set<T>, b: set<T>)
    requires a <= b
    ensures |a| <= |b|
  {
    if a != {} {
      var x :| x in a;
      SubsetSize(a - {x}, b - {x});
    }
  }

  /** A larger bound on nested calls never turns a pass into a failure. */
  lemma {:induction false} PassesStable(fuel: nat, more: nat, credential: string -> bool, root: Fields,
                                        nodes: seq<Node>, isRoot: bool, field: Option<string>)
    requires fuel <= more && Passes(fuel, credential, root, nodes, isRoot, field)
    ensures Passes(more, credential, root, nodes, isRoot, field)
    decreases fuel, 1
  {
    var bs := ExpandNodes(root, nodes, 0, [[]]);
    assert BranchesPass(fuel - 1, credential, root, bs.value, isRoot, field);
    BranchesStable(fuel - 1, more - 1, credential, root, bs.value, isRoot, field);
  }

  lemma {:induction false} BranchesStable(fuel: nat, more: nat, credential: string -> bool, root: Fields,
                                          bs: seq<Branch>, isRoot: bool, field: Option<string>)
    requires fuel <= more && BranchesPass(fuel, credential, root, bs, isRoot, field)
    ensures BranchesPass(more, credential, root, bs, isRoot, field)
    decreases fuel, 3
  {
    forall i | 0 <= i < |bs| && Accepting(bs[i])
      ensures BranchPasses(more, credential, root, bs[i], isRoot, field)
    {
      BranchPassesStable(fuel, more, credential, root, bs[i], isRoot, field);
    }
  }

  lemma {:induction false} BranchPassesStable(fuel: nat, more: nat, credential: string -> bool, root: Fields,
                                              b: Branch, isRoot: bool, field: Option<string>)
    requires fuel <= more && BranchPasses(fuel, credential, root, b, isRoot, field)
    ensures BranchPasses(more, credential, root, b, isRoot, field)
    decreases fuel, 2
  {
    assert KindsPass(fuel, credential, root, b, isRoot);
    if "object" in PossibleTypes(b) {
      assert ObjectPasses(fuel, credential, root, b, isRoot);
      forall name | name in PropertyNames(b)
        ensures Passes(more, credential, root, PropertyNodes(b, name), false, Some(name))
      {
        PassesStable(fuel, more, credential, root, PropertyNodes(b, name), false, Some(name));
      }
    }
    if "array" in PossibleTypes(b) {
      assert ArrayPasses(fuel, credential, root, b);
      PassesStable(fuel, more, credential, root, ItemNodes(b), false, None);
    }
  }
}
