/** The reviewer object: findings accumulate in `issues` while the methods walk
    one input schema. Each method is proved against the functions of
    SchemaExpansion and SchemaReview. */
module SchemaReviewer {
  import opened Common
  import opened Json
  import opened JsonPointer
  import opened SchemaSemantics
  import opened SchemaExpansion
  import opened SchemaReview
  import opened SchemaNesting
  import CredentialNames

  datatype Finding =
    | NotLocal(reference: string)
    | BadPointerEscape(reference: string, part: string)
    | Unresolved(reference: string)
    | BadIndex(reference: string, part: string)
    | IndexOutOfRange(reference: string, index: nat)
    | ThroughScalar(reference: string, part: string)
    | NotASchemaObject(reference: string)
    | TooManyBranches
    | TooDeep
    | NotAnObject
    | RefNotText
    | CyclicRef(reference: string)
    | RefTooDeep
    | NotANonEmptyList(keyword: string)
    | PropertiesNotMapping
    | CredentialField
    | PatternsNotMapping
    | PatternsPresent
    | RequiredNotNames
    | NoProperties
    | NotClosed
    | NoItems
    | NoFiniteMax
    | RootNotObject
    | NotConcrete
    | EnvironmentNotEnum
    | NoAcceptingBranch
    | SplitSources(fields: set<string>)
    | WorkspaceUndefined
    | WorkspaceNotRequired
  {
    /** The finding says why an expansion was refused. */
    predicate Refusal()
    {
      || NotLocal? || BadPointerEscape? || Unresolved? || BadIndex? || IndexOutOfRange? || ThroughScalar?
      || NotASchemaObject? || TooManyBranches? || TooDeep? || NotAnObject? || RefNotText? || CyclicRef? || RefTooDeep?
      || NotANonEmptyList?
    }
  }

  /** A finding under its rendered argument path, the unit of deduplication. */
  datatype Issue = Issue(path: string, finding: Finding)

  datatype RootBranch = RootBranch(path: Path, properties: set<string>, required: set<string>)

  function Rendered(parts: Path): string
  {
    if parts == [] then ""
    else (if "[" <= parts[0] then parts[0] else "." + parts[0]) + Rendered(parts[1..])
  }

  function ArgumentPath(toolName: string, path: Path): string
  {
    var parts := if path == [] then ["<root>"]
                 else if path[0] in {"allOf", "anyOf", "oneOf", "$ref"} then ["<root>"] + path
                 else path;
    toolName + Rendered(parts)
  }

  /** A refusal at the path or below it is on record. */
  ghost predicate Refused(toolName: string, issues: seq<Issue>, path: Path)
  {
    exists p: Path, f: Finding :: path <= p && f.Refusal() && Issue(ArgumentPath(toolName, p), f) in issues
  }

  lemma RefusalStays(toolName: string, before: seq<Issue>, after: seq<Issue>, path: Path, above: Path)
    requires before <= after && above <= path && Refused(toolName, before, path)
    ensures Refused(toolName, after, above) && after != []
  {
    var p: Path, f: Finding :| path <= p && f.Refusal() && Issue(ArgumentPath(toolName, p), f) in before;
    assert Issue(ArgumentPath(toolName, p), f) in after && above <= p;
  }

  /** The longest path, among the fragments, that ends in an alternative chosen
      at or below `fallback`; the first such on ties. */
  function BranchPath(b: Branch, fallback: Path): Path
  {
    var best := Best(b, |fallback|, None);
    if best.None? then fallback else best.value
  }

  function Best(b: Branch, start: nat, best: Option<Path>): Option<Path>
  {
    if b == [] then best else Best(b[1..], start, BestIn(b[0].path, 0, start, best))
  }

  function BestIn(path: Path, i: nat, start: nat, best: Option<Path>): Option<Path>
    requires i <= |path|
    decreases |path| - i
  {
    if i == |path| then best
    else
      var chosen := i >= start && path[i] in {"anyOf", "oneOf"} && i + 1 < |path| &&
                    (best.None? || |best.value| < i + 2);
      BestIn(path, i + 1, start, if chosen then Some(path[..i + 2]) else best)
  }

  function ViewOf(b: Branch, path: Path): RootBranch
  {
    RootBranch(BranchPath(b, path), PropertyNames(b), RequiredNames(b))
  }

  /** The views of the accepting branches, in order. */
  function AcceptingViews(bs: seq<Branch>, path: Path): seq<RootBranch>
  {
    if bs == [] then []
    else
      var last := bs[|bs| - 1];
      AcceptingViews(bs[..|bs| - 1], path) + if Accepting(last) then [ViewOf(last, path)] else []
  }

  lemma ProductEmpty(left: seq<Branch>)
    ensures Product(left, []) == []
  {
    ProductSize(left, []);
  }

  /** Every credential name among those has its finding on record. */
  ghost predicate FlagsCredentials(toolName: string, credential: string -> bool, issues: seq<Issue>,
                                   fragment: Fragment, names: set<string>)
  {
    forall name :: name in names && credential(name) ==>
      Issue(ArgumentPath(toolName, fragment.path + [name]), CredentialField) in issues
  }

  ghost predicate FlagsProperties(toolName: string, credential: string -> bool, issues: seq<Issue>,
                                  fragment: Fragment)
  {
    && FlagsCredentials(toolName, credential, issues, fragment, Properties(fragment.schema).Keys)
    && ("properties" in fragment.schema && !fragment.schema["properties"].Obj? ==>
          Issue(ArgumentPath(toolName, fragment.path), PropertiesNotMapping) in issues)
  }

  predicate NamesRequired(f: Fields)
  {
    "required" in f ==> f["required"].Arr? && AllText(f["required"].items)
  }

  ghost predicate FlagsKeywords(toolName: string, issues: seq<Issue>, fragment: Fragment)
  {
    var f, patternPath := fragment.schema, ArgumentPath(toolName, fragment.path + ["patternProperties"]);
    && (!NoPatterns(f) ==>
          Issue(patternPath, if f["patternProperties"].Obj? then PatternsPresent else PatternsNotMapping) in issues)
    && (!NamesRequired(f) ==> Issue(ArgumentPath(toolName, fragment.path), RequiredNotNames) in issues)
  }

  /** Whatever a fragment does wrong in the object view is on record at its place. */
  ghost predicate Flags(toolName: string, credential: string -> bool, issues: seq<Issue>, fragment: Fragment)
  {
    FlagsProperties(toolName, credential, issues, fragment) && FlagsKeywords(toolName, issues, fragment)
  }

  class Reviewer {
    const toolName: string
    const root: Fields
    const credential: string -> bool
    var issues: seq<Issue>
    var issueSet: set<Issue>
    var rootBranches: seq<RootBranch>

    /** `issueSet` mirrors `issues`, which holds no finding twice. */
    ghost predicate Valid()
      reads this
    {
      && (forall x :: x in issueSet <==> x in issues)
      && (forall i, j :: 0 <= i < j < |issues| ==> issues[i] != issues[j])
    }

    /** The work so far agrees with `spec`: the same branches and no new finding, or a
        refusal recorded at the path or below. */
    ghost predicate Tracks(base: seq<Issue>, path: Path, spec: Option<seq<Branch>>, branches: seq<Branch>)
      reads this
    {
      && Valid() && base <= issues
      && if spec.Some? then branches == spec.value && issues == base
         else issues != [] && Refused(toolName, issues, path)
    }

    /** Records why an expansion is refused. */
    method Refuse(path: Path, finding: Finding, ghost above: Path)
      requires Valid() && finding.Refusal() && above <= path
      modifies `issues, `issueSet
      ensures Valid() && old(issues) <= issues && issues != [] && Refused(toolName, issues, above)
    {
      Add(path, finding);
    }

    constructor (toolName: string, root: Fields, credential: string -> bool)
      ensures this.toolName == toolName && this.root == root && this.credential == credential
      ensures Valid() && issues == [] && rootBranches == []
    {
      this.toolName, this.root, this.credential := toolName, root, credential;
      issues, issueSet, rootBranches := [], {}, [];
    }

    method Add(path: Path, finding: Finding)
      requires Valid()
      modifies `issues, `issueSet
      ensures Valid() && old(issues) <= issues && issues != []
      ensures issues == old(issues) || issues == old(issues) + [Issue(ArgumentPath(toolName, path), finding)]
      ensures Issue(ArgumentPath(toolName, path), finding) in issues
    {
      var issue := Issue(ArgumentPath(toolName, path), finding);
      if issue !in issueSet {
        issueSet := issueSet + {issue};
        issues := issues + [issue];
      }
    }

    /** One part of a reference: where it leads from the target, or a finding. */
    method FollowPart(target: Json, raw: string, reference: string, path: Path) returns (next: Option<Json>)
      requires Valid()
      modifies `issues, `issueSet
      ensures Valid() && next == if Decode(raw).None? then None else Descend(target, Decode(raw).value)
      ensures if next.Some? then issues == old(issues) else old(issues) <= issues && Refused(toolName, issues, path)
    {
      var part := DecodePointerPart(raw);
      if part.None? {
        Refuse(path, BadPointerEscape(reference, raw), path);
        return None;
      }
      if target.Obj? {
        if part.value !in target.fields {
          Refuse(path, Unresolved(reference), path);
          return None;
        }
        return Some(target.fields[part.value]);
      } else if target.Arr? {
        if !IsIndex(part.value) {
          Refuse(path, BadIndex(reference, part.value), path);
          return None;
        }
        var index := Value(part.value);
        if index >= |target.items| {
          Refuse(path, IndexOutOfRange(reference, index), path);
          return None;
        }
        return Some(target.items[index]);
      } else {
        Refuse(path, ThroughScalar(reference, part.value), path);
        return None;
      }
    }

    /** A reference yields the schema object it points at, or a finding. */
    method ResolveLocalRef(reference: string, path: Path) returns (r: Option<Fields>)
      requires Valid()
      modifies `issues, `issueSet
      ensures Valid() && r == Resolve(root, reference)
      ensures if r.Some? then issues == old(issues) else old(issues) <= issues && Refused(toolName, issues, path)
    {
      if reference != "#" && !("#/" <= reference) {
        Refuse(path, NotLocal(reference), path);
        return None;
      }
      var target := Obj(root);
      if "#/" <= reference {
        var parts := Split(reference[2..], '/');
        var i := 0;
        assert parts[0..] == parts;
        while i < |parts|
          invariant 0 <= i <= |parts| && Valid() && issues == old(issues)
          invariant Walk(Obj(root), parts) == Walk(target, parts[i..])
        {
          assert parts[i..][1..] == parts[i + 1..];
          var next := FollowPart(target, parts[i], reference, path);
          if next.None? {
            return None;
          }
          target := next.value;
          i := i + 1;
        }
      }
      if !target.Obj? {
        Refuse(path, NotASchemaObject(reference), path);
        return None;
      }
      return Some(target.fields);
    }

    method CrossBranches(left: seq<Branch>, right: seq<Branch>, path: Path) returns (r: seq<Branch>)
      requires Valid()
      modifies `issues, `issueSet
      ensures |r| <= MAX_EXPANDED_BRANCHES
      ensures Tracks(old(issues), path, Cross(left, right), r)
    {
      ProductSize(left, right);
      if left == [] || right == [] {
        ProductEmpty(left);
        return [];
      }
      if |left| * |right| > MAX_EXPANDED_BRANCHES {
        Refuse(path, TooManyBranches, path);
        return [];
      }
      return Product(left, right);
    }

    /** Expansion agrees with `SchemaExpansion.Expand` when that refuses nothing,
        leaves a finding on record when it does, and is bounded either way. */
    method Expand(node: Node, refStack: seq<string>, depth: nat) returns (branches: seq<Branch>)
      requires Valid()
      modifies `issues, `issueSet
      ensures |branches| <= MAX_EXPANDED_BRANCHES
      ensures Tracks(old(issues), node.path, SchemaExpansion.Expand(root, node, refStack, depth), branches)
      decreases MAX_SCHEMA_DEPTH + 1 - depth
    {
      if depth > MAX_SCHEMA_DEPTH {
        Refuse(node.path, TooDeep, node.path);
        return [];
      }
      if !node.schema.Obj? {
        Refuse(node.path, NotAnObject, node.path);
        return [];
      }
      var m := node.schema.fields;
      var direct := [[Fragment(Direct(m), node.path)]];
      branches := direct;
      ghost var spec := Some(direct);

      if "$ref" in m {
        spec := ExpandRef(root, m["$ref"], node.path, refStack, depth, direct);
        var stop;
        stop, branches := ExpandReference(m["$ref"], node.path, refStack, depth, direct);
        if stop {
          return [];
        }
      }
      assert Tracks(old(issues), node.path, spec, branches);

      if Has(m, "allOf") {
        if BadList(m, "allOf") {
          Refuse(node.path + ["allOf"], NotANonEmptyList("allOf"), node.path);
          return [];
        }
        branches := ExpandConjuncts(m["allOf"].items, node.path, refStack, depth, branches, old(issues), spec);
      }
      spec := if spec.None? then None
              else ExpandAll(root, Variants(m, "allOf"), 0, node.path, refStack, depth, spec.value);
      assert Tracks(old(issues), node.path, spec, branches);

      var keywords := ["anyOf", "oneOf"];
      for k := 0 to 2
        invariant |branches| <= MAX_EXPANDED_BRANCHES
        invariant Tracks(old(issues), node.path, spec, branches)
        invariant SchemaExpansion.Expand(root, node, refStack, depth) ==
                  Remaining(m, node.path, refStack, depth, k, spec)
      {
        var keyword := keywords[k];
        var stop;
        stop, branches := ExpandList(m, keyword, node.path, refStack, depth, branches, old(issues), spec);
        spec := ExpandKeyword(root, m, keyword, node.path, refStack, depth, spec);
        if stop {
          return [];
        }
      }
    }

    /** Crosses the fragment's own branch with the expansion of the referred schema. */
    method ExpandReference(reference: Json, path: Path, refStack: seq<string>, depth: nat, direct: seq<Branch>)
      returns (stop: bool, branches: seq<Branch>)
      requires Valid() && depth <= MAX_SCHEMA_DEPTH
      modifies `issues, `issueSet
      ensures |branches| <= MAX_EXPANDED_BRANCHES
      ensures Tracks(old(issues), path, ExpandRef(root, reference, path, refStack, depth, direct), branches)
      ensures stop ==> ExpandRef(root, reference, path, refStack, depth, direct).None?
      decreases MAX_SCHEMA_DEPTH + 1 - depth, 0
    {
      var refPath := path + ["$ref"];
      if !reference.Str? {
        Refuse(refPath, RefNotText, path);
        return true, [];
      }
      if reference.s in refStack {
        Refuse(refPath, CyclicRef(reference.s), path);
        return true, [];
      }
      if |refStack| >= MAX_REF_DEPTH {
        Refuse(refPath, RefTooDeep, path);
        return true, [];
      }
      var target := ResolveLocalRef(reference.s, refPath);
      if target.None? {
        return true, [];
      }
      var resolved := Expand(Node(Obj(target.value), path), refStack + [reference.s], depth + 1);
      branches := CrossBranches(direct, resolved, path);
      stop := false;
    }

    /** What the keywords from the `k`-th on make of the branches so far. */
    ghost function Remaining(m: Fields, path: Path, refStack: seq<string>, depth: nat, k: nat,
                             spec: Option<seq<Branch>>): Option<seq<Branch>>
      requires depth <= MAX_SCHEMA_DEPTH
    {
      var any := if k < 1 then ExpandKeyword(root, m, "anyOf", path, refStack, depth, spec) else spec;
      if k < 2 then ExpandKeyword(root, m, "oneOf", path, refStack, depth, any) else any
    }

    /** The `allOf` loop. */
    method ExpandConjuncts(variants: seq<Json>, path: Path, refStack: seq<string>, depth: nat,
                           start: seq<Branch>, ghost base: seq<Issue>, ghost before: Option<seq<Branch>>)
      returns (branches: seq<Branch>)
      requires depth <= MAX_SCHEMA_DEPTH && Tracks(base, path, before, start)
      requires |start| <= MAX_EXPANDED_BRANCHES
      modifies `issues, `issueSet
      ensures |branches| <= MAX_EXPANDED_BRANCHES
      ensures Tracks(base, path, if before.None? then None
                           else ExpandAll(root, variants, 0, path, refStack, depth, before.value), branches)
      decreases MAX_SCHEMA_DEPTH + 1 - depth, 0
    {
      branches := start;
      ghost var spec := before;
      for index := 0 to |variants|
        invariant |branches| <= MAX_EXPANDED_BRANCHES
        invariant Tracks(base, path, spec, branches)
        invariant spec.Some? ==> before.Some?
        invariant before.Some? ==>
                    ExpandAll(root, variants, 0, path, refStack, depth, before.value) ==
                    if spec.None? then None
                    else ExpandAll(root, variants, index, path, refStack, depth, spec.value)
      {
        var variant := Node(variants[index], VariantPath(path, "allOf", index));
        ghost var right := SchemaExpansion.Expand(root, variant, refStack, depth + 1);
        var expanded := Expand(variant, refStack, depth + 1);
        branches := CrossBranches(branches, expanded, path);
        spec := CrossOption(spec, right);
      }
    }

    /** One of `anyOf` and `oneOf`, when the schema has it. */
    method ExpandList(m: Fields, keyword: string, path: Path, refStack: seq<string>, depth: nat,
                      start: seq<Branch>, ghost base: seq<Issue>, ghost before: Option<seq<Branch>>)
      returns (stop: bool, branches: seq<Branch>)
      requires depth <= MAX_SCHEMA_DEPTH && Tracks(base, path, before, start) && |start| <= MAX_EXPANDED_BRANCHES
      modifies `issues, `issueSet
      ensures |branches| <= MAX_EXPANDED_BRANCHES
      ensures Tracks(base, path, ExpandKeyword(root, m, keyword, path, refStack, depth, before), branches)
      ensures stop ==> ExpandKeyword(root, m, keyword, path, refStack, depth, before).None?
      decreases MAX_SCHEMA_DEPTH + 1 - depth, 1
    {
      if !Has(m, keyword) {
        return false, start;
      }
      if BadList(m, keyword) {
        Refuse(path + [keyword], NotANonEmptyList(keyword), path);
        return true, [];
      }
      branches := ExpandAlternatives(m[keyword].items, keyword, path, refStack, depth, start, base, before);
      stop := false;
    }

    /** The loop over the variants of one `anyOf` or `oneOf`. */
    method ExpandAlternatives(variants: seq<Json>, keyword: string, path: Path, refStack: seq<string>, depth: nat,
                              start: seq<Branch>, ghost base: seq<Issue>, ghost before: Option<seq<Branch>>)
      returns (branches: seq<Branch>)
      requires depth <= MAX_SCHEMA_DEPTH && Tracks(base, path, before, start)
      modifies `issues, `issueSet
      ensures |branches| <= MAX_EXPANDED_BRANCHES
      ensures Tracks(base, path,
                     CrossOption(before, ExpandAny(root, variants, 0, keyword, path, refStack, depth)), branches)
      decreases MAX_SCHEMA_DEPTH + 1 - depth, 0
    {
      var alternatives: seq<Branch> := [];
      ghost var all := ExpandAny(root, variants, 0, keyword, path, refStack, depth);
      ghost var ok := true;
      assert all.Some? ==> [] + all.value == all.value;
      for index := 0 to |variants|
        invariant Valid() && base <= issues && (before.None? ==> Refused(toolName, issues, path))
        invariant ok && before.Some? ==> issues == base
        invariant ok ==>
                    all == Joined(alternatives, ExpandAny(root, variants, index, keyword, path, refStack, depth))
        invariant !ok ==> Refused(toolName, issues, path) && all.None?
      {
        var variant := Node(variants[index], VariantPath(path, keyword, index));
        ghost var first := SchemaExpansion.Expand(root, variant, refStack, depth + 1);
        ghost var rest := ExpandAny(root, variants, index + 1, keyword, path, refStack, depth);
        ghost var known := issues;
        var expanded := Expand(variant, refStack, depth + 1);
        if first.Some? && rest.Some? {
          assert alternatives + (first.value + rest.value) == alternatives + expanded + rest.value;
        }
        if before.None? || !ok {
          RefusalStays(toolName, known, issues, path, path);
        } else if first.None? {
          RefusalStays(toolName, issues, issues, variant.path, path);
        }
        alternatives := alternatives + expanded;
        ok := ok && first.Some?;
      }
      assert alternatives + [] == alternatives;
      ghost var known := issues;
      branches := CrossBranches(start, alternatives, path);
      if before.None? || !ok {
        RefusalStays(toolName, known, issues, path, path);
      }
    }

    ghost function Joined(done: seq<Branch>, rest: Option<seq<Branch>>): Option<seq<Branch>>
    {
      if rest.None? then None else Some(done + rest.value)
    }

    method ExpandNodes(nodes: seq<Node>, path: Path) returns (branches: seq<Branch>)
      requires Valid()
      modifies `issues, `issueSet
      ensures Tracks(old(issues), [], SchemaExpansion.ExpandNodes(root, nodes, 0, [[]]), branches)
    {
      branches := [[]];
      ghost var spec := Some(branches);
      for i := 0 to |nodes|
        invariant Tracks(old(issues), [], spec, branches)
        invariant SchemaExpansion.ExpandNodes(root, nodes, 0, [[]]) ==
                  if spec.None? then None else SchemaExpansion.ExpandNodes(root, nodes, i, spec.value)
      {
        ghost var right := SchemaExpansion.Expand(root, nodes[i], [], 0);
        var expanded := Expand(nodes[i], [], 0);
        branches := CrossBranches(branches, expanded, path);
        spec := CrossOption(spec, right);
      }
    }

    static method PossibleTypes(b: Branch) returns (possible: set<string>)
      ensures possible == SchemaReview.PossibleTypes(b)
    {
      possible := JSON_TYPES;
      for i := 0 to |b|
        invariant possible == SchemaReview.PossibleTypes(b[..i])
      {
        var schema := b[i].schema;
        assert b[..i + 1][..i] == b[..i];
        if "type" in schema {
          possible := possible * DeclaredTypes(schema["type"]);
        }
        if "enum" in schema && schema["enum"].Arr? {
          var enumTypes: set<string> := {};
          var items := schema["enum"].items;
          for j := 0 to |items|
            invariant enumTypes == EnumTypes(items[..j])
          {
            assert items[..j + 1][..j] == items[..j] && items[..j + 1][j] == items[j];
            EnumTypesGrow(items, j);
            enumTypes := enumTypes + {TypeOf(items[j])};
          }
          assert items[..|items|] == items;
          possible := possible * enumTypes;
        }
        if "const" in schema {
          possible := possible * {TypeOf(schema["const"])};
        }
      }
      assert b[..|b|] == b;
    }

    static lemma EnumTypesGrow(items: seq<Json>, j: nat)
      requires j < |items|
      ensures EnumTypes(items[..j + 1]) == EnumTypes(items[..j]) + {TypeOf(items[j])}
    {
      var longer, shorter := items[..j + 1], items[..j];
      forall x | x in EnumTypes(longer) ensures x in EnumTypes(shorter) + {TypeOf(items[j])} {
        var i :| 0 <= i < |longer| && TypeOf(longer[i]) == x;
        assert i < j ==> shorter[i] == longer[i];
      }
      forall x | x in EnumTypes(shorter) ensures x in EnumTypes(longer) {
        var i :| 0 <= i < |shorter| && TypeOf(shorter[i]) == x;
        assert longer[i] == shorter[i];
      }
      assert longer[j] == items[j];
    }

    /** The properties of one fragment, appended to those collected so far. */
    method CollectProperties(fragment: Fragment, before: map<string, seq<Node>>)
      returns (properties: map<string, seq<Node>>)
      requires Valid() && "properties" in fragment.schema && fragment.schema["properties"].Obj?
      modifies `issues, `issueSet
      ensures Valid() && old(issues) <= issues
      ensures var raw := fragment.schema["properties"].fields;
              && properties.Keys == before.Keys + raw.Keys
              && (forall name :: name in properties ==>
                    properties[name] == (if name in before then before[name] else []) +
                      if name in raw then [Node(raw[name], fragment.path + [name])] else [])
              && FlagsCredentials(toolName, credential, issues, fragment, raw.Keys)
              && ((forall name :: name in raw ==> !credential(name)) ==> issues == old(issues))
    {
      var raw := fragment.schema["properties"].fields;
      properties := before;
      var rest := raw.Keys;
      while rest != {}
        invariant Valid() && old(issues) <= issues && rest <= raw.Keys
        invariant properties.Keys == before.Keys + (raw.Keys - rest)
        invariant forall name :: name in properties ==>
                    properties[name] == (if name in before then before[name] else []) +
                      if name in raw && name !in rest then [Node(raw[name], fragment.path + [name])] else []
        invariant FlagsCredentials(toolName, credential, issues, fragment, raw.Keys - rest)
        invariant (forall name :: name in raw.Keys - rest ==> !credential(name)) ==> issues == old(issues)
      {
        var name :| name in rest;
        var fieldPath := fragment.path + [name];
        if credential(name) {
          Add(fieldPath, CredentialField);
        }
        var known := if name in properties then properties[name] else [];
        properties := properties[name := known + [Node(raw[name], fieldPath)]];
        rest := rest - {name};
      }
    }

    /** The pattern and required-name keywords of one fragment. */
    method ViewKeywords(fragment: Fragment) returns (required: set<string>)
      requires Valid()
      modifies `issues, `issueSet
      ensures Valid() && old(issues) <= issues
      ensures required == RequiredOf(fragment.schema)
      ensures FlagsKeywords(toolName, issues, fragment)
      ensures NoPatterns(fragment.schema) && NamesRequired(fragment.schema) ==> issues == old(issues)
    {
      var schema := fragment.schema;
      required := {};
      if "patternProperties" in schema {
        var patternPath := fragment.path + ["patternProperties"];
        if !schema["patternProperties"].Obj? {
          Add(patternPath, PatternsNotMapping);
        } else if schema["patternProperties"].fields != map[] {
          Add(patternPath, PatternsPresent);
        }
      }
      if "required" in schema {
        if !schema["required"].Arr? || !AllText(schema["required"].items) {
          Add(fragment.path, RequiredNotNames);
        } else {
          required := RequiredOf(schema);
        }
      }
    }

    /** The part of the object view that one fragment contributes. */
    method ViewFragment(fragment: Fragment, before: map<string, seq<Node>>, ghost b: Branch, ghost i: nat)
      returns (properties: map<string, seq<Node>>, required: set<string>)
      requires Valid() && i < |b| && fragment == b[i]
      requires FlagsFirst(toolName, credential, issues, b, i)
      modifies `issues, `issueSet
      ensures Valid() && old(issues) <= issues
      ensures Merges(fragment, before, properties)
      ensures required == RequiredOf(fragment.schema)
      ensures FlagsFirst(toolName, credential, issues, b, i + 1)
      ensures FragmentViewClean(fragment.schema, credential) ==> issues == old(issues)
    {
      properties := before;
      if "properties" in fragment.schema {
        if !fragment.schema["properties"].Obj? {
          Add(fragment.path, PropertiesNotMapping);
        } else {
          properties := CollectProperties(fragment, properties);
        }
      }
      required := ViewKeywords(fragment);
      FlagsStay(toolName, credential, old(issues), issues, b, i);
    }

    /** `merged` is `known` with the properties of the fragment appended. */
    static ghost predicate Merges(fragment: Fragment, known: map<string, seq<Node>>, merged: map<string, seq<Node>>)
    {
      var raw := Properties(fragment.schema);
      && merged.Keys == known.Keys + raw.Keys
      && forall name :: name in merged ==>
           merged[name] == (if name in known then known[name] else []) +
             if name in raw then [Node(raw[name], fragment.path + [name])] else []
    }

    /** `properties` lists, for each name, the schemas the fragments give it. */
    static ghost predicate Views(b: Branch, properties: map<string, seq<Node>>)
    {
      && properties.Keys == PropertyNames(b)
      && forall name :: name in properties ==> properties[name] == PropertyNodes(b, name)
    }

    /** The merged view of a branch as an object. */
    method ObjectView(b: Branch)
      returns (properties: map<string, seq<Node>>, required: set<string>, closed: bool)
      requires Valid()
      modifies `issues, `issueSet
      ensures Valid() && old(issues) <= issues
      ensures Views(b, properties) && required == RequiredNames(b) && closed == Closed(b)
      ensures FlagsFirst(toolName, credential, issues, b, |b|)
      ensures if ViewClean(b, credential) then issues == old(issues) else issues != []
    {
      properties, required, closed := map[], {}, false;
      for i := 0 to |b|
        invariant Valid() && old(issues) <= issues
        invariant Views(b[..i], properties) && required == RequiredNames(b[..i]) && closed == Closed(b[..i])
        invariant FlagsFirst(toolName, credential, issues, b, i)
        invariant if ViewClean(b[..i], credential) then issues == old(issues) else issues != []
      {
        ghost var known := properties;
        var more;
        properties, more := ViewFragment(b[i], properties, b, i);
        required := required + more;
        var schema := b[i].schema;
        closed := closed || ("additionalProperties" in schema && schema["additionalProperties"] == Bool(false));
        FlagsIfUnclean(toolName, credential, issues, b[i]);
        assert b[..i + 1] == b[..i] + [b[i]] && b[..i + 1][..i] == b[..i];
        MergedNodes(b[..i], b[i], known, properties);
        ViewGrows(b, i, credential);
      }
      assert b[..|b|] == b;
    }

    /** The first `n` fragments have their findings on record. */
    static ghost predicate FlagsFirst(toolName: string, credential: string -> bool, issues: seq<Issue>, b: Branch,
                                      n: nat)
      requires n <= |b|
    {
      forall i :: 0 <= i < n ==> Flags(toolName, credential, issues, b[i])
    }

    static lemma FlagsStay(toolName: string, credential: string -> bool, before: seq<Issue>, after: seq<Issue>,
                           b: Branch, n: nat)
      requires n <= |b| && FlagsFirst(toolName, credential, before, b, n) && before <= after
      ensures FlagsFirst(toolName, credential, after, b, n)
    {
      assert forall x :: x in before ==> x in after;
      forall i | 0 <= i < n ensures Flags(toolName, credential, after, b[i]) {
        assert Flags(toolName, credential, before, b[i]);
      }
    }

    static lemma FlagsIfUnclean(toolName: string, credential: string -> bool, issues: seq<Issue>, fragment: Fragment)
      requires Flags(toolName, credential, issues, fragment)
      ensures issues == [] ==> FragmentViewClean(fragment.schema, credential)
    {
    }

    static lemma ViewGrows(b: Branch, i: nat, credential: string -> bool)
      requires i < |b|
      ensures ViewClean(b[..i + 1], credential) <==>
              ViewClean(b[..i], credential) && FragmentViewClean(b[i].schema, credential)
      ensures Closed(b[..i + 1]) <==> Closed(b[..i]) || IsClosed(b[i].schema)
    {
      var longer, shorter := b[..i + 1], b[..i];
      assert longer == shorter + [b[i]];
      if ViewClean(longer, credential) {
        forall j | 0 <= j < |shorter| ensures FragmentViewClean(shorter[j].schema, credential) {
          assert longer[j] == shorter[j];
        }
        assert FragmentViewClean(longer[i].schema, credential);
      }
      if Closed(shorter) {
        var j :| 0 <= j < |shorter| && IsClosed(shorter[j].schema);
        assert longer[j] == shorter[j];
      }
      if IsClosed(b[i].schema) {
        assert longer[i] == b[i];
      }
    }

    static lemma MergedNodes(before: Branch, fragment: Fragment, known: map<string, seq<Node>>,
                             merged: map<string, seq<Node>>)
      requires Views(before, known) && Merges(fragment, known, merged)
      ensures Views(before + [fragment], merged)
    {
      var b := before + [fragment];
      assert b[..|b| - 1] == before;
      forall name | name in merged ensures merged[name] == PropertyNodes(b, name) {
        NodesOfName(before, name);
      }
    }

    // ----- the analysis -----

    static lemma PropertyShallow(b: Branch, name: string, d: nat)
      ensures BranchShallow(b, d + 1) && name in PropertyNames(b) ==> NodesShallow(PropertyNodes(b, name), d)
    {
      if BranchShallow(b, d + 1) && name in PropertyNames(b) {
        PropertiesShallow(b, name, d);
      }
    }

    /** An object branch; `ok` is false when the recursion bound was hit. */
    method ReviewObject(fuel: nat, b: Branch, path: Path, isRoot: bool, properties: map<string, seq<Node>>,
                        required: set<string>, closed: bool) returns (ok: bool)
      requires Valid()
      requires Views(b, properties) && required == RequiredNames(b) && closed == Closed(b)
      modifies `issues, `issueSet, `rootBranches
      ensures Valid() && old(issues) <= issues && rootBranches == old(rootBranches)
      ensures ok && issues == [] <==> old(issues) == [] && ObjectPasses(fuel, credential, root, b, isRoot)
      ensures ok || Refused(toolName, issues, []) || !BranchShallow(b, fuel + 1)
      decreases fuel, 1
    {
      if properties == map[] && (!isRoot || required != {}) {
        Add(path, NoProperties);
      }
      if !closed {
        Add(path, NotClosed);
      }
      assert properties == map[] <==> properties.Keys == {};
      var rest := properties.Keys;
      ghost var start := issues;
      while rest != {}
        invariant Valid() && start <= issues && rootBranches == old(rootBranches) && rest <= properties.Keys
        invariant issues == [] <==>
                  (start == [] && forall name :: name in properties.Keys - rest ==>
                     Passes(fuel, credential, root, PropertyNodes(b, name), false, Some(name)))
      {
        var name :| name in rest;
        NodesOfName(b, name);
        PropertyShallow(b, name, fuel);
        var fine := Analyze(fuel, properties[name], properties[name][0].path, false, Some(name));
        rest := rest - {name};
        if !fine {
          return false;
        }
      }
      return true;
    }

    /** The item schemas of a branch, and whether one fragment bounds the length. */
    static method ArrayView(b: Branch) returns (itemNodes: seq<Node>, finiteMax: bool)
      ensures itemNodes == ItemNodes(b) && finiteMax == FiniteMax(b)
    {
      itemNodes, finiteMax := [], false;
      for i := 0 to |b|
        invariant itemNodes == ItemNodes(b[..i]) && finiteMax == FiniteMax(b[..i])
      {
        var schema := b[i].schema;
        assert b[..i + 1] == b[..i] + [b[i]] && b[..i + 1][..i] == b[..i];
        FiniteMaxGrows(b[..i], b[i]);
        if "items" in schema {
          itemNodes := itemNodes + [Node(schema["items"], b[i].path + ["items"])];
        }
        if "maxItems" in schema && schema["maxItems"].Int? && schema["maxItems"].i >= 0 {
          finiteMax := true;
        }
      }
      assert b[..|b|] == b;
    }

    /** An array branch. */
    method ReviewArray(fuel: nat, b: Branch, path: Path) returns (ok: bool)
      requires Valid()
      modifies `issues, `issueSet, `rootBranches
      ensures Valid() && old(issues) <= issues && rootBranches == old(rootBranches)
      ensures ok && issues == [] <==> old(issues) == [] && ArrayPasses(fuel, credential, root, b)
      ensures ok || Refused(toolName, issues, []) || !BranchShallow(b, fuel + 1)
      decreases fuel, 1
    {
      var itemNodes, finiteMax := ArrayView(b);
      ok := true;
      if itemNodes == [] {
        Add(path, NoItems);
      } else {
        if BranchShallow(b, fuel + 1) {
          ItemsShallow(b, fuel);
        }
        ok := Analyze(fuel, itemNodes, itemNodes[0].path, false, None);
        if !ok {
          return;
        }
      }
      if !finiteMax {
        Add(path, NoFiniteMax);
      }
    }

    static lemma FiniteMaxGrows(b: Branch, fragment: Fragment)
      ensures FiniteMax(b + [fragment]) <==> FiniteMax(b) || HasFiniteMax(fragment.schema)
    {
      var longer := b + [fragment];
      if FiniteMax(b) {
        var j :| 0 <= j < |b| && HasFiniteMax(b[j].schema);
        assert longer[j] == b[j];
      }
      assert longer[|b|] == fragment;
    }

    /** The object and array sides of a branch, as its possible types call for. */
    method ReviewKinds(fuel: nat, b: Branch, path: Path, isRoot: bool, possibleTypes: set<string>,
                       properties: map<string, seq<Node>>, required: set<string>, closed: bool) returns (ok: bool)
      requires Valid() && possibleTypes == SchemaReview.PossibleTypes(b)
      requires Views(b, properties) && required == RequiredNames(b) && closed == Closed(b)
      modifies `issues, `issueSet, `rootBranches
      ensures Valid() && old(issues) <= issues && rootBranches == old(rootBranches)
      ensures ok && issues == [] <==> old(issues) == [] && KindsPass(fuel, credential, root, b, isRoot)
      ensures ok || Refused(toolName, issues, []) || !BranchShallow(b, fuel + 1)
      decreases fuel, 2
    {
      ok := true;
      if "object" in possibleTypes {
        ok := ReviewObject(fuel, b, path, isRoot, properties, required, closed);
        if !ok {
          return;
        }
      }
      if "array" in possibleTypes {
        ok := ReviewArray(fuel, b, path);
      }
    }

    /** One accepting branch. */
    method ReviewBranch(fuel: nat, b: Branch, path: Path, isRoot: bool, field: Option<string>) returns (ok: bool)
      requires Valid()
      modifies `issues, `issueSet, `rootBranches
      ensures Valid() && old(issues) <= issues
      ensures rootBranches == old(rootBranches) + if isRoot then [ViewOf(b, path)] else []
      ensures ok && issues == [] <==> old(issues) == [] && BranchPasses(fuel, credential, root, b, isRoot, field)
      ensures ok || Refused(toolName, issues, []) || !BranchShallow(b, fuel + 1)
      decreases fuel, 3
    {
      var possibleTypes := PossibleTypes(b);
      var branchPath := BranchPath(b, path);
      var properties, required, closed := ObjectView(b);
      if isRoot {
        rootBranches := rootBranches + [RootBranch(branchPath, properties.Keys, required)];
        if possibleTypes != {"object"} {
          Add(branchPath, RootNotObject);
        }
      } else if !Concrete(b) {
        Add(branchPath, NotConcrete);
        return true;
      }
      if field == Some("environment") {
        if possibleTypes - {"array", "null"} != {} && !ExplicitEnum(b) {
          Add(branchPath, EnvironmentNotEnum);
        }
      }
      ok := ReviewKinds(fuel, b, branchPath, isRoot, possibleTypes, properties, required, closed);
    }

    /** Where the loop over branches stands after the first `i`. */
    ghost predicate Reviewed(fuel: nat, branches: seq<Branch>, i: nat, path: Path, isRoot: bool, field: Option<string>,
                             start: seq<Issue>, roots: seq<RootBranch>, accepting: nat)
      reads this
    {
      && Valid() && i <= |branches| && start <= issues
      && (accepting > 0 <==> SomeAccepting(branches[..i]))
      && (accepting == 0 ==> issues == start)
      && (issues == [] <==> start == [] && BranchesPass(fuel, credential, root, branches[..i], isRoot, field))
      && rootBranches == roots + if isRoot then AcceptingViews(branches[..i], path) else []
    }

    /** One round of the loop over branches. */
    method ReviewOne(fuel: nat, ghost branches: seq<Branch>, ghost i: nat, b: Branch, path: Path, isRoot: bool,
                     field: Option<string>, ghost start: seq<Issue>, ghost roots: seq<RootBranch>, before: nat)
      returns (ok: bool, accepting: nat)
      requires i < |branches| && b == branches[i]
      requires Reviewed(fuel, branches, i, path, isRoot, field, start, roots, before)
      modifies `issues, `issueSet, `rootBranches
      ensures ok ==> Reviewed(fuel, branches, i + 1, path, isRoot, field, start, roots, accepting)
      ensures !ok ==>
                && Valid() && start <= issues && accepting > 0
                && !(start == [] && BranchesPass(fuel, credential, root, branches, isRoot, field))
      ensures !isRoot ==> rootBranches == roots
      ensures ok || Refused(toolName, issues, []) || !BranchShallow(b, fuel + 1)
      decreases fuel, 4
    {
      ok, accepting := true, before;
      SomeGrows(branches, i);
      ViewsGrow(branches, i, path);
      PrefixGrows(fuel, credential, root, branches, i, isRoot, field);
      var possibleTypes := PossibleTypes(b);
      if possibleTypes != {} {
        accepting := before + 1;
        ok := ReviewBranch(fuel, b, path, isRoot, field);
        PrefixFails(fuel, credential, root, branches, i + 1, isRoot, field);
      }
    }

    /** The loop over the branches of one position. */
    method ReviewBranches(fuel: nat, branches: seq<Branch>, path: Path, isRoot: bool, field: Option<string>)
      returns (ok: bool, accepting: nat)
      requires Valid()
      modifies `issues, `issueSet, `rootBranches
      ensures Valid() && old(issues) <= issues
      ensures ok && issues == [] <==> old(issues) == [] && BranchesPass(fuel, credential, root, branches, isRoot, field)
      ensures ok ==> (accepting > 0 <==> SomeAccepting(branches))
      ensures accepting == 0 ==> issues == old(issues)
      ensures !isRoot ==> rootBranches == old(rootBranches)
      ensures isRoot && ok ==> rootBranches == old(rootBranches) + AcceptingViews(branches, path)
      ensures ok || Refused(toolName, issues, []) || !BranchesShallow(branches, fuel + 1)
      decreases fuel, 5
    {
      accepting := 0;
      for i := 0 to |branches|
        invariant Reviewed(fuel, branches, i, path, isRoot, field, old(issues), old(rootBranches), accepting)
      {
        ok, accepting := ReviewOne(fuel, branches, i, branches[i], path, isRoot, field, old(issues), old(rootBranches),
                                   accepting);
        if !ok {
          return;
        }
      }
      assert branches[..|branches|] == branches;
      ok := true;
    }

    static lemma ViewsGrow(bs: seq<Branch>, i: nat, path: Path)
      requires i < |bs|
      ensures AcceptingViews(bs[..i + 1], path) ==
              AcceptingViews(bs[..i], path) + if Accepting(bs[i]) then [ViewOf(bs[i], path)] else []
    {
      assert bs[..i + 1][..i] == bs[..i];
    }

    static lemma SomeGrows(bs: seq<Branch>, i: nat)
      requires i < |bs|
      ensures SomeAccepting(bs[..i + 1]) <==> SomeAccepting(bs[..i]) || Accepting(bs[i])
    {
      var longer, shorter := bs[..i + 1], bs[..i];
      assert longer[i] == bs[i] && forall j :: 0 <= j < i ==> longer[j] == shorter[j];
    }

    static lemma PrefixGrows(fuel: nat, credential: string -> bool, root: Fields, bs: seq<Branch>, i: nat,
                             isRoot: bool, field: Option<string>)
      requires i < |bs|
      ensures BranchesPass(fuel, credential, root, bs[..i + 1], isRoot, field) <==>
              BranchesPass(fuel, credential, root, bs[..i], isRoot, field) &&
              (Accepting(bs[i]) ==> BranchPasses(fuel, credential, root, bs[i], isRoot, field))
    {
      var longer, shorter := bs[..i + 1], bs[..i];
      assert longer[i] == bs[i] && forall j :: 0 <= j < i ==> longer[j] == shorter[j];
    }

    static lemma PrefixFails(fuel: nat, credential: string -> bool, root: Fields, bs: seq<Branch>, i: nat,
                             isRoot: bool, field: Option<string>)
      requires i <= |bs|
      ensures BranchesPass(fuel, credential, root, bs, isRoot, field) ==>
              BranchesPass(fuel, credential, root, bs[..i], isRoot, field)
    {
    }

    /** The analysis of one position completes without any finding exactly when
        the position passes. */
    method Analyze(fuel: nat, nodes: seq<Node>, path: Path, isRoot: bool, field: Option<string>) returns (ok: bool)
      requires Valid()
      modifies `issues, `issueSet, `rootBranches
      ensures Valid() && old(issues) <= issues
      ensures ok && issues == [] <==> old(issues) == [] && Passes(fuel, credential, root, nodes, isRoot, field)
      ensures var spec := SchemaExpansion.ExpandNodes(root, nodes, 0, [[]]);
              if spec.None? then fuel > 0 ==> Refused(toolName, issues, [])
              else ok && !SomeAccepting(spec.value) ==>
                     Issue(ArgumentPath(toolName, path), NoAcceptingBranch) in issues
      ensures !isRoot ==> rootBranches == old(rootBranches)
      ensures isRoot && ok && issues == [] ==>
                rootBranches == old(rootBranches) +
                  AcceptingViews(SchemaExpansion.ExpandNodes(root, nodes, 0, [[]]).value, path)
      ensures ok || Refused(toolName, issues, []) || !NodesShallow(nodes, fuel)
      decreases fuel, 0
    {
      if fuel == 0 {
        return false;
      }
      var issueCount := |issues|;
      ghost var spec := SchemaExpansion.ExpandNodes(root, nodes, 0, [[]]);
      var branches := ExpandNodes(nodes, path);
      if spec.Some? && NodesShallow(nodes, fuel) {
        NodesExpandShallow(root, nodes, 0, [[]], fuel);
      }
      ghost var expanded := issues;
      var accepting;
      ok, accepting := ReviewBranches(fuel - 1, branches, path, isRoot, field);
      if spec.None? {
        RefusalStays(toolName, expanded, issues, [], []);
      }
      if !ok {
        return;
      }
      if accepting == 0 && |issues| == issueCount {
        Add(path, NoAcceptingBranch);
      }
    }

    /** The review returns no finding exactly when the input schema passes. */
    method Review(fuel: nat, needsWorkspace: bool) returns (ok: bool, findings: seq<Issue>)
      requires Valid() && issues == [] && rootBranches == []
      modifies this
      ensures Valid() && findings == issues
      ensures ok || Refused(toolName, findings, []) || !Shallow(Obj(root), fuel)
      ensures ok && findings == [] <==> ReviewPasses(fuel, credential, root, needsWorkspace)
    {
      ok := Analyze(fuel, [RootNode(root)], [], true, None);
      if !ok {
        return false, issues;
      }
      ViewsDecide(fuel, needsWorkspace);
      CheckSources();
      if needsWorkspace {
        CheckWorkspace();
      }
      findings := issues;
    }

    /** What the recorded views say is what the branches say. */
    lemma ViewsDecide(fuel: nat, needsWorkspace: bool)
      requires issues == [] ==>
                 && Passes(fuel, credential, root, [RootNode(root)], true, None)
                 && rootBranches ==
                    AcceptingViews(SchemaExpansion.ExpandNodes(root, [RootNode(root)], 0, [[]]).value, [])
      ensures issues == [] ==>
                (ReviewPasses(fuel, credential, root, needsWorkspace) <==>
                 |SourcesViewed(rootBranches)| <= 1 && (needsWorkspace ==> WorkspaceViewed(rootBranches)))
    {
      if issues == [] {
        var bs := SchemaExpansion.ExpandNodes(root, [RootNode(root)], 0, [[]]).value;
        SourcesOfViews(bs, []);
        WorkspaceOfViews(bs, []);
      }
    }

    /** Source fields named by different branches call for separate tools. */
    method CheckSources()
      requires Valid()
      modifies `issues, `issueSet
      ensures Valid() && old(issues) <= issues
      ensures issues == [] <==> old(issues) == [] && |SourcesViewed(rootBranches)| <= 1
    {
      var sourceFields := set name | name in SOURCE_FIELDS &&
        exists i :: 0 <= i < |rootBranches| && name in rootBranches[i].properties;
      if |sourceFields| > 1 {
        Add([], SplitSources(sourceFields));
      }
    }

    method CheckWorkspace()
      requires Valid()
      modifies `issues, `issueSet
      ensures Valid() && old(issues) <= issues
      ensures issues == [] <==> old(issues) == [] && WorkspaceViewed(rootBranches)
    {
      if rootBranches == [] || exists view :: view in rootBranches && "workspace_id" !in view.properties {
        Add(["workspace_id"], WorkspaceUndefined);
      }
      if rootBranches == [] || exists view :: view in rootBranches && "workspace_id" !in view.required {
        Add(["workspace_id"], WorkspaceNotRequired);
      }
    }

    static function SourcesViewed(views: seq<RootBranch>): set<string>
    {
      set name | name in SOURCE_FIELDS && exists i :: 0 <= i < |views| && name in views[i].properties
    }

    static predicate WorkspaceViewed(views: seq<RootBranch>)
    {
      views != [] &&
      forall view :: view in views ==> "workspace_id" in view.properties && "workspace_id" in view.required
    }

    static lemma SourcesOfViews(bs: seq<Branch>, path: Path)
      ensures SourcesViewed(AcceptingViews(bs, path)) == SourcesNamed(bs)
    {
      ViewsComplete(bs, path);
      var views := AcceptingViews(bs, path);
      forall name | name in SourcesViewed(views) ensures name in SourcesNamed(bs) {
        var i :| 0 <= i < |views| && name in views[i].properties;
        assert views[i] in views;
      }
      forall name | name in SourcesNamed(bs) ensures name in SourcesViewed(views) {
        var i :| 0 <= i < |bs| && Accepting(bs[i]) && name in PropertyNames(bs[i]);
        assert ViewOf(bs[i], path) in views;
      }
    }

    static lemma WorkspaceOfViews(bs: seq<Branch>, path: Path)
      ensures SomeAccepting(bs) ==>
                (WorkspaceViewed(AcceptingViews(bs, path)) <==>
                 forall i :: 0 <= i < |bs| && Accepting(bs[i]) ==>
                   "workspace_id" in PropertyNames(bs[i]) && "workspace_id" in RequiredNames(bs[i]))
    {
      ViewsComplete(bs, path);
      var views := AcceptingViews(bs, path);
      if SomeAccepting(bs) && WorkspaceViewed(views) {
        forall i | 0 <= i < |bs| && Accepting(bs[i])
          ensures "workspace_id" in PropertyNames(bs[i]) && "workspace_id" in RequiredNames(bs[i])
        {
          assert ViewOf(bs[i], path) in views;
        }
      }
    }

    /** The recorded views are those of the accepting branches, none missing. */
    static lemma {:induction false} ViewsComplete(bs: seq<Branch>, path: Path)
      ensures forall i :: 0 <= i < |bs| && Accepting(bs[i]) ==> ViewOf(bs[i], path) in AcceptingViews(bs, path)
      ensures forall view :: view in AcceptingViews(bs, path) ==>
                exists i :: 0 <= i < |bs| && Accepting(bs[i]) && view == ViewOf(bs[i], path)
    {
      if bs != [] {
        var prefix := bs[..|bs| - 1];
        ViewsComplete(prefix, path);
        forall view | view in AcceptingViews(bs, path)
          ensures exists i :: 0 <= i < |bs| && Accepting(bs[i]) && view == ViewOf(bs[i], path)
        {
          if view in AcceptingViews(prefix, path) {
            var i :| 0 <= i < |prefix| && Accepting(prefix[i]) && view == ViewOf(prefix[i], path);
            assert bs[i] == prefix[i];
          } else {
            assert view == ViewOf(bs[|bs| - 1], path);
          }
        }
        forall i | 0 <= i < |bs| && Accepting(bs[i])
          ensures ViewOf(bs[i], path) in AcceptingViews(bs, path)
        {
          if i < |prefix| {
            assert bs[i] == prefix[i];
          }
        }
      }
    }
  }

  /** The review of one hosted tool. With no finding, every argument value the
      input schema accepts has the guarantees of `ReviewedArguments` under the limits
      of the schema's own text, whatever the other keywords mean. The recursion bound is
      not hit by a schema without `$ref` that nests no deeper, unless an expansion was
      refused and is on record. */
  method SchemaIssues(fuel: nat, toolName: string, root: Fields, needsWorkspace: bool)
    returns (ok: bool, findings: seq<Issue>)
    ensures ok && findings == [] <==> ReviewPasses(fuel, CredentialNames.IsCredentialFieldName, root, needsWorkspace)
    ensures ok || Refused(toolName, findings, []) || !Shallow(Obj(root), fuel)
    ensures ok && findings == [] ==>
              forall extra, v :: Satisfies(Document(root, extra), Obj(root), v) ==>
                Promised(LimitsOf(CredentialNames.IsCredentialFieldName, Obj(root)), fuel, needsWorkspace, v)
  {
    var reviewer := new Reviewer(toolName, root, CredentialNames.IsCredentialFieldName);
    ok, findings := reviewer.Review(fuel, needsWorkspace);
    if ok && findings == [] {
      ghost var limits := LimitsOf(CredentialNames.IsCredentialFieldName, Obj(root));
      WithinOwnLimits(CredentialNames.IsCredentialFieldName, Obj(root));
      forall extra, v | Satisfies(Document(root, extra), Obj(root), v)
        ensures Promised(limits, fuel, needsWorkspace, v)
      {
        ReviewedArguments(fuel, limits, Document(root, extra), needsWorkspace, v);
      }
    }
  }

  /** What a tool without findings can rely on of an argument value. */
  predicate Promised(limits: Limits, depth: nat, needsWorkspace: bool, v: Json)
  {
    && v.Obj? && (needsWorkspace ==> "workspace_id" in v.fields)
    && OneSourceOf(v.fields.Keys) && Tame(limits, depth, v)
  }
}
