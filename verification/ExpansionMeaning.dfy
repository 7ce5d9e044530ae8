/** What the branches of an expanded schema admit: exactly what satisfies the schema
    with `oneOf` read as `anyOf`, and of that the schema itself admits exactly what
    leaves no `oneOf` unsettled. */
module ExpansionMeaning {
  import opened Common
  import opened Json
  import opened JsonPointer
  import opened SchemaSemantics
  import opened SchemaExpansion

  // ----- what the branches admit, exactly -----

  /** Satisfaction with `oneOf` read as `anyOf`, at the schema and at what it reaches
      through `$ref`, `allOf`, `anyOf` and `oneOf` in `n` steps. Fragments are judged
      strictly, at depth `k`. */
  ghost predicate Loose(doc: Document, n: nat, k: nat, schema: Json, v: Json)
    decreases n, 0
  {
    n > 0 &&
    match schema
    case Bool(b) => b
    case Obj(m) => LooseObject(doc, n - 1, k, m, v)
    case _ => false
  }

  ghost predicate LooseObject(doc: Document, n: nat, k: nat, m: Fields, v: Json)
    decreases n, 2
  {
    && FragmentAccepts(doc, k, Direct(m), v)
    && ("$ref" in m ==> LooseRef(doc, n, k, m["$ref"], v))
    && (Has(m, "allOf") ==> LooseAll(doc, n, k, Variants(m, "allOf"), v))
    && (Has(m, "anyOf") ==> LooseAny(doc, n, k, Variants(m, "anyOf"), v))
    && (Has(m, "oneOf") ==> LooseAny(doc, n, k, Variants(m, "oneOf"), v))
  }

  ghost predicate LooseRef(doc: Document, n: nat, k: nat, reference: Json, v: Json)
    decreases n, 1
  {
    reference.Str? && Resolve(doc.root, reference.s).Some? &&
    Loose(doc, n, k, Obj(Resolve(doc.root, reference.s).value), v)
  }

  ghost predicate LooseAll(doc: Document, n: nat, k: nat, xs: seq<Json>, v: Json)
    decreases n, 1
  {
    forall i :: 0 <= i < |xs| ==> Loose(doc, n, k, xs[i], v)
  }

  ghost predicate LooseAny(doc: Document, n: nat, k: nat, xs: seq<Json>, v: Json)
    decreases n, 1
  {
    exists i :: 0 <= i < |xs| && Loose(doc, n, k, xs[i], v)
  }

  ghost predicate LooselySatisfies(doc: Document, schema: Json, v: Json)
  {
    exists n: nat, k: nat :: Loose(doc, n, k, schema, v)
  }

  /** The steps that an expansion at `depth` can still take. */
  ghost predicate Reaches(n: nat, depth: nat) { n + depth > MAX_SCHEMA_DEPTH }

  /** The branches of a schema admit exactly what satisfies it loosely. */
  lemma {:induction false} LooseExactly(doc: Document, n: nat, k: nat, node: Node, refStack: seq<string>,
                                        depth: nat, v: Json)
    requires Expand(doc.root, node, refStack, depth).Some? && Reaches(n, depth)
    ensures Covers(doc, k, Expand(doc.root, node, refStack, depth).value, v) <==> Loose(doc, n, k, node.schema, v)
    decreases MAX_SCHEMA_DEPTH + 1 - depth
  {
    var m := node.schema.fields;
    var direct := [[Fragment(Direct(m), node.path)]];
    DirectExactly(doc, k, m, node.path, v);
    var referred := if "$ref" in m then ExpandRef(doc.root, m["$ref"], node.path, refStack, depth, direct).value
                    else direct;
    if "$ref" in m {
      RefExactly(doc, n - 1, k, m["$ref"], node.path, refStack, depth, direct, v);
    }
    ApplicatorsExactly(doc, n - 1, k, m, node.path, refStack, depth, referred, v);
  }

  lemma {:induction false} ApplicatorsExactly(doc: Document, n: nat, k: nat, m: Fields, path: Path,
                                              refStack: seq<string>, depth: nat, branches: seq<Branch>, v: Json)
    requires depth <= MAX_SCHEMA_DEPTH && Reaches(n, depth + 1)
    requires AfterReference(doc.root, m, path, refStack, depth, branches).Some?
    ensures Covers(doc, k, AfterReference(doc.root, m, path, refStack, depth, branches).value, v) <==>
              && Covers(doc, k, branches, v)
              && LooseAll(doc, n, k, Variants(m, "allOf"), v)
              && (Has(m, "anyOf") ==> LooseAny(doc, n, k, Variants(m, "anyOf"), v))
              && (Has(m, "oneOf") ==> LooseAny(doc, n, k, Variants(m, "oneOf"), v))
    decreases MAX_SCHEMA_DEPTH + 1 - depth,
              |Variants(m, "allOf")| + |Variants(m, "anyOf")| + |Variants(m, "oneOf")| + 2
  {
    var variants := Variants(m, "allOf");
    var conjoined := ExpandAll(doc.root, variants, 0, path, refStack, depth, branches);
    var any := ExpandKeyword(doc.root, m, "anyOf", path, refStack, depth, conjoined);
    AllExactly(doc, n, k, variants, 0, path, refStack, depth, branches, v);
    assert variants[0..] == variants;
    KeywordExactly(doc, n, k, m, "anyOf", path, refStack, depth, conjoined.value, v);
    KeywordExactly(doc, n, k, m, "oneOf", path, refStack, depth, any.value, v);
  }

  /** The expansion of the three applicators, after the reference. */
  function AfterReference(root: Fields, m: Fields, path: Path, refStack: seq<string>, depth: nat,
                          branches: seq<Branch>): Option<seq<Branch>>
    requires depth <= MAX_SCHEMA_DEPTH
  {
    var conjoined := ExpandAll(root, Variants(m, "allOf"), 0, path, refStack, depth, branches);
    var any := ExpandKeyword(root, m, "anyOf", path, refStack, depth, conjoined);
    ExpandKeyword(root, m, "oneOf", path, refStack, depth, any)
  }

  lemma DirectExactly(doc: Document, k: nat, m: Fields, path: Path, v: Json)
    ensures Covers(doc, k, [[Fragment(Direct(m), path)]], v) <==> FragmentAccepts(doc, k, Direct(m), v)
  {
    var direct := [[Fragment(Direct(m), path)]];
    assert BranchAccepts(doc, k, direct[0], v) <==> FragmentAccepts(doc, k, direct[0][0].schema, v);
  }

  lemma {:induction false} RefExactly(doc: Document, n: nat, k: nat, reference: Json, path: Path,
                                      refStack: seq<string>, depth: nat, branches: seq<Branch>, v: Json)
    requires depth <= MAX_SCHEMA_DEPTH && Reaches(n, depth + 1)
    requires ExpandRef(doc.root, reference, path, refStack, depth, branches).Some?
    ensures Covers(doc, k, ExpandRef(doc.root, reference, path, refStack, depth, branches).value, v) <==>
              Covers(doc, k, branches, v) && LooseRef(doc, n, k, reference, v)
    decreases MAX_SCHEMA_DEPTH + 1 - depth, 0
  {
    var target := Node(Obj(Resolve(doc.root, reference.s).value), path);
    var right := Expand(doc.root, target, refStack + [reference.s], depth + 1).value;
    CoversProduct(doc, k, branches, right, v);
    LooseExactly(doc, n, k, target, refStack + [reference.s], depth + 1, v);
  }

  lemma {:induction false} AllExactly(doc: Document, n: nat, k: nat, variants: seq<Json>, i: nat, path: Path,
                                      refStack: seq<string>, depth: nat, branches: seq<Branch>, v: Json)
    requires i <= |variants| && depth <= MAX_SCHEMA_DEPTH && Reaches(n, depth + 1)
    requires ExpandAll(doc.root, variants, i, path, refStack, depth, branches).Some?
    ensures Covers(doc, k, ExpandAll(doc.root, variants, i, path, refStack, depth, branches).value, v) <==>
              Covers(doc, k, branches, v) && LooseAll(doc, n, k, variants[i..], v)
    decreases MAX_SCHEMA_DEPTH + 1 - depth, |variants| - i
  {
    if i < |variants| {
      var node := Node(variants[i], VariantPath(path, "allOf", i));
      var right := Expand(doc.root, node, refStack, depth + 1).value;
      AllExactly(doc, n, k, variants, i + 1, path, refStack, depth, Product(branches, right), v);
      CoversProduct(doc, k, branches, right, v);
      LooseExactly(doc, n, k, node, refStack, depth + 1, v);
      LooseCons(doc, n, k, variants[i..], v);
      assert variants[i..][1..] == variants[i + 1..];
    }
  }

  lemma LooseCons(doc: Document, n: nat, k: nat, xs: seq<Json>, v: Json)
    requires xs != []
    ensures LooseAll(doc, n, k, xs, v) <==> Loose(doc, n, k, xs[0], v) && LooseAll(doc, n, k, xs[1..], v)
    ensures LooseAny(doc, n, k, xs, v) <==> Loose(doc, n, k, xs[0], v) || LooseAny(doc, n, k, xs[1..], v)
  {
    var rest := xs[1..];
    assert forall i :: 0 < i < |xs| ==> xs[i] == rest[i - 1];
    assert forall i :: 0 <= i < |rest| ==> rest[i] == xs[i + 1];
  }

  lemma {:induction false} AnyExactly(doc: Document, n: nat, k: nat, variants: seq<Json>, i: nat, keyword: string,
                                      path: Path, refStack: seq<string>, depth: nat, v: Json)
    requires i <= |variants| && depth <= MAX_SCHEMA_DEPTH && Reaches(n, depth + 1)
    requires ExpandAny(doc.root, variants, i, keyword, path, refStack, depth).Some?
    ensures Covers(doc, k, ExpandAny(doc.root, variants, i, keyword, path, refStack, depth).value, v) <==>
              LooseAny(doc, n, k, variants[i..], v)
    decreases MAX_SCHEMA_DEPTH + 1 - depth, |variants| - i
  {
    if i < |variants| {
      var node := Node(variants[i], VariantPath(path, keyword, i));
      var first := Expand(doc.root, node, refStack, depth + 1).value;
      var rest := ExpandAny(doc.root, variants, i + 1, keyword, path, refStack, depth).value;
      CoversConcat(doc, k, first, rest, v);
      LooseExactly(doc, n, k, node, refStack, depth + 1, v);
      AnyExactly(doc, n, k, variants, i + 1, keyword, path, refStack, depth, v);
      LooseCons(doc, n, k, variants[i..], v);
      assert variants[i..][1..] == variants[i + 1..];
    }
  }

  lemma {:induction false} KeywordExactly(doc: Document, n: nat, k: nat, m: Fields, keyword: string, path: Path,
                                          refStack: seq<string>, depth: nat, branches: seq<Branch>, v: Json)
    requires depth <= MAX_SCHEMA_DEPTH && Reaches(n, depth + 1)
    requires ExpandKeyword(doc.root, m, keyword, path, refStack, depth, Some(branches)).Some?
    ensures Covers(doc, k, ExpandKeyword(doc.root, m, keyword, path, refStack, depth, Some(branches)).value, v) <==>
              Covers(doc, k, branches, v) && (Has(m, keyword) ==> LooseAny(doc, n, k, Variants(m, keyword), v))
    decreases MAX_SCHEMA_DEPTH + 1 - depth, |Variants(m, keyword)| + 1
  {
    if Has(m, keyword) {
      var variants := Variants(m, keyword);
      CoversProduct(doc, k, branches, ExpandAny(doc.root, variants, 0, keyword, path, refStack, depth).value, v);
      AnyExactly(doc, n, k, variants, 0, keyword, path, refStack, depth, v);
      assert variants[0..] == variants;
    }
  }

  /** More steps admit no less. */
  lemma {:induction false} LooseMore(doc: Document, n: nat, more: nat, k: nat, schema: Json, v: Json)
    requires n <= more && Loose(doc, n, k, schema, v)
    ensures Loose(doc, more, k, schema, v)
    decreases n, 0
  {
    if schema.Obj? {
      ObjectLooseMore(doc, n - 1, more - 1, k, schema.fields, v);
    }
  }

  lemma {:induction false} ObjectLooseMore(doc: Document, n: nat, more: nat, k: nat, m: Fields, v: Json)
    requires n <= more && LooseObject(doc, n, k, m, v)
    ensures LooseObject(doc, more, k, m, v)
    decreases n, 2
  {
    if "$ref" in m {
      RefLooseMore(doc, n, more, k, m["$ref"], v);
    }
    ListLooseMore(doc, n, more, k, Variants(m, "allOf"), v);
    ListLooseMore(doc, n, more, k, Variants(m, "anyOf"), v);
    ListLooseMore(doc, n, more, k, Variants(m, "oneOf"), v);
  }

  lemma {:induction false} RefLooseMore(doc: Document, n: nat, more: nat, k: nat, reference: Json, v: Json)
    requires n <= more && LooseRef(doc, n, k, reference, v)
    ensures LooseRef(doc, more, k, reference, v)
    decreases n, 1
  {
    LooseMore(doc, n, more, k, Obj(Resolve(doc.root, reference.s).value), v);
  }

  lemma {:induction false} ListLooseMore(doc: Document, n: nat, more: nat, k: nat, xs: seq<Json>, v: Json)
    requires n <= more
    ensures LooseAll(doc, n, k, xs, v) ==> LooseAll(doc, more, k, xs, v)
    ensures LooseAny(doc, n, k, xs, v) ==> LooseAny(doc, more, k, xs, v)
    decreases n, 1
  {
    forall i | 0 <= i < |xs| && Loose(doc, n, k, xs[i], v) ensures Loose(doc, more, k, xs[i], v) {
      LooseMore(doc, n, more, k, xs[i], v);
    }
  }

  // ----- when loose is strict -----

  ghost predicate Rejected(doc: Document, schema: Json, v: Json)
  {
    exists n: nat :: Rejects(doc, n, schema, v)
  }

  /** Every `oneOf` met within `n` steps, on some way through variants that admit the
      value loosely, has all its other variants reject the value. */
  ghost predicate Settled(doc: Document, n: nat, schema: Json, v: Json)
    decreases n, 0
  {
    n > 0 &&
    match schema
    case Bool(_) => true
    case Obj(m) =>
      && ("$ref" in m ==> SettledRef(doc, n - 1, m["$ref"], v))
      && SettledAll(doc, n - 1, Variants(m, "allOf"), v)
      && (Has(m, "anyOf") ==> SettledAny(doc, n - 1, Variants(m, "anyOf"), v))
      && (Has(m, "oneOf") ==> SettledOne(doc, n - 1, Variants(m, "oneOf"), v))
    case _ => false
  }

  ghost predicate SettledRef(doc: Document, n: nat, reference: Json, v: Json)
    decreases n, 1
  {
    reference.Str? && Resolve(doc.root, reference.s).Some? &&
    Settled(doc, n, Obj(Resolve(doc.root, reference.s).value), v)
  }

  ghost predicate SettledAll(doc: Document, n: nat, xs: seq<Json>, v: Json)
    decreases n, 1
  {
    forall i :: 0 <= i < |xs| ==> Settled(doc, n, xs[i], v)
  }

  ghost predicate SettledAny(doc: Document, n: nat, xs: seq<Json>, v: Json)
    decreases n, 1
  {
    exists i :: 0 <= i < |xs| && LooselySatisfies(doc, xs[i], v) && Settled(doc, n, xs[i], v)
  }

  ghost predicate SettledOne(doc: Document, n: nat, xs: seq<Json>, v: Json)
    decreases n, 1
  {
    exists i :: 0 <= i < |xs| && LooselySatisfies(doc, xs[i], v) && Settled(doc, n, xs[i], v) &&
      OthersRejected(doc, xs, i, v)
  }

  ghost predicate OthersRejected(doc: Document, xs: seq<Json>, i: int, v: Json)
  {
    forall j :: 0 <= j < |xs| && j != i ==> Rejected(doc, xs[j], v)
  }

  ghost predicate Settles(doc: Document, schema: Json, v: Json)
  {
    exists n: nat :: Settled(doc, n, schema, v)
  }

  /** Verdicts on the members of a list, each at some depth, hold at one depth. */
  lemma {:induction false} OneDepth(doc: Document, xs: seq<Json>, v: Json) returns (n: nat)
    ensures (forall i :: 0 <= i < |xs| ==> Satisfies(doc, xs[i], v)) ==> AllAccept(doc, n, xs, v)
    ensures (forall i :: 0 <= i < |xs| ==> Rejected(doc, xs[i], v)) ==> AllReject(doc, n, xs, v)
  {
    if xs == [] {
      n := 0;
    } else {
      var last, rest := xs[|xs| - 1], xs[..|xs| - 1];
      var most := OneDepth(doc, rest, v);
      n := most;
      if a: nat :| Accepts(doc, a, last, v) {
        n := if a > most then a else most;
        VerdictStable(doc, a, n, last, v);
      } else if a: nat :| Rejects(doc, a, last, v) {
        n := if a > most then a else most;
        VerdictStable(doc, a, n, last, v);
      }
      ListStable(doc, most, n, rest, v);
      ListSnoc(doc, n, xs, v);
      SatisfiedIsNotRejected(doc, last, v);
    }
  }

  lemma ListSnoc(doc: Document, n: nat, xs: seq<Json>, v: Json)
    requires xs != []
    ensures AllAccept(doc, n, xs[..|xs| - 1], v) && Accepts(doc, n, xs[|xs| - 1], v) ==> AllAccept(doc, n, xs, v)
    ensures AllReject(doc, n, xs[..|xs| - 1], v) && Rejects(doc, n, xs[|xs| - 1], v) ==> AllReject(doc, n, xs, v)
  {
    var rest := xs[..|xs| - 1];
    forall i | 0 <= i < |rest|
      ensures Accepts(doc, n, rest[i], v) ==> Accepts(doc, n, xs[i], v)
      ensures Rejects(doc, n, rest[i], v) ==> Rejects(doc, n, xs[i], v)
    {
      assert rest[i] == xs[i];
    }
  }

  lemma SatisfiedIsNotRejected(doc: Document, schema: Json, v: Json)
    ensures !(Satisfies(doc, schema, v) && Rejected(doc, schema, v))
  {
    if Satisfies(doc, schema, v) && Rejected(doc, schema, v) {
      var a: nat :| Accepts(doc, a, schema, v);
      var r: nat :| Rejects(doc, r, schema, v);
      var n := if a > r then a else r;
      VerdictStable(doc, a, n, schema, v);
      VerdictStable(doc, r, n, schema, v);
      VerdictConsistent(doc, n, schema, v);
    }
  }

  /** A variant that is satisfied while all others are rejected is the only one. */
  lemma OnlyOne(doc: Document, xs: seq<Json>, i: nat, v: Json) returns (n: nat)
    requires i < |xs| && Satisfies(doc, xs[i], v) && OthersRejected(doc, xs, i, v)
    ensures ExactlyOne(doc, n, xs, v)
  {
    var before := OneDepth(doc, xs[..i], v);
    var later := xs[i + 1..];
    var after := OneDepth(doc, later, v);
    forall j | 0 <= j < i ensures Rejected(doc, xs[..i][j], v) {
      assert xs[..i][j] == xs[j];
    }
    forall j | 0 <= j < |later| ensures Rejected(doc, later[j], v) {
      assert later[j] == xs[i + 1 + j];
    }
    var a: nat :| Accepts(doc, a, xs[i], v);
    n := Most(a, before, after);
    VerdictStable(doc, a, n, xs[i], v);
    ListStable(doc, before, n, xs[..i], v);
    ListStable(doc, after, n, xs[i + 1..], v);
  }

  function Most(a: nat, b: nat, c: nat): (n: nat)
    ensures a <= n && b <= n && c <= n
  {
    if a >= b && a >= c then a else if b >= c then b else c
  }

  lemma Assemble(doc: Document, m: Fields, k: nat, ref: nat, all: nat, any: nat, one: nat, n: nat, v: Json)
    requires k <= n && ref <= n && all <= n && any <= n && one <= n
    requires FragmentAccepts(doc, k, Direct(m), v)
    requires "$ref" in m ==> RefAccepts(doc, ref, m["$ref"], v)
    requires Has(m, "allOf") ==> AllAccept(doc, all, Variants(m, "allOf"), v)
    requires Has(m, "anyOf") ==> SomeAccepts(doc, any, Variants(m, "anyOf"), v)
    requires Has(m, "oneOf") ==> ExactlyOne(doc, one, Variants(m, "oneOf"), v)
    ensures Accepts(doc, n + 1, Obj(m), v)
  {
    FragmentStable(doc, k, n, Direct(m), v);
    if "$ref" in m {
      RefStable(doc, ref, n, m["$ref"], v);
    }
    ListStable(doc, all, n, Variants(m, "allOf"), v);
    ListStable(doc, any, n, Variants(m, "anyOf"), v);
    OneStable(doc, one, n, Variants(m, "oneOf"), v);
  }

  /** A value that satisfies a schema loosely, with every `oneOf` settled, satisfies it. */
  lemma {:induction false} SettledIsStrict(doc: Document, n: nat, schema: Json, v: Json)
    requires Settled(doc, n, schema, v) && LooselySatisfies(doc, schema, v)
    ensures Satisfies(doc, schema, v)
    decreases n, 1
  {
    var steps: nat, k: nat :| Loose(doc, steps, k, schema, v);
    if schema == Bool(true) {
      assert Accepts(doc, 1, schema, v);
    } else {
      SettledObject(doc, n, steps - 1, k, schema.fields, v);
    }
  }

  lemma {:induction false} SettledObject(doc: Document, n: nat, steps: nat, k: nat, m: Fields, v: Json)
    requires Settled(doc, n, Obj(m), v) && LooseObject(doc, steps, k, m, v)
    ensures Satisfies(doc, Obj(m), v)
    decreases n, 0
  {
    var ref, all, any, one := k, k, k, k;
    if "$ref" in m {
      var target := Obj(Resolve(doc.root, m["$ref"].s).value);
      assert Loose(doc, steps, k, target, v);
      SettledIsStrict(doc, n - 1, target, v);
      ref :| Accepts(doc, ref, target, v);
    }
    if Has(m, "allOf") {
      all := AllSettled(doc, n - 1, steps, k, Variants(m, "allOf"), v);
    }
    if Has(m, "anyOf") {
      any := AnySettled(doc, n - 1, Variants(m, "anyOf"), v);
    }
    if Has(m, "oneOf") {
      one := OneSettled(doc, n - 1, Variants(m, "oneOf"), v);
    }
    var depth := Most(Most(ref, all, any), one, k);
    Assemble(doc, m, k, ref, all, any, one, depth, v);
  }

  lemma {:induction false} AllSettled(doc: Document, n: nat, steps: nat, k: nat, xs: seq<Json>, v: Json)
    returns (depth: nat)
    requires LooseAll(doc, steps, k, xs, v) && SettledAll(doc, n, xs, v)
    ensures AllAccept(doc, depth, xs, v)
    decreases n, 2
  {
    forall i | 0 <= i < |xs| ensures Satisfies(doc, xs[i], v) {
      assert LooselySatisfies(doc, xs[i], v);
      SettledIsStrict(doc, n, xs[i], v);
    }
    depth := OneDepth(doc, xs, v);
  }

  lemma {:induction false} AnySettled(doc: Document, n: nat, xs: seq<Json>, v: Json) returns (depth: nat)
    requires SettledAny(doc, n, xs, v)
    ensures SomeAccepts(doc, depth, xs, v)
    decreases n, 2
  {
    var i :| 0 <= i < |xs| && LooselySatisfies(doc, xs[i], v) && Settled(doc, n, xs[i], v);
    SettledIsStrict(doc, n, xs[i], v);
    depth :| Accepts(doc, depth, xs[i], v);
  }

  lemma {:induction false} OneSettled(doc: Document, n: nat, xs: seq<Json>, v: Json) returns (depth: nat)
    requires SettledOne(doc, n, xs, v)
    ensures ExactlyOne(doc, depth, xs, v)
    decreases n, 2
  {
    var i :| 0 <= i < |xs| && LooselySatisfies(doc, xs[i], v) && Settled(doc, n, xs[i], v) &&
      OthersRejected(doc, xs, i, v);
    SettledIsStrict(doc, n, xs[i], v);
    depth := OnlyOne(doc, xs, i, v);
  }

  lemma {:induction false} StrictIsLoose(doc: Document, n: nat, k: nat, schema: Json, v: Json)
    requires n <= k && Accepts(doc, n, schema, v)
    ensures Loose(doc, n, k, schema, v)
    decreases n
  {
    if schema.Obj? {
      var fewer := n - 1;
      FragmentStable(doc, fewer, k, Direct(schema.fields), v);
      forall x | Accepts(doc, fewer, x, v) ensures Loose(doc, fewer, k, x, v) {
        StrictIsLoose(doc, fewer, k, x, v);
      }
      assert LooseObject(doc, fewer, k, schema.fields, v);
    }
  }

  lemma {:induction false} StrictIsSettled(doc: Document, n: nat, schema: Json, v: Json)
    requires Accepts(doc, n, schema, v)
    ensures Settled(doc, n, schema, v)
    decreases n, 0
  {
    if schema.Obj? {
      var m := schema.fields;
      var fewer := n - 1;
      forall x | Accepts(doc, fewer, x, v) ensures Settled(doc, fewer, x, v) && LooselySatisfies(doc, x, v) {
        StrictIsSettled(doc, fewer, x, v);
        StrictIsLoose(doc, fewer, fewer, x, v);
      }
      assert Has(m, "allOf") || Variants(m, "allOf") == [];
      if Has(m, "oneOf") {
        OneIsSettled(doc, n - 1, Variants(m, "oneOf"), v);
      }
    }
  }

  lemma {:induction false} OneIsSettled(doc: Document, n: nat, xs: seq<Json>, v: Json)
    requires ExactlyOne(doc, n, xs, v)
    ensures SettledOne(doc, n, xs, v)
    decreases n, 1
  {
    var i :| 0 <= i < |xs| && Accepts(doc, n, xs[i], v) &&
      AllReject(doc, n, xs[..i], v) && AllReject(doc, n, xs[i + 1..], v);
    StrictIsSettled(doc, n, xs[i], v);
    StrictIsLoose(doc, n, n, xs[i], v);
    forall j | 0 <= j < |xs| && j != i ensures Rejected(doc, xs[j], v) {
      RejectedAt(doc, n, xs, i, j, v);
    }
  }

  /** Of the values that satisfy a schema loosely, just the settled ones satisfy it. */
  lemma StrictExactly(doc: Document, schema: Json, v: Json)
    ensures Satisfies(doc, schema, v) <==> LooselySatisfies(doc, schema, v) && Settles(doc, schema, v)
  {
    if n: nat :| Accepts(doc, n, schema, v) {
      StrictIsLoose(doc, n, n, schema, v);
      StrictIsSettled(doc, n, schema, v);
    }
    if n: nat :| LooselySatisfies(doc, schema, v) && Settled(doc, n, schema, v) {
      SettledIsStrict(doc, n, schema, v);
    }
  }

  // ----- two conditions that settle everything -----

  /** Of any two schemas, one rejects the value. */
  ghost predicate PairwiseApart(doc: Document, xs: seq<Json>, v: Json)
  {
    forall i, j :: 0 <= i < j < |xs| ==> Rejected(doc, xs[i], v) || Rejected(doc, xs[j], v)
  }

  /** Whichever `oneOf` is met within `n` steps, on the way through variants that admit
      the value loosely, no two of its variants admit the value. */
  ghost predicate Apart(doc: Document, n: nat, schema: Json, v: Json)
    decreases n, 0
  {
    n == 0 || !schema.Obj? ||
    var m := schema.fields;
    && ("$ref" in m && m["$ref"].Str? && Resolve(doc.root, m["$ref"].s).Some? ==>
          Apart(doc, n - 1, Obj(Resolve(doc.root, m["$ref"].s).value), v))
    && EachApart(doc, n - 1, Variants(m, "allOf"), v)
    && EachApart(doc, n - 1, Variants(m, "anyOf"), v)
    && EachApart(doc, n - 1, Variants(m, "oneOf"), v)
    && (Has(m, "oneOf") ==> PairwiseApart(doc, Variants(m, "oneOf"), v))
  }

  ghost predicate EachApart(doc: Document, n: nat, xs: seq<Json>, v: Json)
    decreases n, 1
  {
    forall i :: 0 <= i < |xs| && LooselySatisfies(doc, xs[i], v) ==> Apart(doc, n, xs[i], v)
  }

  /** No `oneOf` is met within `n` steps; others in the document do not matter. */
  predicate Unmet(root: Fields, n: nat, schema: Json)
    decreases n, 0
  {
    n == 0 || !schema.Obj? ||
    var m := schema.fields;
    && !Has(m, "oneOf")
    && ("$ref" in m && m["$ref"].Str? && Resolve(root, m["$ref"].s).Some? ==>
          Unmet(root, n - 1, Obj(Resolve(root, m["$ref"].s).value)))
    && EachUnmet(root, n - 1, Variants(m, "allOf"))
    && EachUnmet(root, n - 1, Variants(m, "anyOf"))
  }

  predicate EachUnmet(root: Fields, n: nat, xs: seq<Json>)
    decreases n, 1
  {
    forall i :: 0 <= i < |xs| ==> Unmet(root, n, xs[i])
  }

  lemma {:induction false} UnmetIsApart(doc: Document, n: nat, schema: Json, v: Json)
    requires Unmet(doc.root, n, schema)
    ensures Apart(doc, n, schema, v)
    decreases n, 0
  {
    if n > 0 && schema.Obj? {
      var m := schema.fields;
      if "$ref" in m && m["$ref"].Str? && Resolve(doc.root, m["$ref"].s).Some? {
        UnmetIsApart(doc, n - 1, Obj(Resolve(doc.root, m["$ref"].s).value), v);
      }
      EachUnmetIsApart(doc, n - 1, Variants(m, "allOf"), v);
      EachUnmetIsApart(doc, n - 1, Variants(m, "anyOf"), v);
      assert Has(m, "oneOf") || Variants(m, "oneOf") == [];
    }
  }

  lemma {:induction false} EachUnmetIsApart(doc: Document, n: nat, xs: seq<Json>, v: Json)
    requires EachUnmet(doc.root, n, xs)
    ensures EachApart(doc, n, xs, v)
    decreases n, 1
  {
    forall i | 0 <= i < |xs| ensures Apart(doc, n, xs[i], v) {
      UnmetIsApart(doc, n, xs[i], v);
    }
  }

  lemma {:induction false} ApartIsSettled(doc: Document, n: nat, k: nat, schema: Json, v: Json)
    requires Loose(doc, n, k, schema, v) && Apart(doc, n, schema, v)
    ensures Settled(doc, n, schema, v)
    decreases n, 0
  {
    if schema.Obj? {
      var m := schema.fields;
      assert LooseObject(doc, n - 1, k, m, v);
      if "$ref" in m {
        assert LooseRef(doc, n - 1, k, m["$ref"], v);
        ApartIsSettled(doc, n - 1, k, Obj(Resolve(doc.root, m["$ref"].s).value), v);
      }
      EachIsSettled(doc, n - 1, k, Variants(m, "allOf"), v);
      EachIsSettled(doc, n - 1, k, Variants(m, "anyOf"), v);
      assert Has(m, "allOf") || Variants(m, "allOf") == [];
      if Has(m, "oneOf") {
        ApartIsOne(doc, n - 1, k, Variants(m, "oneOf"), v);
      }
    }
  }

  lemma {:induction false} EachIsSettled(doc: Document, n: nat, k: nat, xs: seq<Json>, v: Json)
    requires EachApart(doc, n, xs, v)
    ensures LooseAll(doc, n, k, xs, v) ==> SettledAll(doc, n, xs, v)
    ensures LooseAny(doc, n, k, xs, v) ==> SettledAny(doc, n, xs, v)
    decreases n, 1
  {
    forall i | 0 <= i < |xs| && Loose(doc, n, k, xs[i], v)
      ensures LooselySatisfies(doc, xs[i], v) && Settled(doc, n, xs[i], v)
    {
      assert LooselySatisfies(doc, xs[i], v);
      ApartIsSettled(doc, n, k, xs[i], v);
    }
  }

  lemma {:induction false} ApartIsOne(doc: Document, n: nat, k: nat, xs: seq<Json>, v: Json)
    requires LooseAny(doc, n, k, xs, v) && EachApart(doc, n, xs, v) && PairwiseApart(doc, xs, v)
    ensures SettledOne(doc, n, xs, v)
    decreases n, 2
  {
    var i :| 0 <= i < |xs| && Loose(doc, n, k, xs[i], v);
    assert LooselySatisfies(doc, xs[i], v);
    ApartIsSettled(doc, n, k, xs[i], v);
    SettledIsStrict(doc, n, xs[i], v);
    SatisfiedIsNotRejected(doc, xs[i], v);
    assert OthersRejected(doc, xs, i, v);
  }

  // ----- expansion and meaning -----

  /** Some branch accepts the value, at some depth of its sub-schemas. */
  ghost predicate Covered(doc: Document, bs: seq<Branch>, v: Json)
  {
    exists n: nat :: Covers(doc, n, bs, v)
  }

  /** A value is covered by the branches exactly when it satisfies the schema loosely. */
  lemma CoveredExactly(doc: Document, node: Node, v: Json)
    requires Expand(doc.root, node, [], 0).Some?
    ensures Covered(doc, Expand(doc.root, node, [], 0).value, v) <==> LooselySatisfies(doc, node.schema, v)
  {
    var bs, most := Expand(doc.root, node, [], 0).value, MAX_SCHEMA_DEPTH + 1;
    if k: nat :| Covers(doc, k, bs, v) {
      LooseExactly(doc, most, k, node, [], 0, v);
    }
    if n: nat, k: nat :| Loose(doc, n, k, node.schema, v) {
      var more := if n > most then n else most;
      LooseMore(doc, n, more, k, node.schema, v);
      LooseExactly(doc, more, k, node, [], 0, v);
    }
  }

  /** With nothing refused, expansion preserves meaning: no satisfying value is lost;
      what the branches admit is exactly what satisfies the schema with `oneOf` read as
      `anyOf`; the values gained are exactly those that leave a `oneOf` unsettled. None
      is gained that keeps every `oneOf` on its way apart, and none at all when the
      expansion meets no `oneOf`. */
  lemma ExpansionPreservesMeaning(doc: Document, node: Node, v: Json)
    requires Expand(doc.root, node, [], 0).Some?
    ensures var covered := Covered(doc, Expand(doc.root, node, [], 0).value, v);
            && (covered <==> LooselySatisfies(doc, node.schema, v))
            && (Satisfies(doc, node.schema, v) <==> covered && Settles(doc, node.schema, v))
            && (Apart(doc, MAX_SCHEMA_DEPTH + 1, node.schema, v) ==> (covered <==> Satisfies(doc, node.schema, v)))
            && (Unmet(doc.root, MAX_SCHEMA_DEPTH + 1, node.schema) ==> (covered <==> Satisfies(doc, node.schema, v)))
  {
    var bs, most := Expand(doc.root, node, [], 0).value, MAX_SCHEMA_DEPTH + 1;
    CoveredExactly(doc, node, v);
    StrictExactly(doc, node.schema, v);
    if Unmet(doc.root, most, node.schema) {
      UnmetIsApart(doc, most, node.schema, v);
    }
    if k: nat :| Apart(doc, most, node.schema, v) && Covers(doc, k, bs, v) {
      LooseExactly(doc, most, k, node, [], 0, v);
      ApartIsSettled(doc, most, k, node.schema, v);
    }
  }

  /** With `oneOf` the branches may accept more than the schema does: two equal
      variants accept every value between them, and `oneOf` of the two none. */
  lemma OneOfGainsValues(v: Json)
    ensures var doc := Document(TWICE, (f: Fields, w: Json) => true);
            && Expand(TWICE, Node(Obj(TWICE), []), [], 0).Some?
            && Covered(doc, Expand(TWICE, Node(Obj(TWICE), []), [], 0).value, v)
            && !Satisfies(doc, Obj(TWICE), v)
  {
    var doc := Document(TWICE, (f: Fields, w: Json) => true);
    TwiceExpands();
    var bs := Expand(TWICE, Node(Obj(TWICE), []), [], 0).value;
    assert BranchAccepts(doc, 0, bs[0], v);
    assert Covers(doc, 0, bs, v);
    TwiceIsNotSatisfied(doc, v);
  }

  lemma TwiceIsNotSatisfied(doc: Document, v: Json)
    ensures !Satisfies(doc, Obj(TWICE), v)
  {
    if n: nat :| Accepts(doc, n, Obj(TWICE), v) {
      assert ExactlyOne(doc, n - 1, Variants(TWICE, "oneOf"), v);
      NeverExactlyOne(doc, n - 1, Obj(map[]), v);
    }
  }

  const TWICE: Fields := map["oneOf" := Arr([Obj(map[]), Obj(map[])])]

  const NESTED: Fields := map["properties" := Obj(map["a" := Obj(TWICE)])]

  /** A `oneOf` below `properties` is not met by the expansion, which then is exact. */
  lemma NestedOneOfGainsNothing(doc: Document, v: Json)
    requires doc.root == NESTED
    ensures Expand(NESTED, Node(Obj(NESTED), []), [], 0).Some?
    ensures Covered(doc, Expand(NESTED, Node(Obj(NESTED), []), [], 0).value, v) <==> Satisfies(doc, Obj(NESTED), v)
  {
    var node := Node(Obj(NESTED), []);
    var direct := [[Fragment(Direct(NESTED), [])]];
    assert "$ref" !in NESTED && "allOf" !in NESTED && "anyOf" !in NESTED && "oneOf" !in NESTED;
    assert Variants(NESTED, "allOf") == [];
    assert ExpandAll(NESTED, Variants(NESTED, "allOf"), 0, [], [], 0, direct) == Some(direct);
    assert Expand(NESTED, node, [], 0) == Some(direct);
    assert Unmet(NESTED, MAX_SCHEMA_DEPTH + 1, node.schema);
    ExpansionPreservesMeaning(doc, node, v);
  }

  lemma TwiceExpands()
    ensures var bs := Expand(TWICE, Node(Obj(TWICE), []), [], 0);
            && bs.Some? && |bs.value| == 2
            && forall i, j :: 0 <= i < |bs.value| && 0 <= j < |bs.value[i]| ==> bs.value[i][j].schema == map[]
  {
    var variants := [Obj(map[]), Obj(map[])];
    var zero, one := VariantPath([], "oneOf", 0), VariantPath([], "oneOf", 1);
    OpenExpands(TWICE, zero);
    OpenExpands(TWICE, one);
    assert ExpandAny(TWICE, variants, 2, "oneOf", [], [], 0) == Some([]);
    assert ExpandAny(TWICE, variants, 1, "oneOf", [], [], 0) == Some([[Fragment(map[], one)]] + []);
    var any := ExpandAny(TWICE, variants, 0, "oneOf", [], [], 0);
    assert any == Some([[Fragment(map[], zero)]] + ([[Fragment(map[], one)]] + []));
    assert Direct(TWICE) == map[];
    var direct := [[Fragment(map[], [])]];
    assert ExpandAll(TWICE, Variants(TWICE, "allOf"), 0, [], [], 0, direct) == Some(direct);
    assert Expand(TWICE, Node(Obj(TWICE), []), [], 0) == CrossOption(Some(direct), any);
    assert Product(direct[1..], any.value) == [];
    assert Product(direct, any.value) == Extend(direct[0], any.value) + [];
  }

  lemma NeverExactlyOne(doc: Document, n: nat, x: Json, v: Json)
    ensures !ExactlyOne(doc, n, [x, x], v)
  {
    VerdictConsistent(doc, n, x, v);
    var xs := [x, x];
    assert AllReject(doc, n, xs[1..], v) ==> Rejects(doc, n, xs[1..][0], v);
    assert AllReject(doc, n, xs[..1], v) ==> Rejects(doc, n, xs[..1][0], v);
  }

  lemma OpenExpands(root: Fields, path: Path)
    ensures Expand(root, Node(Obj(map[]), path), [], 1) == Some([[Fragment(map[], path)]])
  {
    var m: Fields := map[];
    assert Direct(m) == map[];
    assert Variants(m, "allOf") == [];
  }
}
