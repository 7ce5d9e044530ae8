/** What it means for a JSON value to satisfy a schema: the logic applicators of
    section 10.2.1 and `$ref` of section 8.2.3.1 of JSON Schema 2020-12 Core,
    together with the assertion keywords the reviewer reads. Every other keyword
    is an arbitrary further condition, given by `Document.extra`.

    Evaluation is indexed by a depth, so that schemas whose references are cyclic
    have a meaning too: a value satisfies a schema when some depth accepts it. */
module SchemaSemantics {
  import opened Common
  import opened Json
  import opened JsonPointer

  datatype Document = Document(root: Fields, extra: (Fields, Json) -> bool)

  const NOT_DIRECT := {"allOf", "anyOf", "oneOf", "$defs", "definitions", "$ref"}

  /** The keywords of a schema object that constrain the value directly. */
  function Direct(m: Fields): Fields
  {
    map k | k in m && k !in NOT_DIRECT :: m[k]
  }

  /** An applicator that is present; a JSON null counts as absent. */
  predicate Has(m: Fields, keyword: string) { keyword in m && m[keyword] != Null }

  function Variants(m: Fields, keyword: string): seq<Json>
  {
    if keyword in m && m[keyword].Arr? then m[keyword].items else []
  }

  // ----- assertion keywords -----

  predicate HasType(name: string, v: Json)
  {
    match v
    case Null => name == "null"
    case Bool(_) => name == "boolean"
    case Int(_) => name == "integer" || name == "number"
    case Float(_) => name == "number"
    case Str(_) => name == "string"
    case Arr(_) => name == "array"
    case Obj(_) => name == "object"
  }

  predicate TypeAllows(t: Json, v: Json)
  {
    match t
    case Str(name) => HasType(name, v)
    case Arr(names) => exists i :: 0 <= i < |names| && names[i].Str? && HasType(names[i].s, v)
    case _ => false
  }

  function Properties(f: Fields): Fields
  {
    if "properties" in f && f["properties"].Obj? then f["properties"].fields else map[]
  }

  predicate AllText(items: seq<Json>) { forall i :: 0 <= i < |items| ==> items[i].Str? }

  function RequiredOf(f: Fields): set<string>
  {
    if "required" in f && f["required"].Arr? && AllText(f["required"].items) then
      set i | 0 <= i < |f["required"].items| :: f["required"].items[i].s
    else {}
  }

  predicate IsClosed(f: Fields)
  {
    "additionalProperties" in f && f["additionalProperties"] == Bool(false)
  }

  predicate NoPatterns(f: Fields)
  {
    "patternProperties" in f ==> f["patternProperties"] == Obj(map[])
  }

  /** The assertions of one schema object that look at no sub-schema. */
  predicate Asserted(f: Fields, v: Json)
  {
    && ("type" in f ==> TypeAllows(f["type"], v))
    && ("enum" in f && f["enum"].Arr? ==> v in f["enum"].items)
    && ("const" in f ==> v == f["const"])
    && (v.Obj? ==> RequiredOf(f) <= v.fields.Keys)
    && (v.Obj? && IsClosed(f) && NoPatterns(f) ==> v.fields.Keys <= Properties(f).Keys)
    && (v.Arr? && "maxItems" in f && f["maxItems"].Int? ==> |v.items| <= f["maxItems"].i)
  }

  // ----- acceptance and rejection by depth -----

  ghost predicate Accepts(doc: Document, n: nat, schema: Json, v: Json)
    decreases n, 0
  {
    n > 0 &&
    match schema
    case Bool(b) => b
    case Obj(m) =>
      && FragmentAccepts(doc, n - 1, Direct(m), v)
      && ("$ref" in m ==> RefAccepts(doc, n - 1, m["$ref"], v))
      && (Has(m, "allOf") ==> AllAccept(doc, n - 1, Variants(m, "allOf"), v))
      && (Has(m, "anyOf") ==> SomeAccepts(doc, n - 1, Variants(m, "anyOf"), v))
      && (Has(m, "oneOf") ==> ExactlyOne(doc, n - 1, Variants(m, "oneOf"), v))
    case _ => false
  }

  ghost predicate Rejects(doc: Document, n: nat, schema: Json, v: Json)
    decreases n, 0
  {
    n > 0 &&
    match schema
    case Bool(b) => !b
    case Obj(m) =>
      || FragmentRejects(doc, n - 1, Direct(m), v)
      || ("$ref" in m && RefRejects(doc, n - 1, m["$ref"], v))
      || (Has(m, "allOf") && SomeRejects(doc, n - 1, Variants(m, "allOf"), v))
      || (Has(m, "anyOf") && AllReject(doc, n - 1, Variants(m, "anyOf"), v))
      || (Has(m, "oneOf") && NotExactlyOne(doc, n - 1, Variants(m, "oneOf"), v))
    case _ => false
  }

  ghost predicate RefAccepts(doc: Document, n: nat, reference: Json, v: Json)
    decreases n, 1
  {
    reference.Str? && Resolve(doc.root, reference.s).Some? &&
    Accepts(doc, n, Obj(Resolve(doc.root, reference.s).value), v)
  }

  ghost predicate RefRejects(doc: Document, n: nat, reference: Json, v: Json)
    decreases n, 1
  {
    reference.Str? && Resolve(doc.root, reference.s).Some? &&
    Rejects(doc, n, Obj(Resolve(doc.root, reference.s).value), v)
  }

  ghost predicate AllAccept(doc: Document, n: nat, xs: seq<Json>, v: Json)
    decreases n, 1
  {
    forall i :: 0 <= i < |xs| ==> Accepts(doc, n, xs[i], v)
  }

  ghost predicate SomeAccepts(doc: Document, n: nat, xs: seq<Json>, v: Json)
    decreases n, 1
  {
    exists i :: 0 <= i < |xs| && Accepts(doc, n, xs[i], v)
  }

  ghost predicate AllReject(doc: Document, n: nat, xs: seq<Json>, v: Json)
    decreases n, 1
  {
    forall i :: 0 <= i < |xs| ==> Rejects(doc, n, xs[i], v)
  }

  ghost predicate SomeRejects(doc: Document, n: nat, xs: seq<Json>, v: Json)
    decreases n, 1
  {
    exists i :: 0 <= i < |xs| && Rejects(doc, n, xs[i], v)
  }

  ghost predicate ExactlyOne(doc: Document, n: nat, xs: seq<Json>, v: Json)
    decreases n, 2
  {
    exists i :: 0 <= i < |xs| && Accepts(doc, n, xs[i], v) &&
      AllReject(doc, n, xs[..i], v) && AllReject(doc, n, xs[i + 1..], v)
  }

  ghost predicate NotExactlyOne(doc: Document, n: nat, xs: seq<Json>, v: Json)
    decreases n, 2
  {
    || AllReject(doc, n, xs, v)
    || (exists i :: 0 <= i < |xs| && Accepts(doc, n, xs[i], v) && SomeAccepts(doc, n, xs[i + 1..], v))
  }

  /** One schema object without its applicators accepts the value. */
  ghost predicate FragmentAccepts(doc: Document, n: nat, f: Fields, v: Json)
    decreases n, 1
  {
    && Asserted(f, v) && doc.extra(f, v)
    && (v.Obj? ==> forall k :: k in v.fields && k in Properties(f) ==>
                     Accepts(doc, n, Properties(f)[k], v.fields[k]))
    && (v.Arr? && "items" in f ==> forall i :: 0 <= i < |v.items| ==>
                                     Accepts(doc, n, f["items"], v.items[i]))
  }

  ghost predicate FragmentRejects(doc: Document, n: nat, f: Fields, v: Json)
    decreases n, 1
  {
    || !Asserted(f, v) || !doc.extra(f, v)
    || (v.Obj? && exists k :: (k in v.fields && k in Properties(f) &&
                               Rejects(doc, n, Properties(f)[k], v.fields[k])))
    || (v.Arr? && "items" in f && exists i :: (0 <= i < |v.items| &&
                                               Rejects(doc, n, f["items"], v.items[i])))
  }

  /** The value satisfies the schema. */
  ghost predicate Satisfies(doc: Document, schema: Json, v: Json)
  {
    exists n: nat :: Accepts(doc, n, schema, v)
  }

  // ----- the meaning is well behaved -----

  /** A verdict, once reached, stays at every greater depth. */
  lemma {:induction false} VerdictStable(doc: Document, n: nat, k: nat, schema: Json, v: Json)
    requires n <= k
    ensures Accepts(doc, n, schema, v) ==> Accepts(doc, k, schema, v)
    ensures Rejects(doc, n, schema, v) ==> Rejects(doc, k, schema, v)
    decreases n, 0
  {
    if n > 0 && schema.Obj? {
      PartsStable(doc, n - 1, k - 1, schema.fields, v);
    }
  }

  /** The same for every part that a schema object's verdict is made of. */
  lemma {:induction false} PartsStable(doc: Document, n: nat, k: nat, m: Fields, v: Json)
    requires n <= k
    ensures FragmentAccepts(doc, n, Direct(m), v) ==> FragmentAccepts(doc, k, Direct(m), v)
    ensures FragmentRejects(doc, n, Direct(m), v) ==> FragmentRejects(doc, k, Direct(m), v)
    ensures "$ref" in m ==>
              && (RefAccepts(doc, n, m["$ref"], v) ==> RefAccepts(doc, k, m["$ref"], v))
              && (RefRejects(doc, n, m["$ref"], v) ==> RefRejects(doc, k, m["$ref"], v))
    ensures AllAccept(doc, n, Variants(m, "allOf"), v) ==> AllAccept(doc, k, Variants(m, "allOf"), v)
    ensures SomeRejects(doc, n, Variants(m, "allOf"), v) ==> SomeRejects(doc, k, Variants(m, "allOf"), v)
    ensures SomeAccepts(doc, n, Variants(m, "anyOf"), v) ==> SomeAccepts(doc, k, Variants(m, "anyOf"), v)
    ensures AllReject(doc, n, Variants(m, "anyOf"), v) ==> AllReject(doc, k, Variants(m, "anyOf"), v)
    ensures ExactlyOne(doc, n, Variants(m, "oneOf"), v) ==> ExactlyOne(doc, k, Variants(m, "oneOf"), v)
    ensures NotExactlyOne(doc, n, Variants(m, "oneOf"), v) ==> NotExactlyOne(doc, k, Variants(m, "oneOf"), v)
    decreases n, 5
  {
    FragmentStable(doc, n, k, Direct(m), v);
    if "$ref" in m {
      RefStable(doc, n, k, m["$ref"], v);
    }
    ListStable(doc, n, k, Variants(m, "allOf"), v);
    ListStable(doc, n, k, Variants(m, "anyOf"), v);
    OneStable(doc, n, k, Variants(m, "oneOf"), v);
  }

  lemma {:induction false} RefStable(doc: Document, n: nat, k: nat, reference: Json, v: Json)
    requires n <= k
    ensures RefAccepts(doc, n, reference, v) ==> RefAccepts(doc, k, reference, v)
    ensures RefRejects(doc, n, reference, v) ==> RefRejects(doc, k, reference, v)
    decreases n, 1
  {
    if reference.Str? && Resolve(doc.root, reference.s).Some? {
      VerdictStable(doc, n, k, Obj(Resolve(doc.root, reference.s).value), v);
    }
  }

  lemma {:induction false} ListStable(doc: Document, n: nat, k: nat, xs: seq<Json>, v: Json)
    requires n <= k
    ensures AllAccept(doc, n, xs, v) ==> AllAccept(doc, k, xs, v)
    ensures SomeAccepts(doc, n, xs, v) ==> SomeAccepts(doc, k, xs, v)
    ensures AllReject(doc, n, xs, v) ==> AllReject(doc, k, xs, v)
    ensures SomeRejects(doc, n, xs, v) ==> SomeRejects(doc, k, xs, v)
    decreases n, 1
  {
    forall i | 0 <= i < |xs|
      ensures Accepts(doc, n, xs[i], v) ==> Accepts(doc, k, xs[i], v)
      ensures Rejects(doc, n, xs[i], v) ==> Rejects(doc, k, xs[i], v)
    {
      VerdictStable(doc, n, k, xs[i], v);
    }
  }

  lemma {:induction false} OneStable(doc: Document, n: nat, k: nat, xs: seq<Json>, v: Json)
    requires n <= k
    ensures ExactlyOne(doc, n, xs, v) ==> ExactlyOne(doc, k, xs, v)
    ensures NotExactlyOne(doc, n, xs, v) ==> NotExactlyOne(doc, k, xs, v)
    decreases n, 4
  {
    if ExactlyOne(doc, n, xs, v) {
      ExactlyOneStable(doc, n, k, xs, v);
    }
    if NotExactlyOne(doc, n, xs, v) {
      NotExactlyOneStable(doc, n, k, xs, v);
    }
  }

  lemma {:induction false} ExactlyOneStable(doc: Document, n: nat, k: nat, xs: seq<Json>, v: Json)
    requires n <= k && ExactlyOne(doc, n, xs, v)
    ensures ExactlyOne(doc, k, xs, v)
    decreases n, 3
  {
    var i :| 0 <= i < |xs| && Accepts(doc, n, xs[i], v) &&
      AllReject(doc, n, xs[..i], v) && AllReject(doc, n, xs[i + 1..], v);
    OneAt(doc, n, k, xs, i, v);
  }

  lemma {:induction false} NotExactlyOneStable(doc: Document, n: nat, k: nat, xs: seq<Json>, v: Json)
    requires n <= k && NotExactlyOne(doc, n, xs, v)
    ensures NotExactlyOne(doc, k, xs, v)
    decreases n, 3
  {
    if AllReject(doc, n, xs, v) {
      ListStable(doc, n, k, xs, v);
    } else {
      var i :| 0 <= i < |xs| && Accepts(doc, n, xs[i], v) && SomeAccepts(doc, n, xs[i + 1..], v);
      OneAt(doc, n, k, xs, i, v);
    }
  }

  lemma {:induction false} OneAt(doc: Document, n: nat, k: nat, xs: seq<Json>, i: nat, v: Json)
    requires n <= k && i < |xs|
    ensures Accepts(doc, n, xs[i], v) ==> Accepts(doc, k, xs[i], v)
    ensures AllReject(doc, n, xs[..i], v) ==> AllReject(doc, k, xs[..i], v)
    ensures AllReject(doc, n, xs[i + 1..], v) ==> AllReject(doc, k, xs[i + 1..], v)
    ensures SomeAccepts(doc, n, xs[i + 1..], v) ==> SomeAccepts(doc, k, xs[i + 1..], v)
    decreases n, 2
  {
    VerdictStable(doc, n, k, xs[i], v);
    ListStable(doc, n, k, xs[..i], v);
    ListStable(doc, n, k, xs[i + 1..], v);
  }

  lemma {:induction false} FragmentStable(doc: Document, n: nat, k: nat, f: Fields, v: Json)
    requires n <= k
    ensures FragmentAccepts(doc, n, f, v) ==> FragmentAccepts(doc, k, f, v)
    ensures FragmentRejects(doc, n, f, v) ==> FragmentRejects(doc, k, f, v)
    decreases n, 2
  {
    if v.Obj? {
      forall key | key in v.fields && key in Properties(f)
        ensures Accepts(doc, n, Properties(f)[key], v.fields[key]) ==>
                Accepts(doc, k, Properties(f)[key], v.fields[key])
        ensures Rejects(doc, n, Properties(f)[key], v.fields[key]) ==>
                Rejects(doc, k, Properties(f)[key], v.fields[key])
      {
        VerdictStable(doc, n, k, Properties(f)[key], v.fields[key]);
      }
    }
    if v.Arr? && "items" in f {
      forall i | 0 <= i < |v.items|
        ensures Accepts(doc, n, f["items"], v.items[i]) ==> Accepts(doc, k, f["items"], v.items[i])
        ensures Rejects(doc, n, f["items"], v.items[i]) ==> Rejects(doc, k, f["items"], v.items[i])
      {
        VerdictStable(doc, n, k, f["items"], v.items[i]);
      }
    }
  }

  /** No value is both accepted and rejected. */
  lemma {:induction false} VerdictConsistent(doc: Document, n: nat, schema: Json, v: Json)
    ensures !(Accepts(doc, n, schema, v) && Rejects(doc, n, schema, v))
    decreases n, 0
  {
    if n > 0 && schema.Obj? && Accepts(doc, n, schema, v) {
      var m := schema.fields;
      FragmentConsistent(doc, n - 1, Direct(m), v);
      if "$ref" in m {
        RefConsistent(doc, n - 1, m["$ref"], v);
      }
      ListConsistent(doc, n - 1, Variants(m, "allOf"), v);
      ListConsistent(doc, n - 1, Variants(m, "anyOf"), v);
      OneConsistent(doc, n - 1, Variants(m, "oneOf"), v);
    }
  }

  lemma {:induction false} RefConsistent(doc: Document, n: nat, reference: Json, v: Json)
    ensures !(RefAccepts(doc, n, reference, v) && RefRejects(doc, n, reference, v))
    decreases n, 1
  {
    if RefAccepts(doc, n, reference, v) {
      VerdictConsistent(doc, n, Obj(Resolve(doc.root, reference.s).value), v);
    }
  }

  lemma {:induction false} ListConsistent(doc: Document, n: nat, xs: seq<Json>, v: Json)
    ensures AllAccept(doc, n, xs, v) ==> !SomeRejects(doc, n, xs, v)
    ensures SomeAccepts(doc, n, xs, v) ==> !AllReject(doc, n, xs, v)
    decreases n, 1
  {
    forall i | 0 <= i < |xs|
      ensures !(Accepts(doc, n, xs[i], v) && Rejects(doc, n, xs[i], v))
    {
      VerdictConsistent(doc, n, xs[i], v);
    }
  }

  lemma {:induction false} OneConsistent(doc: Document, n: nat, xs: seq<Json>, v: Json)
    ensures !(ExactlyOne(doc, n, xs, v) && NotExactlyOne(doc, n, xs, v))
    decreases n, 2
  {
    if ExactlyOne(doc, n, xs, v) {
      var i :| 0 <= i < |xs| && Accepts(doc, n, xs[i], v) &&
        AllReject(doc, n, xs[..i], v) && AllReject(doc, n, xs[i + 1..], v);
      ListConsistent(doc, n, xs, v);
      forall j | 0 <= j < |xs| ensures Accepts(doc, n, xs[j], v) ==> j == i {
        VerdictConsistent(doc, n, xs[j], v);
        if j != i {
          RejectedAt(doc, n, xs, i, j, v);
        }
      }
      LaterAccepted(doc, n, xs, i, v);
    }
  }

  lemma RejectedAt(doc: Document, n: nat, xs: seq<Json>, i: nat, j: nat, v: Json)
    requires i < |xs| && j < |xs| && j != i
    requires AllReject(doc, n, xs[..i], v) && AllReject(doc, n, xs[i + 1..], v)
    ensures Rejects(doc, n, xs[j], v)
  {
    if j < i {
      assert xs[..i][j] == xs[j];
    } else {
      assert xs[i + 1..][j - i - 1] == xs[j];
    }
  }

  /** No two positions accept when only one does. */
  lemma LaterAccepted(doc: Document, n: nat, xs: seq<Json>, i: nat, v: Json)
    requires i < |xs| && forall j :: 0 <= j < |xs| && Accepts(doc, n, xs[j], v) ==> j == i
    ensures !exists j :: 0 <= j < |xs| && Accepts(doc, n, xs[j], v) && SomeAccepts(doc, n, xs[j + 1..], v)
  {
    if j :| 0 <= j < |xs| && Accepts(doc, n, xs[j], v) && SomeAccepts(doc, n, xs[j + 1..], v) {
      var k :| 0 <= k < |xs[j + 1..]| && Accepts(doc, n, xs[j + 1..][k], v);
      assert xs[j + 1..][k] == xs[j + 1 + k];
    }
  }

  lemma {:induction false} FragmentConsistent(doc: Document, n: nat, f: Fields, v: Json)
    ensures !(FragmentAccepts(doc, n, f, v) && FragmentRejects(doc, n, f, v))
    decreases n, 1
  {
    if FragmentAccepts(doc, n, f, v) {
      if v.Obj? {
        forall k | k in v.fields && k in Properties(f)
          ensures !Rejects(doc, n, Properties(f)[k], v.fields[k])
        {
          VerdictConsistent(doc, n, Properties(f)[k], v.fields[k]);
        }
      }
      if v.Arr? && "items" in f {
        forall i | 0 <= i < |v.items| ensures !Rejects(doc, n, f["items"], v.items[i]) {
          VerdictConsistent(doc, n, f["items"], v.items[i]);
        }
      }
    }
  }
}
