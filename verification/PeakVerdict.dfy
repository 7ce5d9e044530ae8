/** The pass or fail verdict on a provider response, and its independence of the
    order in which lists and mappings present their parts. */
module PeakVerdict {
  import opened Common
  import opened Json
  import opened PeakResponse
  import opened StableSort

  // ----- the verdict -----

  function Strip(s: string): string
  {
    if s == "" then s
    else if IsSpace(s[0]) then Strip(s[1..])
    else if IsSpace(s[|s| - 1]) then Strip(s[..|s| - 1])
    else s
  }

  /** `str(code or "").strip() == "200"`: only the integer 200 and padded texts. */
  predicate PeakSuccess(m: Fields)
  {
    "resCode" in m &&
    match m["resCode"]
    case Int(i) => i == 200
    case Str(s) => Strip(s) == "200"
    case _ => false
  }

  predicate IsProviderNode(m: Fields) { "resCode" in m }

  /** The response fails: it is too large or too deep, no provider answered, or a
      provider answered without success. */
  ghost predicate Failed(payload: Json)
  {
    var nodes := Preorder(payload, ROOT);
    || |nodes| > MAX_NODES || TooDeep(payload, ROOT)
    || (forall m :: m in nodes ==> !IsProviderNode(m))
    || (exists m :: m in nodes && IsProviderNode(m) && !PeakSuccess(m))
  }

  method PeakResponseFailed(payload: Json) returns (failed: bool)
    ensures failed <==> Failed(payload)
  {
    var nodes, truncated := PeakResponseNodes(payload);
    failed := truncated || (forall m :: m in nodes ==> !IsProviderNode(m))
              || exists m :: m in nodes && IsProviderNode(m) && !PeakSuccess(m);
  }

  // ----- marks -----

  datatype Mark = Plain | Good | Bad

  function MarkOf(m: Fields): Mark
  {
    if !IsProviderNode(m) then Plain else if PeakSuccess(m) then Good else Bad
  }

  function Marks(nodes: seq<Fields>): multiset<Mark>
  {
    if nodes == [] then multiset{} else multiset{MarkOf(nodes[0])} + Marks(nodes[1..])
  }

  lemma {:induction false} MarksConcat(a: seq<Fields>, b: seq<Fields>)
    ensures Marks(a + b) == Marks(a) + Marks(b)
  {
    if a == [] {
      assert a + b == b;
    } else {
      assert (a + b)[1..] == a[1..] + b;
      MarksConcat(a[1..], b);
    }
  }

  lemma {:induction false} MarksOf(nodes: seq<Fields>)
    ensures |Marks(nodes)| == |nodes|
    ensures forall k :: k in Marks(nodes) <==> exists m :: m in nodes && MarkOf(m) == k
  {
    if nodes != [] {
      MarksOf(nodes[1..]);
      assert nodes == [nodes[0]] + nodes[1..];
    }
  }

  /** The verdict reads only the marks and the depth. */
  lemma FailedByMarks(payload: Json)
    ensures Failed(payload) <==>
            var marks := Marks(Preorder(payload, ROOT));
            |marks| > MAX_NODES || TooDeep(payload, ROOT) || (Good !in marks && Bad !in marks) || Bad in marks
  {
    MarksOf(Preorder(payload, ROOT));
    assert forall m :: IsProviderNode(m) <==> MarkOf(m) in {Good, Bad};
  }

  // ----- the same response in another order -----

  /** `b` is `a` with lists permuted at any depth; mappings are unordered anyway. */
  ghost predicate Shuffled(a: Json, b: Json)
    decreases a
  {
    match a
    case Obj(m) => b.Obj? && m.Keys == b.fields.Keys && forall k :: k in m ==> Shuffled(m[k], b.fields[k])
    case Arr(items) => b.Arr? && ListShuffled(items, b.items)
    case _ => a == b
  }

  ghost predicate ListShuffled(xs: seq<Json>, ys: seq<Json>)
    decreases xs
  {
    exists zs: seq<Json> ::
      multiset(zs) == multiset(ys) && |zs| == |xs| && forall i :: 0 <= i < |xs| ==> Shuffled(xs[i], zs[i])
  }

  ghost predicate Pairwise(xs: seq<Json>, zs: seq<Json>)
  {
    |xs| == |zs| && forall i :: 0 <= i < |xs| ==> Shuffled(xs[i], zs[i])
  }

  lemma {:induction false} ContainersPairwise(xs: seq<Json>, zs: seq<Json>)
    requires Pairwise(xs, zs)
    ensures Pairwise(Containers(xs), Containers(zs))
  {
    if xs != [] {
      assert Shuffled(xs[0], zs[0]);
      ContainersPairwise(xs[1..], zs[1..]);
    }
  }

  lemma {:induction false} ProvidersPairwise(xs: seq<Json>, zs: seq<Json>)
    requires Pairwise(xs, zs)
    ensures Pairwise(Providers(xs), Providers(zs))
  {
    if xs != [] {
      assert Shuffled(xs[0], zs[0]);
      ProvidersPairwise(xs[1..], zs[1..]);
    }
  }

  /** A sum of bags over a list depends on the list only as a multiset. */
  function BagSum<T, U>(f: T -> multiset<U>, s: seq<T>): multiset<U>
  {
    if s == [] then multiset{} else f(s[0]) + BagSum(f, s[1..])
  }

  lemma {:induction false} BagSumConcat<T, U>(f: T -> multiset<U>, a: seq<T>, b: seq<T>)
    ensures BagSum(f, a + b) == BagSum(f, a) + BagSum(f, b)
  {
    if a == [] {
      assert a + b == b;
    } else {
      assert (a + b)[1..] == a[1..] + b;
      BagSumConcat(f, a[1..], b);
    }
  }

  lemma TakeOut<T>(a: seq<T>, b: seq<T>, i: nat)
    requires multiset(a) == multiset(b) && a != [] && i < |b| && b[i] == a[0]
    ensures multiset(a[1..]) == multiset(b[..i] + b[i + 1..])
  {
    assert a == [a[0]] + a[1..];
    assert b == b[..i] + [b[i]] + b[i + 1..];
    assert multiset(b) == multiset(b[..i] + b[i + 1..]) + multiset{b[i]};
    assert multiset(a) == multiset(a[1..]) + multiset{a[0]};
    assert multiset(a[1..]) == multiset(a) - multiset{a[0]};
    assert multiset(b[..i] + b[i + 1..]) == multiset(b) - multiset{b[i]};
  }

  lemma BagSumAt<T, U>(f: T -> multiset<U>, b: seq<T>, i: nat)
    requires i < |b|
    ensures BagSum(f, b) == f(b[i]) + BagSum(f, b[..i] + b[i + 1..])
  {
    var tail := b[i..];
    assert b == b[..i] + tail && tail[0] == b[i] && tail[1..] == b[i + 1..];
    BagSumConcat(f, b[..i], b[i + 1..]);
    BagSumConcat(f, b[..i], tail);
  }

  lemma {:induction false} BagSumPermuted<T, U>(f: T -> multiset<U>, a: seq<T>, b: seq<T>)
    requires multiset(a) == multiset(b)
    ensures BagSum(f, a) == BagSum(f, b)
  {
    if a == [] {
      assert |b| == |multiset(b)| == 0;
    } else {
      assert a[0] in multiset(b);
      var i :| 0 <= i < |b| && b[i] == a[0];
      TakeOut(a, b, i);
      BagSumPermuted(f, a[1..], b[..i] + b[i + 1..]);
      BagSumAt(f, b, i);
    }
  }

  lemma {:induction false} ContainersAsSum(items: seq<Json>)
    ensures multiset(Containers(items)) ==
            BagSum((x: Json) => if IsContainer(x) then multiset{x} else multiset{}, items)
  {
    if items != [] {
      ContainersAsSum(items[1..]);
    }
  }

  lemma ContainersPermuted(a: seq<Json>, b: seq<Json>)
    requires multiset(a) == multiset(b)
    ensures multiset(Containers(a)) == multiset(Containers(b))
  {
    var f := (x: Json) => if IsContainer(x) then multiset{x} else multiset{};
    ContainersAsSum(a);
    ContainersAsSum(b);
    BagSumPermuted(f, a, b);
  }

  /** Shuffled responses have shuffled children everywhere. */
  lemma ChildrenShuffled(a: Json, b: Json, depth: nat) returns (zs: seq<Json>)
    requires Shuffled(a, b)
    ensures Pairwise(Children(a, depth), zs) && multiset(zs) == multiset(Children(b, depth))
  {
    zs := Children(b, depth);
    match a {
      case Obj(m) =>
        assert Pairwise(Values(m), Values(b.fields)) by {
          var keys := SortedKeys(m.Keys);
          assert forall i :: 0 <= i < |keys| ==> keys[i] in m;
        }
        ProvidersPairwise(Values(m), Values(b.fields));
        ContainersPairwise(Values(m), Values(b.fields));
        ContainersPairwise(Providers(Values(m)), Providers(Values(b.fields)));
      case Arr(items) =>
        var ws :| multiset(ws) == multiset(b.items) && |ws| == |items| &&
          forall i :: 0 <= i < |items| ==> Shuffled(items[i], ws[i]);
        ContainersPairwise(items, ws);
        ContainersPermuted(ws, b.items);
        zs := Containers(ws);
      case _ =>
    }
  }

  lemma {:induction false} AllAsSum(items: seq<Json>, depth: nat)
    requires depth <= MAX_DEPTH
    ensures Marks(PreorderAll(items, depth)) == BagSum((x: Json) => Marks(Preorder(x, depth)), items)
    decreases |items|
  {
    if items != [] {
      AllAsSum(items[1..], depth);
      MarksConcat(Preorder(items[0], depth), PreorderAll(items[1..], depth));
    }
  }

  lemma OwnShuffled(a: Json, b: Json)
    requires Shuffled(a, b)
    ensures Marks(Own(a)) == Marks(Own(b))
  {
    if a.Obj? {
      var m, n := a.fields, b.fields;
      assert "resCode" in m ==> Shuffled(m["resCode"], n["resCode"]);
      assert MarkOf(m) == MarkOf(n);
    }
  }

  lemma MarksBelow(v: Json, depth: nat, children: seq<Json>)
    requires depth < MAX_DEPTH && children == Children(v, depth)
    ensures Marks(Preorder(v, depth)) == Marks(Own(v)) + Marks(PreorderAll(children, depth + 1))
  {
    Unfolded(v, depth, children);
    MarksConcat(Own(v), PreorderAll(children, depth + 1));
  }

  lemma MarksPermuted(zs: seq<Json>, ys: seq<Json>, depth: nat)
    requires multiset(zs) == multiset(ys) && depth <= MAX_DEPTH
    ensures Marks(PreorderAll(zs, depth)) == Marks(PreorderAll(ys, depth))
  {
    AllAsSum(zs, depth);
    AllAsSum(ys, depth);
    BagSumPermuted((x: Json) => Marks(Preorder(x, depth)), zs, ys);
  }

  lemma AtLimitMarks(v: Json, depth: nat)
    requires depth >= MAX_DEPTH
    ensures Marks(Preorder(v, depth)) == Marks(Own(v)) && (TooDeep(v, depth) <==> |Children(v, depth)| > 0)
  {
    AtLimit(v, depth);
  }

  /** Shuffling keeps the marks and the depth of everything below. */
  lemma {:induction false} ShuffleKeepsMarks(a: Json, b: Json, depth: nat)
    requires Shuffled(a, b)
    ensures Marks(Preorder(a, depth)) == Marks(Preorder(b, depth))
    ensures TooDeep(a, depth) <==> TooDeep(b, depth)
    decreases MAX_DEPTH - depth, 1
  {
    OwnShuffled(a, b);
    var zs := ChildrenShuffled(a, b, depth);
    if depth >= MAX_DEPTH {
      SameElements(zs, Children(b, depth));
      AtLimitMarks(a, depth);
      AtLimitMarks(b, depth);
    } else {
      PairwiseKeepsMarks(Children(a, depth), zs, depth + 1);
      MarksPermuted(zs, Children(b, depth), depth + 1);
      CombineMarks(a, b, depth);
      CombineDepth(a, b, depth, zs);
    }
  }

  lemma MarksOfParts(v: Json, depth: nat, own: multiset<Mark>, below: multiset<Mark>)
    requires depth < MAX_DEPTH && Marks(Own(v)) == own
    requires Marks(PreorderAll(Children(v, depth), depth + 1)) == below
    ensures Marks(Preorder(v, depth)) == own + below
  {
    MarksBelow(v, depth, Children(v, depth));
  }

  lemma CombineMarks(a: Json, b: Json, depth: nat)
    requires depth < MAX_DEPTH && Marks(Own(a)) == Marks(Own(b))
    requires Marks(PreorderAll(Children(a, depth), depth + 1)) == Marks(PreorderAll(Children(b, depth), depth + 1))
    ensures Marks(Preorder(a, depth)) == Marks(Preorder(b, depth))
  {
    var own, below := Marks(Own(b)), Marks(PreorderAll(Children(b, depth), depth + 1));
    MarksOfParts(a, depth, own, below);
    MarksOfParts(b, depth, own, below);
  }

  lemma CombineDepth(a: Json, b: Json, depth: nat, zs: seq<Json>)
    requires depth < MAX_DEPTH
    requires |zs| == |Children(a, depth)| && multiset(zs) == multiset(Children(b, depth))
    requires forall i :: 0 <= i < |zs| ==> (TooDeep(Children(a, depth)[i], depth + 1) <==> TooDeep(zs[i], depth + 1))
    ensures TooDeep(a, depth) <==> TooDeep(b, depth)
  {
    SameElements(zs, Children(b, depth));
    DeepMembers(a, zs, depth);
    DeepMembers(b, Children(b, depth), depth);
  }

  lemma DeepMembers(v: Json, zs: seq<Json>, depth: nat)
    requires depth < MAX_DEPTH && |zs| == |Children(v, depth)|
    requires || zs == Children(v, depth)
             || forall i :: 0 <= i < |zs| ==> (TooDeep(zs[i], depth + 1) <==> TooDeep(Children(v, depth)[i], depth + 1))
    ensures TooDeep(v, depth) <==> exists x :: x in zs && TooDeep(x, depth + 1)
  {
    if TooDeep(v, depth) {
      var i :| 0 <= i < |zs| && TooDeep(Children(v, depth)[i], depth + 1);
      assert zs[i] in zs && TooDeep(zs[i], depth + 1);
    }
  }

  lemma AllCons(items: seq<Json>, depth: nat)
    requires items != [] && depth <= MAX_DEPTH
    ensures Marks(PreorderAll(items, depth)) == Marks(Preorder(items[0], depth)) + Marks(PreorderAll(items[1..], depth))
  {
    MarksConcat(Preorder(items[0], depth), PreorderAll(items[1..], depth));
  }

  lemma {:induction false} PairwiseKeepsMarks(xs: seq<Json>, zs: seq<Json>, depth: nat)
    requires Pairwise(xs, zs) && 0 < depth <= MAX_DEPTH
    ensures Marks(PreorderAll(xs, depth)) == Marks(PreorderAll(zs, depth))
    ensures forall i :: 0 <= i < |xs| ==> (TooDeep(xs[i], depth) <==> TooDeep(zs[i], depth))
    decreases MAX_DEPTH - depth, 2, |xs|
  {
    if xs != [] {
      var xr, zr := xs[1..], zs[1..];
      ShuffleKeepsMarks(xs[0], zs[0], depth);
      PairwiseKeepsMarks(xr, zr, depth);
      AllCons(xs, depth);
      AllCons(zs, depth);
      forall i | 0 <= i < |xs| ensures TooDeep(xs[i], depth) <==> TooDeep(zs[i], depth) {
        if i > 0 {
          assert xs[i] == xr[i - 1] && zs[i] == zr[i - 1];
        }
      }
    }
  }

  /** The verdict does not depend on the order of lists or mapping keys. */
  lemma VerdictIgnoresOrder(a: Json, b: Json)
    requires Shuffled(a, b)
    ensures Failed(a) <==> Failed(b)
  {
    ShuffleKeepsMarks(a, b, ROOT);
    FailedByMarks(a);
    FailedByMarks(b);
  }
}
