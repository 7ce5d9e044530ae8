/** Stable sorting of sequences, and what repeated stable sorts amount to. */
module StableSort {

  ghost predicate TotalPreorder<T(!new)>(le: (T, T) -> bool)
  {
    && (forall a, b :: le(a, b) || le(b, a))
    && (forall a, b, c :: le(a, b) && le(b, c) ==> le(a, c))
  }

  /** Places `x`, which came first, before every element it does not exceed. */
  function Insert<T>(le: (T, T) -> bool, x: T, s: seq<T>): seq<T>
  {
    if s == [] then [x]
    else if le(x, s[0]) then [x] + s
    else [s[0]] + Insert(le, x, s[1..])
  }

  /** Python's `list.sort`: stable, ascending for `le`. */
  function Sort<T>(le: (T, T) -> bool, s: seq<T>): seq<T>
  {
    if s == [] then [] else Insert(le, s[0], Sort(le, s[1..]))
  }

  ghost predicate Sorted<T>(le: (T, T) -> bool, s: seq<T>)
  {
    forall i, j :: 0 <= i < j < |s| ==> le(s[i], s[j])
  }

  /** `first`, with ties broken by `second`. */
  function Lex<T>(first: (T, T) -> bool, second: (T, T) -> bool): (T, T) -> bool
  {
    (a, b) => first(a, b) && (first(b, a) ==> second(a, b))
  }

  lemma LexIsPreorder<T(!new)>(first: (T, T) -> bool, second: (T, T) -> bool)
    requires TotalPreorder(first) && TotalPreorder(second)
    ensures TotalPreorder(Lex(first, second))
  {
    var le := Lex(first, second);
    forall a, b, c | le(a, b) && le(b, c) ensures le(a, c) {
      assert first(a, c);
      if first(c, a) {
        assert first(b, a) && first(c, b);
      }
    }
  }

  // ----- a sort permutes -----

  lemma {:induction false} InsertPermutes<T>(le: (T, T) -> bool, x: T, s: seq<T>)
    ensures multiset(Insert(le, x, s)) == multiset(s) + multiset{x}
  {
    if s != [] && !le(x, s[0]) {
      InsertPermutes(le, x, s[1..]);
      assert s == [s[0]] + s[1..];
    }
  }

  lemma {:induction false} SortPermutes<T>(le: (T, T) -> bool, s: seq<T>)
    ensures multiset(Sort(le, s)) == multiset(s)
  {
    if s != [] {
      SortPermutes(le, s[1..]);
      InsertPermutes(le, s[0], Sort(le, s[1..]));
      assert s == [s[0]] + s[1..];
    }
  }

  lemma SameElements<T>(a: seq<T>, b: seq<T>)
    requires multiset(a) == multiset(b)
    ensures |a| == |b| && forall x :: x in a <==> x in b
  {
    assert |a| == |multiset(a)| && |b| == |multiset(b)|;
    assert forall x :: x in a <==> x in multiset(a);
    assert forall x :: x in b <==> x in multiset(b);
  }

  // ----- a sort sorts -----

  lemma SortedCons<T>(le: (T, T) -> bool, x: T, s: seq<T>)
    requires Sorted(le, s) && forall y :: y in s ==> le(x, y)
    ensures Sorted(le, [x] + s)
  {
  }

  /** Inserting a first comer that precedes everyone for `second` keeps the
      lexicographic order. */
  lemma {:induction false} InsertLex<T(!new)>(first: (T, T) -> bool, second: (T, T) -> bool, x: T, s: seq<T>)
    requires TotalPreorder(first) && TotalPreorder(second)
    requires Sorted(Lex(first, second), s) && forall y :: y in s ==> second(x, y)
    ensures Sorted(Lex(first, second), Insert(first, x, s))
  {
    var le := Lex(first, second);
    if s == [] {
    } else if first(x, s[0]) {
      forall y | y in s ensures le(x, y) {
        var i :| 0 <= i < |s| && s[i] == y;
        assert i > 0 ==> le(s[0], y);
        assert first(x, y);
      }
      SortedCons(le, x, s);
    } else {
      InsertLex(first, second, x, s[1..]);
      InsertPermutes(first, x, s[1..]);
      var rest := Insert(first, x, s[1..]);
      SameElements(rest, s[1..] + [x]);
      forall y | y in rest ensures le(s[0], y) {
        assert y in s[1..] || y == x;
      }
      SortedCons(le, s[0], rest);
    }
  }

  /** Sorting a list that is sorted for `second` sorts it lexicographically. */
  lemma {:induction false} SortLex<T(!new)>(first: (T, T) -> bool, second: (T, T) -> bool, s: seq<T>)
    requires TotalPreorder(first) && TotalPreorder(second) && Sorted(second, s)
    ensures Sorted(Lex(first, second), Sort(first, s))
  {
    if s != [] {
      SortLex(first, second, s[1..]);
      SortPermutes(first, s[1..]);
      SameElements(Sort(first, s[1..]), s[1..]);
      InsertLex(first, second, s[0], Sort(first, s[1..]));
    }
  }

  lemma SortSorts<T(!new)>(le: (T, T) -> bool, s: seq<T>)
    requires TotalPreorder(le)
    ensures Sorted(le, Sort(le, s))
  {
    var any := (a: T, b: T) => true;
    SortLex(le, any, s);
    var r := Sort(le, s);
    forall i, j | 0 <= i < j < |r| ensures le(r[i], r[j]) {
      assert Lex(le, any)(r[i], r[j]);
    }
  }

  // ----- a sort is stable -----

  function Filter<T>(p: T -> bool, s: seq<T>): seq<T>
  {
    if s == [] then [] else (if p(s[0]) then [s[0]] else []) + Filter(p, s[1..])
  }

  /** All elements with the property tie. */
  ghost predicate Ties<T(!new)>(le: (T, T) -> bool, p: T -> bool)
  {
    forall a, b :: p(a) && p(b) ==> le(a, b)
  }

  lemma {:induction false} InsertStable<T(!new)>(le: (T, T) -> bool, p: T -> bool, x: T, s: seq<T>)
    requires Ties(le, p)
    ensures Filter(p, Insert(le, x, s)) == (if p(x) then [x] else []) + Filter(p, s)
  {
    if s != [] {
      if le(x, s[0]) {
        assert ([x] + s)[1..] == s;
      } else {
        InsertStable(le, p, x, s[1..]);
        assert ([s[0]] + Insert(le, x, s[1..]))[1..] == Insert(le, x, s[1..]);
      }
    }
  }

  /** Elements that tie keep the order they came in. */
  lemma {:induction false} SortStable<T(!new)>(le: (T, T) -> bool, p: T -> bool, s: seq<T>)
    requires Ties(le, p)
    ensures Filter(p, Sort(le, s)) == Filter(p, s)
  {
    if s != [] {
      SortStable(le, p, s[1..]);
      InsertStable(le, p, s[0], Sort(le, s[1..]));
    }
  }

  function Tied<T>(le: (T, T) -> bool, z: T): T -> bool
  {
    x => le(x, z) && le(z, x)
  }

  lemma {:induction false} FilterMember<T>(p: T -> bool, s: seq<T>, x: T)
    ensures x in Filter(p, s) <==> x in s && p(x)
  {
    if s != [] {
      FilterMember(p, s[1..], x);
    }
  }

  /** Two sorted lists that agree on every class of tied elements are equal. */
  lemma {:induction false} StableUnique<T(!new)>(le: (T, T) -> bool, a: seq<T>, b: seq<T>)
    requires TotalPreorder(le) && Sorted(le, a) && Sorted(le, b)
    requires forall z :: Filter(Tied(le, z), a) == Filter(Tied(le, z), b)
    ensures a == b
  {
    if a == [] {
      EmptyTogether(le, a, b);
    } else if b == [] {
      EmptyTogether(le, b, a);
    } else {
      HeadsAgree(le, a, b);
      forall z ensures Filter(Tied(le, z), a[1..]) == Filter(Tied(le, z), b[1..]) {
        var p := Tied(le, z);
        var head := if p(a[0]) then [a[0]] else [];
        assert Filter(p, a) == head + Filter(p, a[1..]);
        assert Filter(p, b) == head + Filter(p, b[1..]);
        assert Filter(p, a)[|head|..] == Filter(p, a[1..]);
        assert Filter(p, b)[|head|..] == Filter(p, b[1..]);
      }
      StableUnique(le, a[1..], b[1..]);
    }
  }

  lemma EmptyTogether<T(!new)>(le: (T, T) -> bool, a: seq<T>, b: seq<T>)
    requires TotalPreorder(le) && a == [] && forall z :: Filter(Tied(le, z), a) == Filter(Tied(le, z), b)
    ensures b == []
  {
    if b != [] {
      var z := b[0];
      FilterMember(Tied(le, z), b, z);
      FilterMember(Tied(le, z), a, z);
    }
  }

  lemma HeadsAgree<T(!new)>(le: (T, T) -> bool, a: seq<T>, b: seq<T>)
    requires TotalPreorder(le) && Sorted(le, a) && Sorted(le, b) && a != [] && b != []
    requires forall z :: Filter(Tied(le, z), a) == Filter(Tied(le, z), b)
    ensures a[0] == b[0]
  {
    var p := Tied(le, a[0]);
    FilterMember(p, a, a[0]);
    FilterMember(p, b, a[0]);
    FilterMember(Tied(le, b[0]), b, b[0]);
    FilterMember(Tied(le, b[0]), a, b[0]);
    assert le(a[0], b[0]) by {
      var i :| 0 <= i < |a| && a[i] == b[0];
    }
    assert le(b[0], a[0]) by {
      var i :| 0 <= i < |b| && b[i] == a[0];
    }
    assert Filter(p, a)[0] == a[0] && Filter(p, b)[0] == b[0];
  }

  /** Two stable sorts in a row are one stable sort by the lexicographic order of
      the later key first. */
  lemma SortTwice<T(!new)>(first: (T, T) -> bool, second: (T, T) -> bool, s: seq<T>)
    requires TotalPreorder(first) && TotalPreorder(second)
    ensures Sort(first, Sort(second, s)) == Sort(Lex(first, second), s)
  {
    var le := Lex(first, second);
    LexIsPreorder(first, second);
    SortSorts(second, s);
    SortLex(first, second, Sort(second, s));
    SortSorts(le, s);
    forall z ensures Filter(Tied(le, z), Sort(first, Sort(second, s))) == Filter(Tied(le, z), Sort(le, s)) {
      var p := Tied(le, z);
      assert Ties(first, p) && Ties(second, p) && Ties(le, p);
      SortStable(first, p, Sort(second, s));
      SortStable(second, p, s);
      SortStable(le, p, s);
    }
    StableUnique(le, Sort(first, Sort(second, s)), Sort(le, s));
  }

  /** When no two different elements tie, the sorted list does not depend on the
      order of the input. */
  lemma {:induction false} SortedPermutationUnique<T(!new)>(le: (T, T) -> bool, a: seq<T>, b: seq<T>)
    requires Sorted(le, a) && Sorted(le, b) && multiset(a) == multiset(b)
    requires forall x, y :: x in a && y in a && le(x, y) && le(y, x) ==> x == y
    requires forall x :: x in a ==> le(x, x)
    ensures a == b
  {
    SameElements(a, b);
    if a != [] {
      assert b[0] in a && a[0] in b;
      AtMostAll(le, a, b[0]);
      AtMostAll(le, b, a[0]);
      assert a[0] == b[0];
      TailPermutes(a, b);
      SortedPermutationUnique(le, a[1..], b[1..]);
    }
  }

  lemma AtMostAll<T>(le: (T, T) -> bool, s: seq<T>, x: T)
    requires Sorted(le, s) && x in s && le(x, x)
    ensures le(s[0], x)
  {
    var i :| 0 <= i < |s| && s[i] == x;
  }

  lemma TailPermutes<T>(a: seq<T>, b: seq<T>)
    requires multiset(a) == multiset(b) && a != [] && b != [] && a[0] == b[0]
    ensures multiset(a[1..]) == multiset(b[1..])
  {
    assert a == [a[0]] + a[1..] && b == [b[0]] + b[1..];
    assert multiset(a[1..]) == multiset(a) - multiset{a[0]};
    assert multiset(b[1..]) == multiset(b) - multiset{b[0]};
  }

  // ----- permutations of distinct elements -----

  lemma DistinctPermutation<T>(a: seq<T>, b: seq<T>)
    requires multiset(a) == multiset(b) && forall i, j :: 0 <= i < j < |a| ==> a[i] != a[j]
    ensures forall i, j :: 0 <= i < j < |b| ==> b[i] != b[j]
  {
    forall i, j | 0 <= i < j < |b| ensures b[i] != b[j] {
      if b[i] == b[j] {
        CountTwice(b, i, j);
        CountOnce(a, b[i]);
      }
    }
  }

  lemma CountTwice<T>(b: seq<T>, i: nat, j: nat)
    requires i < j < |b| && b[i] == b[j]
    ensures multiset(b)[b[i]] >= 2
  {
    assert b == b[..j] + [b[j]] + b[j + 1..];
    assert b[i] in b[..j];
  }

  lemma {:induction false} CountOnce<T>(a: seq<T>, x: T)
    requires forall i, j :: 0 <= i < j < |a| ==> a[i] != a[j]
    ensures multiset(a)[x] <= 1
  {
    if a != [] {
      var rest := a[..|a| - 1];
      CountOnce(rest, x);
      assert a == rest + [a[|a| - 1]];
      if a[|a| - 1] == x {
        assert x !in rest;
      }
    }
  }
}
