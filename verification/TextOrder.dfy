/** Python's order on text: by code point, position by position. */
module TextOrder {
  import opened StableSort

  predicate AtMost(a: string, b: string)
  {
    a == "" || (b != "" && (a[0] < b[0] || (a[0] == b[0] && AtMost(a[1..], b[1..]))))
  }

  lemma {:induction false} AtMostTotal(a: string, b: string)
    ensures AtMost(a, b) || AtMost(b, a)
    ensures AtMost(a, b) && AtMost(b, a) ==> a == b
  {
    if a != "" && b != "" {
      AtMostTotal(a[1..], b[1..]);
      if a[0] == b[0] && a[1..] == b[1..] {
        assert a == [a[0]] + a[1..] && b == [b[0]] + b[1..];
      }
    }
  }

  lemma {:induction false} AtMostTransitive(a: string, b: string, c: string)
    requires AtMost(a, b) && AtMost(b, c)
    ensures AtMost(a, c)
  {
    if a != "" && a[0] == b[0] == c[0] {
      AtMostTransitive(a[1..], b[1..], c[1..]);
    }
  }

  /** Comparing by a text key is a total preorder, upwards and downwards. */
  lemma KeyPreorder<T(!new)>(key: T -> string)
    ensures TotalPreorder(Up(key)) && TotalPreorder(Down(key))
  {
    forall a, b ensures Up(key)(a, b) || Up(key)(b, a) {
      AtMostTotal(key(a), key(b));
    }
    forall a, b, c | Up(key)(a, b) && Up(key)(b, c) ensures Up(key)(a, c) {
      AtMostTransitive(key(a), key(b), key(c));
    }
    assert forall a, b :: Down(key)(a, b) == Up(key)(b, a);
  }

  function Up<T>(key: T -> string): (T, T) -> bool { (a, b) => AtMost(key(a), key(b)) }
  function Down<T>(key: T -> string): (T, T) -> bool { (a, b) => AtMost(key(b), key(a)) }
}
