/** Repeated percent-decoding to a fixed point, as the catalog does it for paths and
    field names and the executor for path segments. Each loop has a bound taken from
    the length of the text; the bound is never what ends it. */
module PathDecoding {
  import opened Common
  import opened PercentCodec

  /** Decoding until no escape is left; `None` when some round is not valid UTF-8. */
  function Fixpoint(s: string): Option<string>
    decreases |s|
  {
    UnquoteShrinks(s);
    if !HasEscape(s) then Some(s)
    else
      var next := Unquote(s);
      if next.None? then None else Fixpoint(next.value)
  }

  lemma {:induction false} FixpointIsFixed(s: string)
    requires Fixpoint(s).Some?
    ensures !HasEscape(Fixpoint(s).value) && Unquote(Fixpoint(s).value) == Fixpoint(s)
    decreases |s|
  {
    UnquoteShrinks(s);
    if HasEscape(s) {
      FixpointIsFixed(Unquote(s).value);
    }
  }

  /** `_decode_path_value`: the fixed point, or an error exactly when a round fails. */
  method DecodePathValue(value: string) returns (r: Option<string>)
    ensures r == Fixpoint(value)
    ensures r.Some? ==> !HasEscape(r.value) && Unquote(r.value) == r
  {
    var decoded := value;
    r := None;
    for i := 0 to |value| + 1
      invariant |decoded| + i <= |value|
      invariant Fixpoint(decoded) == Fixpoint(value)
    {
      UnquoteShrinks(decoded);
      if !HasEscape(decoded) {
        return Some(decoded);
      }
      var next := Unquote(decoded);
      if next.None? || next.value == decoded {
        return next;
      }
      decoded := next.value;
    }
    assert false;
  }

  // ----- field names -----

  predicate OnlyEscapes(s: string) { forall i :: 0 <= i < |s| && s[i] == '%' ==> EscapeAt(s, i) }

  lemma PercentIsEscape(s: string)
    requires '%' in s && OnlyEscapes(s)
    ensures HasEscape(s)
  {
    var i :| 0 <= i < |s| && s[i] == '%';
    assert EscapeAt(s, i);
  }

  /** Decoding until no `%` is left; `None` when a `%` is malformed on the way. */
  function FieldFixpoint(s: string): Option<string>
    decreases |s|
  {
    if '%' !in s then Some(s)
    else if !OnlyEscapes(s) then None
    else
      PercentIsEscape(s);
      UnquoteShrinks(s);
      var next := Unquote(s);
      if next.None? then None else FieldFixpoint(next.value)
  }

  lemma {:induction false} FieldFixpointIsPlain(s: string)
    requires FieldFixpoint(s).Some?
    ensures '%' !in FieldFixpoint(s).value
    decreases |s|
  {
    if '%' in s {
      PercentIsEscape(s);
      UnquoteShrinks(s);
      FieldFixpointIsPlain(Unquote(s).value);
    }
  }

  /** `_decode_field_name`: the plain name, or the name as given when any round is
      malformed. */
  method DecodeFieldName(value: string) returns (r: string)
    ensures r == if FieldFixpoint(value).Some? then FieldFixpoint(value).value else value
    ensures '%' in r ==> r == value
  {
    var decoded := value;
    r := value;
    for i := 0 to |value| + 1
      invariant |decoded| + i <= |value|
      invariant FieldFixpoint(decoded) == FieldFixpoint(value)
    {
      if '%' !in decoded {
        return decoded;
      }
      if !OnlyEscapes(decoded) {
        return value;
      }
      PercentIsEscape(decoded);
      UnquoteShrinks(decoded);
      var next := Unquote(decoded);
      if next.None? || next.value == decoded {
        return value;
      }
      decoded := next.value;
    }
    assert false;
  }

  // ----- structural path keys -----

  /** The text, after leading white space, starts with a slash. */
  predicate LooksLikePath(s: string)
  {
    s != "" && (s[0] == '/' || (IsSpace(s[0]) && LooksLikePath(s[1..])))
  }

  /** The first round of decoding that looks like a path. */
  function StructuralKey(s: string): Option<string>
    decreases |s|
  {
    UnquoteShrinks(s);
    if LooksLikePath(s) then Some(s)
    else if !HasEscape(s) then None
    else
      var next := Unquote(s);
      if next.None? then None else StructuralKey(next.value)
  }

  /** `_structural_path_key`: no encoding depth hides a path. */
  method StructuralPathKey(key: string) returns (r: Option<string>)
    ensures r == StructuralKey(key)
    ensures r.Some? ==> LooksLikePath(r.value)
  {
    var decoded := key;
    r := None;
    for i := 0 to |key| + 1
      invariant |decoded| + i <= |key|
      invariant StructuralKey(decoded) == StructuralKey(key)
    {
      UnquoteShrinks(decoded);
      if LooksLikePath(decoded) {
        return Some(decoded);
      }
      if !HasEscape(decoded) {
        return None;
      }
      var next := Unquote(decoded);
      if next.None? || next.value == decoded {
        return None;
      }
      decoded := next.value;
    }
    assert false;
  }

  predicate RoundLooks(s: string, n: nat) { Round(s, n).Some? && LooksLikePath(Round(s, n).value) }

  /** A key is structural exactly when some round of decoding looks like a path. */
  lemma {:induction false} StructuralExactly(s: string)
    ensures StructuralKey(s).Some? <==> exists n: nat :: RoundLooks(s, n)
    decreases |s|
  {
    UnquoteShrinks(s);
    var next := Unquote(s);
    if LooksLikePath(s) {
      assert RoundLooks(s, 0);
    } else if !HasEscape(s) {
      forall n: nat ensures !RoundLooks(s, n) {
        RoundFixed(s, n);
      }
    } else if next.None? {
      forall n: nat ensures !RoundLooks(s, n) {
      }
    } else {
      StructuralExactly(next.value);
      forall n: nat ensures RoundLooks(s, n) ==> n > 0 && RoundLooks(next.value, n - 1) {
      }
      forall n: nat ensures RoundLooks(next.value, n) ==> RoundLooks(s, n + 1) {
      }
      if StructuralKey(next.value).Some? {
        var n: nat :| RoundLooks(next.value, n);
        assert RoundLooks(s, n + 1);
      }
    }
  }

  /** Decoding `n` times. */
  function Round(s: string, n: nat): Option<string>
    decreases n
  {
    if n == 0 then Some(s)
    else
      var next := Unquote(s);
      if next.None? then None else Round(next.value, n - 1)
  }

  lemma {:induction false} RoundFixed(s: string, n: nat)
    requires Unquote(s) == Some(s)
    ensures Round(s, n) == Some(s)
  {
    if n > 0 {
      RoundFixed(s, n - 1);
    }
  }
}
