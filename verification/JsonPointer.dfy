/** Local references of the schema reviewer: JSON Pointer tokens (sections 3
    and 4 of RFC 6901) and the walk from the document root. */
module JsonPointer {
  import opened Common
  import opened Json

  function EscapeChar(c: char): string
  {
    if c == '~' then "~0" else if c == '/' then "~1" else [c]
  }

  /** One token as it is written inside a pointer. */
  function Escape(token: string): string
  {
    if token == "" then "" else EscapeChar(token[0]) + Escape(token[1..])
  }

  /** A `~` that starts no valid escape. */
  predicate BadEscape(raw: string, i: int)
  {
    0 <= i < |raw| && raw[i] == '~' && (i + 1 >= |raw| || raw[i + 1] !in "01")
  }

  function Decode(raw: string): Option<string>
  {
    if raw == "" then Some("")
    else if raw[0] != '~' then Prepend(raw[0], Decode(raw[1..]))
    else if BadEscape(raw, 0) then None
    else Prepend(if raw[1] == '0' then '~' else '/', Decode(raw[2..]))
  }

  function Prepend(c: char, rest: Option<string>): Option<string>
  {
    if rest.None? then None else Some([c] + rest.value)
  }

  function Append(done: string, rest: Option<string>): Option<string>
  {
    if rest.None? then None else Some(done + rest.value)
  }

  lemma AppendPrepend(done: string, c: char, rest: Option<string>)
    ensures Append(done, Prepend(c, rest)) == Append(done + [c], rest)
  {
    if rest.Some? {
      assert done + ([c] + rest.value) == done + [c] + rest.value;
    }
  }

  /** The scanning loop: characters are appended to `decoded` until the end or
      the first bad escape. */
  method DecodePointerPart(raw: string) returns (r: Option<string>)
    ensures r == Decode(raw)
    ensures r.None? <==> exists i :: BadEscape(raw, i)
    ensures r.Some? && '/' !in raw ==> Escape(r.value) == raw
  {
    var decoded, index := "", 0;
    assert raw[0..] == raw && (Decode(raw).Some? ==> "" + Decode(raw).value == Decode(raw).value);
    while index < |raw|
      invariant 0 <= index <= |raw|
      invariant Decode(raw) == Append(decoded, Decode(raw[index..]))
    {
      var character := raw[index];
      var rest := raw[index..];
      if character != '~' {
        assert rest[1..] == raw[index + 1..];
        AppendPrepend(decoded, character, Decode(rest[1..]));
        decoded, index := decoded + [character], index + 1;
      } else {
        assert BadEscape(raw, index) <==> BadEscape(rest, 0);
        if index + 1 >= |raw| || raw[index + 1] !in "01" {
          DecodeFailsExactly(raw);
          return None;
        }
        assert rest[2..] == raw[index + 2..];
        var plain := if raw[index + 1] == '0' then '~' else '/';
        AppendPrepend(decoded, plain, Decode(rest[2..]));
        decoded, index := decoded + [plain], index + 2;
      }
    }
    assert raw[index..] == "" && decoded + "" == decoded;
    DecodeFailsExactly(raw);
    if '/' !in raw {
      EscapeDecode(raw);
    }
    return Some(decoded);
  }

  /** Decoding fails exactly on a `~` not followed by `0` or `1`. */
  lemma {:induction false} DecodeFailsExactly(raw: string)
    ensures Decode(raw).None? <==> exists i :: BadEscape(raw, i)
  {
    if raw == "" {
    } else {
      var step := if raw[0] != '~' || BadEscape(raw, 0) then 1 else 2;
      if !BadEscape(raw, 0) {
        var rest := raw[step..];
        DecodeFailsExactly(rest);
        forall i | BadEscape(raw, i) ensures BadEscape(rest, i - step) {
        }
        forall i | BadEscape(rest, i) ensures BadEscape(raw, i + step) {
        }
      }
    }
  }

  lemma DecodeEscapedChar(c: char, rest: string)
    ensures Decode(EscapeChar(c) + rest) == Prepend(c, Decode(rest))
  {
    assert (EscapeChar(c) + rest)[|EscapeChar(c)|..] == rest;
  }

  /** Tokens survive the round trip, and the written form hides every `/`. */
  lemma {:induction false} DecodeEscape(token: string)
    ensures Decode(Escape(token)) == Some(token)
    ensures '/' !in Escape(token)
  {
    if token != "" {
      DecodeEscape(token[1..]);
      DecodeEscapedChar(token[0], Escape(token[1..]));
      assert [token[0]] + token[1..] == token;
    }
  }

  /** Each decodable text is the written form of exactly the token it decodes to. */
  lemma {:induction false} EscapeDecode(raw: string)
    requires Decode(raw).Some? && '/' !in raw
    ensures Escape(Decode(raw).value) == raw
  {
    if raw != "" {
      if raw[0] != '~' {
        EscapeDecode(raw[1..]);
      } else {
        EscapeDecode(raw[2..]);
        assert raw == raw[..2] + raw[2..];
      }
    }
  }

  // ----- array indices -----

  predicate IsDigit(c: char) { '0' <= c <= '9' }

  /** The index pattern of the reviewer: `0` or digits without a leading zero. */
  predicate IsIndex(part: string)
  {
    part == "0" ||
    (|part| > 0 && part[0] != '0' && forall i :: 0 <= i < |part| ==> IsDigit(part[i]))
  }

  /** Python's `int(part)` on a text of decimal digits. */
  function Value(part: string): nat
    requires forall i :: 0 <= i < |part| ==> IsDigit(part[i])
  {
    if part == "" then 0
    else
      assert IsDigit(part[|part| - 1]);
      10 * Value(part[..|part| - 1]) + (part[|part| - 1] as int - '0' as int)
  }

  function Digits(n: nat): (s: string)
    ensures IsIndex(s) && (n > 0 ==> s[0] != '0')
    ensures Value(s) == n
  {
    var last := [(n % 10 + '0' as int) as char];
    if n < 10 then
      assert Value(last[..0]) == 0;
      last
    else
      var s := Digits(n / 10) + last;
      assert s[..|s| - 1] == Digits(n / 10);
      s
  }

  lemma LastDigit(n: nat, d: nat)
    requires d < 10
    ensures (10 * n + d) % 10 == d && (10 * n + d) / 10 == n
  {
  }

  lemma DigitsAppend(n: nat, d: nat)
    requires n > 0 && d < 10
    ensures Digits(10 * n + d) == Digits(n) + [(d + '0' as int) as char]
  {
    LastDigit(n, d);
  }

  /** An index token is the one decimal text of its value. */
  lemma {:induction false} DigitsValue(part: string)
    requires IsIndex(part)
    ensures Digits(Value(part)) == part
  {
    var head, last := part[..|part| - 1], part[|part| - 1];
    assert IsDigit(last) && part == head + [last];
    var d := last as int - '0' as int;
    ValueAppend(head, last);
    if |part| == 1 {
      assert Value(head) == 0 && Value(part) == d;
    } else {
      assert IsIndex(head) by {
        assert head[0] == part[0];
      }
      DigitsValue(head);
      HeadIsPositive(head);
      DigitsAppend(Value(head), d);
    }
  }

  lemma ValueAppend(head: string, last: char)
    requires IsDigit(last) && forall i :: 0 <= i < |head| ==> IsDigit(head[i])
    ensures forall i :: 0 <= i < |head + [last]| ==> IsDigit((head + [last])[i])
    ensures Value(head + [last]) == 10 * Value(head) + (last as int - '0' as int)
  {
    assert (head + [last])[..|head|] == head;
  }

  lemma ZeroDigit()
    ensures Digits(0) == "0"
  {
  }

  lemma HeadIsPositive(head: string)
    requires IsIndex(head) && head[0] != '0' && Digits(Value(head)) == head
    ensures Value(head) > 0
  {
    ZeroDigit();
  }

  // ----- walking the document -----

  /** One decoded token applied to one value: mapping lookup, or list index. */
  function Descend(target: Json, part: string): Option<Json>
  {
    match target
    case Obj(m) => if part in m then Some(m[part]) else None
    case Arr(items) =>
      if IsIndex(part) && Value(part) < |items| then Some(items[Value(part)]) else None
    case _ => None
  }

  function Walk(target: Json, raws: seq<string>): Option<Json>
  {
    if raws == [] then Some(target)
    else
      var part := Decode(raws[0]);
      if part.None? then None
      else
        var next := Descend(target, part.value);
        if next.None? then None else Walk(next.value, raws[1..])
  }

  predicate IsLocal(reference: string) { "#/" <= reference }

  function Resolve(root: Fields, reference: string): Option<Fields>
  {
    if reference == "#" then Some(root)
    else if !IsLocal(reference) then None
    else
      var target := Walk(Obj(root), Split(reference[2..], '/'));
      if target.Some? && target.value.Obj? then Some(target.value.fields) else None
  }

  // ----- what a pointer means: a path of keys and positions -----

  datatype Step = Key(name: string) | Index(at: nat)

  function Token(step: Step): string
  {
    match step case Key(name) => name case Index(at) => Digits(at)
  }

  function Follow(target: Json, path: seq<Step>): Option<Json>
  {
    if path == [] then Some(target)
    else match (target, path[0])
      case (Obj(m), Key(name)) => if name in m then Follow(m[name], path[1..]) else None
      case (Arr(items), Index(at)) => if at < |items| then Follow(items[at], path[1..]) else None
      case _ => None
  }

  function Tokens(path: seq<Step>): (raws: seq<string>)
    ensures |raws| == |path|
    ensures forall i :: 0 <= i < |raws| ==> '/' !in raws[i]
  {
    if path == [] then [] else
    DecodeEscape(Token(path[0]));
    [Escape(Token(path[0]))] + Tokens(path[1..])
  }

  function PointerTo(path: seq<Step>): string
  {
    if path == [] then "#" else "#/" + Join(Tokens(path), '/')
  }

  lemma {:induction false} WalkFollows(target: Json, path: seq<Step>)
    requires Follow(target, path).Some?
    ensures Walk(target, Tokens(path)) == Follow(target, path)
  {
    if path != [] {
      DecodeEscape(Token(path[0]));
      assert Tokens(path)[1..] == Tokens(path[1..]);
      WalkFollows(Descend(target, Token(path[0])).value, path[1..]);
    }
  }

  lemma {:induction false} WalkHasPath(target: Json, raws: seq<string>) returns (path: seq<Step>)
    requires Walk(target, raws).Some?
    requires forall i :: 0 <= i < |raws| ==> '/' !in raws[i]
    ensures Tokens(path) == raws
    ensures Follow(target, path) == Walk(target, raws)
  {
    if raws == [] {
      path := [];
    } else {
      var part := Decode(raws[0]).value;
      EscapeDecode(raws[0]);
      var rest := WalkHasPath(Descend(target, part).value, raws[1..]);
      if target.Arr? {
        DigitsValue(part);
        path := [Index(Value(part))] + rest;
      } else {
        path := [Key(part)] + rest;
      }
      assert path[1..] == rest;
    }
  }

  /** A reference resolves exactly when it is the pointer of a path that leads
      from the document root to a schema object, and it resolves to that object. */
  lemma ResolveExactly(root: Fields, reference: string, target: Fields)
    ensures Resolve(root, reference) == Some(target) <==>
            exists path :: PointerTo(path) == reference && Follow(Obj(root), path) == Some(Obj(target))
  {
    if Resolve(root, reference) == Some(target) {
      if reference == "#" {
        assert PointerTo([]) == reference && Follow(Obj(root), []) == Some(Obj(target));
      } else {
        var raws := Split(reference[2..], '/');
        var path := WalkHasPath(Obj(root), raws);
        JoinSplit(reference[2..], '/');
        assert PointerTo(path) == "#/" + reference[2..] == reference;
      }
    }
    forall path | PointerTo(path) == reference && Follow(Obj(root), path) == Some(Obj(target))
      ensures Resolve(root, reference) == Some(target)
    {
      if path != [] {
        SplitJoin(Tokens(path), '/');
        assert reference[2..] == Join(Tokens(path), '/');
        WalkFollows(Obj(root), path);
      }
    }
  }
}
