/** Percent-encoding of text as UTF-8 (sections 2.1 and 2.3 of RFC 3986): encoding
    as Python's `quote` does it, and strict decoding as Python's `unquote`. */
module PercentCodec {
  import opened Common

  type Byte = n: int | 0 <= n < 256

  // ----- UTF-8 -----

  function Utf8(c: char): seq<Byte>
  {
    var n := c as int;
    if n < 0x80 then [n]
    else if n < 0x800 then [0xC0 + n / 64, 0x80 + n % 64]
    else if n < 0x10000 then [0xE0 + n / 4096, 0x80 + n / 64 % 64, 0x80 + n % 64]
    else [0xF0 + n / 262144, 0x80 + n / 4096 % 64, 0x80 + n / 64 % 64, 0x80 + n % 64]
  }

  function Utf8Text(s: string): seq<Byte>
  {
    if s == "" then [] else Utf8(s[0]) + Utf8Text(s[1..])
  }

  predicate IsScalar(n: int) { 0 <= n < 0xD800 || 0xE000 <= n < 0x110000 }

  datatype Lead = Lead(number: int, length: nat)

  /** The number and the length that a sequence of bytes starts with. */
  function Leading(bs: seq<int>): Lead
    requires bs != []
  {
    if bs[0] < 0x80 then Lead(bs[0], 1)
    else if bs[0] < 0xE0 && |bs| >= 2 then Lead(64 * (bs[0] - 0xC0) + (bs[1] - 0x80), 2)
    else if 0xE0 <= bs[0] < 0xF0 && |bs| >= 3 then
      Lead(4096 * (bs[0] - 0xE0) + 64 * (bs[1] - 0x80) + (bs[2] - 0x80), 3)
    else if 0xF0 <= bs[0] && |bs| >= 4 then
      Lead(262144 * (bs[0] - 0xF0) + 4096 * (bs[1] - 0x80) + 64 * (bs[2] - 0x80) + (bs[3] - 0x80), 4)
    else Lead(-1, 1)
  }

  /** Strict decoding: each character must be exactly its own encoding. */
  function DecodeUtf8(bs: seq<Byte>): Option<string>
  {
    if bs == [] then Some("")
    else
      var Lead(n, k) := Leading(bs);
      if !IsScalar(n) || Utf8(n as char) != bs[..k] then None
      else
        var rest := DecodeUtf8(bs[k..]);
        if rest.None? then None else Some([n as char] + rest.value)
  }

  lemma LeadingOfUtf8(c: char, rest: seq<Byte>)
    ensures Leading(Utf8(c) + rest) == Lead(c as int, |Utf8(c)|)
  {
    var n := c as int;
    var bs := Utf8(c) + rest;
    if n < 0x80 {
    } else if n < 0x800 {
      assert bs[0] == 0xC0 + n / 64 && bs[1] == 0x80 + n % 64;
    } else if n < 0x10000 {
      assert bs[0] == 0xE0 + n / 4096 && bs[1] == 0x80 + n / 64 % 64 && bs[2] == 0x80 + n % 64;
      assert n / 4096 == n / 64 / 64;
    } else {
      assert bs[0] == 0xF0 + n / 262144 && bs[1] == 0x80 + n / 4096 % 64;
      assert bs[2] == 0x80 + n / 64 % 64 && bs[3] == 0x80 + n % 64;
      assert n / 4096 == n / 64 / 64 && n / 262144 == n / 4096 / 64;
    }
  }

  lemma {:induction false} DecodeUtf8Text(s: string)
    ensures DecodeUtf8(Utf8Text(s)) == Some(s)
  {
    if s != "" {
      var head, rest := Utf8(s[0]), Utf8Text(s[1..]);
      LeadingOfUtf8(s[0], rest);
      assert (head + rest)[..|head|] == head && (head + rest)[|head|..] == rest;
      DecodeUtf8Text(s[1..]);
      assert s == [s[0]] + s[1..];
    }
  }

  /** Strict decoding accepts exactly the encodings of texts. */
  lemma {:induction false} Utf8TextDecode(bs: seq<Byte>)
    requires DecodeUtf8(bs).Some?
    ensures Utf8Text(DecodeUtf8(bs).value) == bs
    ensures |DecodeUtf8(bs).value| <= |bs|
  {
    if bs != [] {
      var Lead(n, k) := Leading(bs);
      var rest := DecodeUtf8(bs[k..]).value;
      Utf8TextDecode(bs[k..]);
      Utf8Cons(n as char, rest);
      assert bs == bs[..k] + bs[k..];
    }
  }

  lemma Utf8Cons(c: char, rest: string)
    ensures Utf8Text([c] + rest) == Utf8(c) + Utf8Text(rest)
    ensures |Utf8(c)| >= 1
  {
    assert ([c] + rest)[1..] == rest;
  }

  // ----- quoting -----

  predicate IsHex(c: char) { '0' <= c <= '9' || 'a' <= c <= 'f' || 'A' <= c <= 'F' }

  function HexValue(c: char): int
    requires IsHex(c)
  {
    if c <= '9' then c as int - '0' as int
    else if c <= 'F' then c as int - 'A' as int + 10
    else c as int - 'a' as int + 10
  }

  function HexDigit(n: int): (c: char)
    requires 0 <= n < 16
    ensures IsHex(c) && HexValue(c) == n && c != '%'
  {
    if n < 10 then (n + '0' as int) as char else (n - 10 + 'A' as int) as char
  }

  /** Letters, digits and `-._~`. */
  predicate Unreserved(b: int)
  {
    'a' as int <= b <= 'z' as int || 'A' as int <= b <= 'Z' as int || '0' as int <= b <= '9' as int ||
    b == '-' as int || b == '.' as int || b == '_' as int || b == '~' as int
  }

  function QuoteByte(b: Byte): string
  {
    if Unreserved(b) then [b as char] else ['%', HexDigit(b / 16), HexDigit(b % 16)]
  }

  function QuoteBytes(bs: seq<Byte>): string
  {
    if bs == [] then "" else QuoteByte(bs[0]) + QuoteBytes(bs[1..])
  }

  function Quote(s: string): string { QuoteBytes(Utf8Text(s)) }

  // ----- unquoting -----

  predicate EscapeAt(s: string, i: nat)
  {
    i + 2 < |s| && s[i] == '%' && IsHex(s[i + 1]) && IsHex(s[i + 2])
  }

  function Both(a: Option<string>, b: Option<string>): Option<string>
  {
    if a.None? || b.None? then None else Some(a.value + b.value)
  }

  /** The rest of the text, after the bytes of the ASCII run in progress. */
  function UnquoteFrom(s: string, run: seq<Byte>): Option<string>
  {
    if s == "" then DecodeUtf8(run)
    else if s[0] as int >= 0x80 then
      Both(DecodeUtf8(run), Both(Some([s[0]]), UnquoteFrom(s[1..], [])))
    else if EscapeAt(s, 0) then UnquoteFrom(s[3..], run + [16 * HexValue(s[1]) + HexValue(s[2])])
    else UnquoteFrom(s[1..], run + [s[0] as int])
  }

  function Unquote(s: string): Option<string> { UnquoteFrom(s, []) }

  lemma {:induction false} UnquoteBytes(bs: seq<Byte>, run: seq<Byte>)
    ensures UnquoteFrom(QuoteBytes(bs), run) == DecodeUtf8(run + bs)
    decreases |bs|
  {
    if bs == [] {
      assert run + [] == run;
    } else {
      var head, rest := QuoteByte(bs[0]), QuoteBytes(bs[1..]);
      assert run + bs == (run + [bs[0]]) + bs[1..];
      UnquoteBytes(bs[1..], run + [bs[0]]);
      if Unreserved(bs[0]) {
        assert (head + rest)[1..] == rest;
      } else {
        var s := head + rest;
        assert s[3..] == rest;
        assert 16 * HexValue(s[1]) + HexValue(s[2]) == bs[0];
      }
    }
  }

  /** Decoding once undoes encoding, on every text. */
  lemma UnquoteQuote(s: string)
    ensures Unquote(Quote(s)) == Some(s)
  {
    UnquoteBytes(Utf8Text(s), []);
    assert [] + Utf8Text(s) == Utf8Text(s);
    DecodeUtf8Text(s);
  }

  /** Encoded text holds only unreserved characters, `%` and hexadecimal digits. */
  predicate Plain(c: char) { c as int < 0x80 && (Unreserved(c as int) || c == '%') }

  lemma {:induction false} QuotedIsPlain(bs: seq<Byte>)
    ensures forall c :: c in QuoteBytes(bs) ==> Plain(c)
    ensures bs != [] ==> QuoteBytes(bs) != ""
  {
    if bs != [] {
      QuotedIsPlain(bs[1..]);
    }
  }

  // ----- decoding shrinks -----

  /** Some place holds a well-formed percent escape. */
  predicate HasEscape(s: string) { exists i :: 0 <= i < |s| && EscapeAt(s, i) }

  function AsText(run: seq<Byte>): string
    requires forall i :: 0 <= i < |run| ==> run[i] < 0x80
  {
    if run == [] then "" else [run[0] as char] + AsText(run[1..])
  }

  lemma {:induction false} DecodeAscii(run: seq<Byte>)
    requires forall i :: 0 <= i < |run| ==> run[i] < 0x80
    ensures DecodeUtf8(run) == Some(AsText(run))
  {
    if run != [] {
      assert Leading(run) == Lead(run[0], 1);
      assert run[..1] == [run[0]];
      DecodeAscii(run[1..]);
    }
  }

  lemma {:induction false} AsTextAppend(run: seq<Byte>, b: Byte)
    requires b < 0x80 && forall i :: 0 <= i < |run| ==> run[i] < 0x80
    ensures AsText(run + [b]) == AsText(run) + [b as char]
  {
    if run == [] {
      assert [b][1..] == [];
      assert run + [b] == [b];
    } else {
      AsTextAppend(run[1..], b);
      assert (run + [b])[1..] == run[1..] + [b];
    }
  }

  /** Without an escape, decoding is the identity. */
  lemma {:induction false} NoEscapeKeeps(s: string, run: seq<Byte>)
    requires !HasEscape(s) && forall i :: 0 <= i < |run| ==> run[i] < 0x80
    ensures UnquoteFrom(s, run) == Some(AsText(run) + s)
    decreases |s|
  {
    if s == "" {
      DecodeAscii(run);
      assert AsText(run) + s == AsText(run);
    } else {
      NoEscapeTail(s);
      var rest := s[1..];
      assert s == [s[0]] + rest;
      if s[0] as int >= 0x80 {
        DecodeAscii(run);
        NoEscapeKeeps(rest, []);
        assert Both(Some([s[0]]), UnquoteFrom(rest, [])) == Some([s[0]] + ("" + rest));
        assert AsText(run) + ([s[0]] + ("" + rest)) == AsText(run) + s;
      } else {
        NoEscapeKeeps(rest, run + [s[0] as int]);
        AsTextAppend(run, s[0] as int);
        assert AsText(run) + [s[0]] + rest == AsText(run) + s;
      }
    }
  }

  lemma NoEscapeTail(s: string)
    requires !HasEscape(s) && s != ""
    ensures !HasEscape(s[1..]) && !EscapeAt(s, 0)
  {
    forall i | 0 <= i < |s[1..]| ensures !EscapeAt(s[1..], i) {
      assert !EscapeAt(s, i + 1);
    }
  }

  /** Decoding never lengthens, and shortens when there is an escape. */
  lemma {:induction false} UnquoteLength(s: string, run: seq<Byte>)
    requires UnquoteFrom(s, run).Some?
    ensures |UnquoteFrom(s, run).value| <= |run| + |s|
    ensures HasEscape(s) ==> |UnquoteFrom(s, run).value| < |run| + |s|
    decreases |s|
  {
    if s == "" {
      Utf8TextDecode(run);
    } else if s[0] as int >= 0x80 {
      Utf8TextDecode(run);
      UnquoteLength(s[1..], []);
      EscapeMoves(s);
    } else if EscapeAt(s, 0) {
      UnquoteLength(s[3..], run + [16 * HexValue(s[1]) + HexValue(s[2])]);
    } else {
      UnquoteLength(s[1..], run + [s[0] as int]);
      EscapeMoves(s);
    }
  }

  lemma EscapeMoves(s: string)
    requires s != "" && !EscapeAt(s, 0)
    ensures HasEscape(s) ==> HasEscape(s[1..])
  {
    if HasEscape(s) {
      var i :| 0 <= i < |s| && EscapeAt(s, i);
      assert EscapeAt(s[1..], i - 1);
    }
  }

  /** A text is a fixed point of decoding exactly when it has no escape; any other
      successful decoding is strictly shorter. */
  lemma UnquoteShrinks(s: string)
    ensures Unquote(s) == Some(s) <==> !HasEscape(s)
    ensures Unquote(s).Some? && Unquote(s).value != s ==> |Unquote(s).value| < |s|
  {
    if HasEscape(s) {
      if Unquote(s).Some? {
        UnquoteLength(s, []);
      }
    } else {
      NoEscapeKeeps(s, []);
      assert "" + s == s;
    }
  }
}
