/** Rendering an action path from a template and its segment values, and reading
    the values back. */
module ActionPath {
  import opened Common
  import opened Json
  import opened PercentCodec
  import opened PathDecoding

  // ----- safe segments -----

  predicate IsControl(c: char) { c as int < 32 || 127 <= c as int < 160 }

  predicate Unsafe(s: string)
  {
    s == "." || s == ".." || exists c :: c in s && (c in {'/', '\\', '?', '#'} || IsControl(c))
  }

  /** Safe at every round of decoding, up to the fixed point. */
  predicate AllSafe(s: string)
    decreases |s|
  {
    UnquoteShrinks(s);
    !Unsafe(s) &&
    var next := Unquote(s);
    next.Some? && (next.value == s || AllSafe(next.value))
  }

  /** No number of decodings turns an accepted segment into a separator or a dot segment. */
  lemma {:induction false} DecodingStaysSafe(s: string, n: nat)
    requires AllSafe(s)
    ensures Round(s, n).Some? && !Unsafe(Round(s, n).value)
    decreases n
  {
    UnquoteShrinks(s);
    if n > 0 {
      if Unquote(s).value == s {
        RoundFixed(s, n);
      } else {
        DecodingStaysSafe(Unquote(s).value, n - 1);
      }
    }
  }

  /** The checking loop accepts exactly the segments that are safe at every round;
      its bound is never what ends it. */
  method ValidatePathSegment(value: string, allowEmpty: bool) returns (ok: bool)
    ensures ok <==> (value != "" || allowEmpty) && AllSafe(value)
  {
    if value == "" && !allowEmpty {
      return false;
    }
    ok := false;
    var decoded := value;
    for i := 0 to |value| + 2
      invariant |decoded| + i <= |value|
      invariant AllSafe(decoded) == AllSafe(value)
    {
      if Unsafe(decoded) {
        return false;
      }
      UnquoteShrinks(decoded);
      var next := Unquote(decoded);
      if next.None? {
        return false;
      }
      if next.value == decoded {
        return true;
      }
      decoded := next.value;
    }
    assert false;
  }

  // ----- final paths -----

  predicate DoubleSlash(s: string)
  {
    exists i :: 0 <= i < |s| - 1 && s[i] == '/' && s[i + 1] == '/'
  }

  predicate HasScheme(s: string)
  {
    exists i :: 0 <= i < |s| - 2 && s[i] == ':' && s[i + 1] == '/' && s[i + 2] == '/'
  }

  predicate ValidFinalPath(s: string)
  {
    s != "" && s[0] == '/' && !DoubleSlash(s) && '?' !in s && '#' !in s && '\\' !in s && !HasScheme(s)
  }

  /** No segment strictly between the first and the last is empty. */
  predicate InnerNonEmpty(segments: seq<string>)
  {
    forall i :: 0 < i < |segments| - 1 ==> segments[i] != ""
  }

  predicate NoSlash(segments: seq<string>)
  {
    forall i :: 0 <= i < |segments| ==> '/' !in segments[i]
  }

  /** Joined segments have a double slash exactly when an inner segment is empty. */
  lemma {:induction false} DoubleSlashExactly(segments: seq<string>)
    requires segments != [] && NoSlash(segments)
    ensures DoubleSlash(Join(segments, '/')) <==> !InnerNonEmpty(segments)
    decreases |segments|
  {
    var joined := Join(segments, '/');
    if |segments| > 1 {
      var head, rest := segments[0], segments[1..];
      var tail := Join(rest, '/');
      assert joined == head + ['/'] + tail;
      DoubleSlashExactly(rest);
      TailStart(rest);
      var n := |head|;
      assert joined[n] == '/' && joined[n + 1..] == tail;
      assert forall i :: 0 <= i < n ==> joined[i] == head[i] && head[i] in head;
      forall i | 0 <= i < |joined| - 1 && joined[i] == '/' && joined[i + 1] == '/'
        ensures DoubleSlash(tail) || (tail != "" && tail[0] == '/')
      {
        if i > n {
          assert tail[i - n - 1] == '/' && tail[i - n] == '/';
        } else {
          assert joined[n + 1] == tail[0];
        }
      }
      if DoubleSlash(tail) {
        var i :| 0 <= i < |tail| - 1 && tail[i] == '/' && tail[i + 1] == '/';
        assert joined[n + 1 + i] == '/' && joined[n + 1 + i + 1] == '/';
      }
      if tail != "" && tail[0] == '/' {
        assert joined[n + 1] == '/';
      }
      InnerShift(segments);
    } else {
      assert forall i :: 0 <= i < |joined| ==> joined[i] in segments[0];
    }
  }

  lemma TailStart(rest: seq<string>)
    requires rest != [] && NoSlash(rest)
    ensures Join(rest, '/') != "" && Join(rest, '/')[0] == '/' <==> |rest| > 1 && rest[0] == ""
  {
    var tail := Join(rest, '/');
    if rest[0] != "" {
      assert tail[0] == rest[0][0] && rest[0][0] in rest[0];
    }
  }

  lemma InnerShift(segments: seq<string>)
    requires |segments| > 1
    ensures InnerNonEmpty(segments) <==>
            InnerNonEmpty(segments[1..]) && !(|segments[1..]| > 1 && segments[1..][0] == "")
  {
    var rest := segments[1..];
    if InnerNonEmpty(segments) {
      forall i | 0 < i < |rest| - 1 ensures rest[i] != "" {
        assert rest[i] == segments[i + 1];
      }
    }
    if InnerNonEmpty(rest) && !(|rest| > 1 && rest[0] == "") {
      forall i | 0 < i < |segments| - 1 ensures segments[i] != "" {
        assert segments[i] == rest[i - 1];
      }
    }
  }

  lemma {:induction false} JoinedChars(segments: seq<string>, c: char)
    requires c in Join(segments, '/') && c != '/'
    ensures exists i :: 0 <= i < |segments| && c in segments[i]
  {
    if |segments| > 1 {
      var joined := segments[0] + ['/'] + Join(segments[1..], '/');
      if c in segments[0] {
      } else {
        JoinedChars(segments[1..], c);
        var i :| 0 <= i < |segments[1..]| && c in segments[1..][i];
        assert c in segments[i + 1];
      }
    }
  }

  lemma NoDoubleNoScheme(s: string)
    requires !DoubleSlash(s)
    ensures !HasScheme(s)
  {
    forall i | 0 <= i < |s| - 2 ensures !(s[i] == ':' && s[i + 1] == '/' && s[i + 2] == '/') {
      assert !(s[i + 1] == '/' && s[i + 1 + 1] == '/');
    }
  }

  // ----- templates -----

  predicate IsLetter(c: char) { 'a' <= c <= 'z' || 'A' <= c <= 'Z' }

  predicate IsNameChar(c: char) { IsLetter(c) || '0' <= c <= '9' || c == '_' }

  predicate IsPlaceholder(segment: string)
  {
    |segment| >= 3 && segment[0] == '{' && segment[|segment| - 1] == '}' && IsLetter(segment[1]) &&
    forall i :: 1 <= i < |segment| - 1 ==> IsNameChar(segment[i])
  }

  function NameOf(segment: string): string
    requires IsPlaceholder(segment)
  {
    segment[1..|segment| - 1]
  }

  predicate IsLiteral(segment: string)
  {
    !IsPlaceholder(segment) && '{' !in segment && '}' !in segment && AllSafe(segment)
  }

  /** Every segment is a safe literal or a placeholder, no name twice. */
  predicate WellFormed(segments: seq<string>)
  {
    && (forall i :: 0 <= i < |segments| ==> IsPlaceholder(segments[i]) || IsLiteral(segments[i]))
    && (forall i, j :: 0 <= i < j < |segments| && IsPlaceholder(segments[i]) && IsPlaceholder(segments[j]) ==>
          NameOf(segments[i]) != NameOf(segments[j]))
  }

  function Names(segments: seq<string>): set<string>
  {
    set i | 0 <= i < |segments| && IsPlaceholder(segments[i]) :: NameOf(segments[i])
  }

  /** `str` of an integer. */
  function IntText(n: int): string
  {
    if n < 0 then "-" + NatText(-n) else NatText(n)
  }

  function NatText(n: nat): string
  {
    if n < 10 then [(n + '0' as int) as char] else NatText(n / 10) + [(n % 10 + '0' as int) as char]
  }

  /** The text of a parameter; only texts and integers have one. */
  function ParameterText(v: Json): Option<string>
  {
    match v case Str(s) => Some(s) case Int(i) => Some(IntText(i)) case _ => None
  }

  predicate Acceptable(v: Json)
  {
    ParameterText(v).Some? && ParameterText(v).value != "" && AllSafe(ParameterText(v).value)
  }

  predicate Renderable(template: string, parameters: Fields)
  {
    var segments := Split(template, '/');
    && ValidFinalPath(template)
    && WellFormed(segments)
    && parameters.Keys == Names(segments)
    && forall name :: name in parameters ==> Acceptable(parameters[name])
  }

  /** The rendered segments of a template. */
  ghost predicate Rendered(segments: seq<string>, parameters: Fields, rendered: seq<string>)
  {
    |rendered| == |segments| &&
    forall i :: 0 <= i < |segments| ==>
      if IsPlaceholder(segments[i]) then
        NameOf(segments[i]) in parameters && ParameterText(parameters[NameOf(segments[i])]).Some? &&
        rendered[i] == Quote(ParameterText(parameters[NameOf(segments[i])]).value)
      else rendered[i] == segments[i]
  }

  /** A quoted value is a non-empty segment of path characters. */
  lemma QuotedSegment(text: string)
    requires text != ""
    ensures Quote(text) != "" && forall c :: c in Quote(text) ==> c !in {'/', '\\', '?', '#'}
  {
    QuotedIsPlain(Utf8Text(text));
    assert Utf8Text(text) != [] by {
      assert |Utf8(text[0])| > 0;
    }
  }

  lemma RenderedSegments(segments: seq<string>, parameters: Fields, rendered: seq<string>)
    requires WellFormed(segments) && NoSlash(segments) && Rendered(segments, parameters, rendered)
    requires forall name :: name in parameters ==> Acceptable(parameters[name])
    ensures NoSlash(rendered)
    ensures forall i, c :: 0 <= i < |rendered| && c in rendered[i] ==> c !in {'\\', '?', '#'}
    ensures InnerNonEmpty(segments) ==> InnerNonEmpty(rendered)
  {
    forall i | 0 <= i < |rendered|
      ensures forall c :: c in rendered[i] ==> c !in {'/', '\\', '?', '#'}
      ensures segments[i] != "" ==> rendered[i] != ""
    {
      if IsPlaceholder(segments[i]) {
        QuotedSegment(ParameterText(parameters[NameOf(segments[i])]).value);
      } else {
        assert IsLiteral(segments[i]) && !Unsafe(segments[i]);
      }
    }
  }

  /** The guard on the rendered path never fires. */
  lemma RenderedIsValid(template: string, parameters: Fields, rendered: seq<string>)
    requires Renderable(template, parameters)
    requires Rendered(Split(template, '/'), parameters, rendered)
    ensures ValidFinalPath(Join(rendered, '/'))
    ensures Split(Join(rendered, '/'), '/') == rendered
  {
    var segments, path := Split(template, '/'), Join(rendered, '/');
    JoinSplit(template, '/');
    RenderedSegments(segments, parameters, rendered);
    DoubleSlashExactly(segments);
    DoubleSlashExactly(rendered);
    NoDoubleNoScheme(path);
    TailStart(segments);
    assert segments[0] == "" && |segments| > 1;
    TailStart(rendered);
    forall c | c in path ensures c !in {'\\', '?', '#'} {
      if c != '/' {
        JoinedChars(rendered, c);
      }
    }
    SplitJoin(rendered, '/');
  }

  /** Splitting a rendered path and decoding each placeholder segment once gives the
      parameters back, as text; literal segments come back as they are. */
  lemma RenderInvertible(template: string, parameters: Fields, rendered: seq<string>, i: nat)
    requires Renderable(template, parameters)
    requires Rendered(Split(template, '/'), parameters, rendered) && i < |rendered|
    ensures var segments, read := Split(template, '/'), Split(Join(rendered, '/'), '/');
            && |read| == |segments|
            && if IsPlaceholder(segments[i])
               then NameOf(segments[i]) in parameters &&
                    Unquote(read[i]) == ParameterText(parameters[NameOf(segments[i])])
               else read[i] == segments[i]
  {
    RenderedIsValid(template, parameters, rendered);
    if IsPlaceholder(Split(template, '/')[i]) {
      UnquoteQuote(ParameterText(parameters[NameOf(Split(template, '/')[i])]).value);
    }
  }

  /** What one more segment adds to a well-formed prefix. */
  lemma NextSegment(segments: seq<string>, i: nat)
    requires i < |segments|
    ensures WellFormed(segments[..i + 1]) <==>
            && WellFormed(segments[..i])
            && (IsPlaceholder(segments[i]) || IsLiteral(segments[i]))
            && (IsPlaceholder(segments[i]) ==> NameOf(segments[i]) !in Names(segments[..i]))
    ensures Names(segments[..i + 1]) ==
            Names(segments[..i]) + if IsPlaceholder(segments[i]) then {NameOf(segments[i])} else {}
    ensures WellFormed(segments) ==> WellFormed(segments[..i + 1])
  {
    var longer, shorter := segments[..i + 1], segments[..i];
    assert longer[i] == segments[i] && forall j :: 0 <= j < i ==> longer[j] == shorter[j];
    NamesGrow(segments, i);
    if WellFormed(longer) {
      forall j | 0 <= j < |shorter| ensures IsPlaceholder(shorter[j]) || IsLiteral(shorter[j]) {
        assert longer[j] == shorter[j];
      }
      forall j | 0 <= j < i && IsPlaceholder(segments[i]) && IsPlaceholder(shorter[j])
        ensures NameOf(shorter[j]) != NameOf(segments[i])
      {
        assert longer[j] == shorter[j];
      }
    }
  }

  lemma NamesGrow(segments: seq<string>, i: nat)
    requires i < |segments|
    ensures Names(segments[..i + 1]) ==
            Names(segments[..i]) + if IsPlaceholder(segments[i]) then {NameOf(segments[i])} else {}
  {
    var longer, shorter := segments[..i + 1], segments[..i];
    var more := if IsPlaceholder(segments[i]) then {NameOf(segments[i])} else {};
    forall name | name in Names(longer) ensures name in Names(shorter) + more {
      var j :| 0 <= j < |longer| && IsPlaceholder(longer[j]) && NameOf(longer[j]) == name;
      assert j < i ==> shorter[j] == longer[j];
    }
    forall name | name in Names(shorter) + more ensures name in Names(longer) {
      if name in Names(shorter) {
        var j :| 0 <= j < |shorter| && IsPlaceholder(shorter[j]) && NameOf(shorter[j]) == name;
        assert longer[j] == shorter[j];
      } else {
        assert longer[i] == segments[i];
      }
    }
  }

  /** Where each placeholder stands, and what is rendered so far. */
  ghost predicate Layout(segments: seq<string>, parameters: Fields, placeholders: map<string, nat>,
                         rest: set<string>, rendered: seq<string>)
  {
    && |rendered| == |segments|
    && placeholders.Keys == Names(segments) == parameters.Keys
    && (forall name :: name in placeholders ==>
          placeholders[name] < |segments| && IsPlaceholder(segments[placeholders[name]]) &&
          NameOf(segments[placeholders[name]]) == name)
    && (forall j :: 0 <= j < |segments| && !IsPlaceholder(segments[j]) ==> rendered[j] == segments[j])
    && (forall j :: 0 <= j < |segments| && IsPlaceholder(segments[j]) && NameOf(segments[j]) !in rest ==>
          NameOf(segments[j]) in parameters && Acceptable(parameters[NameOf(segments[j])]) &&
          rendered[j] == Quote(ParameterText(parameters[NameOf(segments[j])]).value))
  }

  lemma LayoutStep(segments: seq<string>, parameters: Fields, placeholders: map<string, nat>, rest: set<string>,
                   rendered: seq<string>, name: string)
    requires WellFormed(segments) && Layout(segments, parameters, placeholders, rest, rendered)
    requires name in rest && name in placeholders && Acceptable(parameters[name])
    ensures Layout(segments, parameters, placeholders, rest - {name},
                   rendered[placeholders[name] := Quote(ParameterText(parameters[name]).value)])
  {
    var index := placeholders[name];
    forall j | 0 <= j < |segments| && IsPlaceholder(segments[j]) && j != index ensures NameOf(segments[j]) != name {
      assert j < index || index < j;
    }
  }

  lemma LayoutDone(segments: seq<string>, parameters: Fields, placeholders: map<string, nat>, rendered: seq<string>)
    requires Layout(segments, parameters, placeholders, {}, rendered)
    ensures Rendered(segments, parameters, rendered)
  {
  }

  lemma LayoutStart(segments: seq<string>, parameters: Fields, placeholders: map<string, nat>, blank: seq<string>)
    requires |blank| == |segments| && placeholders.Keys == Names(segments) == parameters.Keys
    requires forall name :: name in placeholders ==>
               placeholders[name] < |segments| && IsPlaceholder(segments[placeholders[name]]) &&
               NameOf(segments[placeholders[name]]) == name
    requires forall j :: 0 <= j < |segments| && !IsPlaceholder(segments[j]) ==> blank[j] == segments[j]
    ensures Layout(segments, parameters, placeholders, placeholders.Keys, blank)
  {
    forall j | 0 <= j < |segments| && IsPlaceholder(segments[j]) ensures NameOf(segments[j]) in placeholders {
      assert NameOf(segments[j]) in Names(segments);
    }
  }

  /** Fills in the quoted parameters, in any order of the names. */
  method FillPlaceholders(template: string, segments: seq<string>, parameters: Fields,
                          placeholders: map<string, nat>, blank: seq<string>) returns (r: Option<string>)
    requires ValidFinalPath(template) && segments == Split(template, '/') && WellFormed(segments)
    requires Layout(segments, parameters, placeholders, placeholders.Keys, blank)
    ensures r.Some? <==> Renderable(template, parameters)
    ensures r.Some? ==> ValidFinalPath(r.value) && Rendered(segments, parameters, Split(r.value, '/'))
  {
    var rendered := blank;
    var rest := placeholders.Keys;
    while rest != {}
      invariant rest <= placeholders.Keys
      invariant Layout(segments, parameters, placeholders, rest, rendered)
      invariant forall name :: name in placeholders.Keys - rest ==> Acceptable(parameters[name])
    {
      var name :| name in rest;
      var index := placeholders[name];
      var raw := ParameterText(parameters[name]);
      if raw.None? {
        return None;
      }
      var fine := ValidatePathSegment(raw.value, false);
      if !fine {
        return None;
      }
      LayoutStep(segments, parameters, placeholders, rest, rendered, name);
      rendered := rendered[index := Quote(raw.value)];
      rest := rest - {name};
    }
    LayoutDone(segments, parameters, placeholders, rendered);
    var path := Join(rendered, '/');
    RenderedIsValid(template, parameters, rendered);
    return if ValidFinalPath(path) then Some(path) else None;
  }

  /** Renders a path, or refuses exactly the inputs that are not renderable. */
  method RenderActionPath(template: string, parameters: Fields) returns (r: Option<string>)
    ensures r.Some? <==> Renderable(template, parameters)
    ensures r.Some? ==> ValidFinalPath(r.value) &&
                        Rendered(Split(template, '/'), parameters, Split(r.value, '/'))
  {
    if !ValidFinalPath(template) {
      return None;
    }
    var segments := Split(template, '/');
    var read := ReadTemplate(segments);
    if read.None? {
      return None;
    }
    var (placeholders, renderedSegments) := read.value;
    if parameters.Keys != placeholders.Keys {
      return None;
    }
    LayoutStart(segments, parameters, placeholders, renderedSegments);
    r := FillPlaceholders(template, segments, parameters, placeholders, renderedSegments);
  }

  /** What is noted of a template so far: each placeholder's position, and the literals. */
  ghost predicate Noted(segments: seq<string>, i: nat, placeholders: map<string, nat>, blank: seq<string>)
    requires i <= |segments|
  {
    && |blank| == i && placeholders.Keys == Names(segments[..i])
    && (forall name :: name in placeholders ==>
          placeholders[name] < i && IsPlaceholder(segments[placeholders[name]]) &&
          NameOf(segments[placeholders[name]]) == name)
    && (forall j :: 0 <= j < i && !IsPlaceholder(segments[j]) ==> blank[j] == segments[j])
  }

  lemma NotedMore(segments: seq<string>, i: nat, placeholders: map<string, nat>, blank: seq<string>)
    requires i < |segments| && Noted(segments, i, placeholders, blank)
    ensures IsPlaceholder(segments[i]) ==>
              Noted(segments, i + 1, placeholders[NameOf(segments[i]) := i], blank + [""])
    ensures !IsPlaceholder(segments[i]) ==> Noted(segments, i + 1, placeholders, blank + [segments[i]])
  {
    NextSegment(segments, i);
  }

  /** The loop over the template: literals are kept, placeholders noted. */
  method ReadTemplate(segments: seq<string>) returns (r: Option<(map<string, nat>, seq<string>)>)
    ensures r.Some? <==> WellFormed(segments)
    ensures r.Some? ==> Noted(segments, |segments|, r.value.0, r.value.1) && r.value.0.Keys == Names(segments)
  {
    var placeholders: map<string, nat> := map[];
    var renderedSegments: seq<string> := [];
    for i := 0 to |segments|
      invariant WellFormed(segments[..i]) && Noted(segments, i, placeholders, renderedSegments)
    {
      var segment := segments[i];
      NextSegment(segments, i);
      NotedMore(segments, i, placeholders, renderedSegments);
      if IsPlaceholder(segment) {
        var name := NameOf(segment);
        if name in placeholders {
          return None;
        }
        placeholders := placeholders[name := |renderedSegments|];
        renderedSegments := renderedSegments + [""];
      } else {
        if '{' in segment || '}' in segment {
          return None;
        }
        var fine := ValidatePathSegment(segment, segment == "");
        if !fine {
          return None;
        }
        renderedSegments := renderedSegments + [segment];
      }
    }
    assert segments[..|segments|] == segments;
    return Some((placeholders, renderedSegments));
  }

  /** Two parameter sets that render the same path agree as text. */
  lemma RenderInjective(template: string, p: Fields, q: Fields, a: seq<string>, b: seq<string>, name: string)
    requires Renderable(template, p) && Rendered(Split(template, '/'), p, a)
    requires Renderable(template, q) && Rendered(Split(template, '/'), q, b)
    requires Join(a, '/') == Join(b, '/') && name in p
    ensures name in q && ParameterText(p[name]) == ParameterText(q[name])
  {
    var segments := Split(template, '/');
    var i :| 0 <= i < |segments| && IsPlaceholder(segments[i]) && NameOf(segments[i]) == name;
    RenderInvertible(template, p, a, i);
    RenderInvertible(template, q, b, i);
  }
}
