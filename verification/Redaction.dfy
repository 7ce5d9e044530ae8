/** Redaction of provider documents by wildcard paths. */
module Redaction {
  import opened Common
  import opened Json
  import opened JsonPointer

  const REDACTED := Str("[REDACTED]")

  /** Python's `str.isdigit`, for ASCII text. */
  predicate AllDigits(component: string)
  {
    component != "" && forall i :: 0 <= i < |component| ==> IsDigit(component[i])
  }

  /** A component selects a key or a position. */
  predicate Selects(component: string, step: Step)
  {
    component == "*" ||
    match step
    case Key(name) => component == name
    case Index(at) => AllDigits(component) && Value(component) == at
  }

  // ----- one selector -----

  function RedactPath(v: Json, path: seq<string>): Json
    decreases v, 0
  {
    if path == [] then v
    else match v
      case Obj(m) => Obj(map k | k in m :: if Selects(path[0], Key(k)) then RedactChild(m[k], path) else m[k])
      case Arr(items) =>
        Arr(seq(|items|, i requires 0 <= i < |items| =>
          if Selects(path[0], Index(i)) then RedactChild(items[i], path) else items[i]))
      case _ => v
  }

  function RedactChild(child: Json, path: seq<string>): Json
    requires path != []
    decreases child, 1
  {
    if |path| == 1 then REDACTED else RedactPath(child, path[1..])
  }

  /** The walk that overwrites the selected entries of one document. */
  method RedactInPlace(value: Json, components: seq<string>) returns (r: Json)
    ensures r == RedactPath(value, components)
    decreases value
  {
    if components == [] {
      return value;
    }
    var component, remaining := components[0], components[1..];
    match value {
      case Obj(m) =>
        var fields := m;
        if component == "*" {
          var rest := m.Keys;
          while rest != {}
            invariant rest <= m.Keys == fields.Keys
            invariant forall k :: k in m ==> fields[k] == if k in rest then m[k] else RedactChild(m[k], components)
          {
            var key :| key in rest;
            var entry := REDACTED;
            if remaining != [] {
              entry := RedactInPlace(m[key], remaining);
            }
            fields := fields[key := entry];
            rest := rest - {key};
          }
        } else if component in m {
          var entry := REDACTED;
          if remaining != [] {
            entry := RedactInPlace(m[component], remaining);
          }
          fields := fields[component := entry];
        }
        assert fields == RedactPath(value, components).fields;
        return Obj(fields);
      case Arr(items) =>
        var entries := items;
        if component == "*" {
          for index := 0 to |items|
            invariant |entries| == |items|
            invariant forall i :: 0 <= i < |items| ==>
                        entries[i] == if i < index then RedactChild(items[i], components) else items[i]
          {
            var entry := REDACTED;
            if remaining != [] {
              entry := RedactInPlace(items[index], remaining);
            }
            entries := entries[index := entry];
          }
        } else if AllDigits(component) && Value(component) < |items| {
          var index := Value(component);
          var entry := REDACTED;
          if remaining != [] {
            entry := RedactInPlace(items[index], remaining);
          }
          entries := entries[index := entry];
        }
        assert entries == RedactPath(value, components).items;
        return Arr(entries);
      case _ =>
        return value;
    }
  }

  // ----- several selectors -----

  function RedactAll(v: Json, selectors: seq<seq<string>>): Json
  {
    if selectors == [] then v
    else RedactPath(RedactAll(v, selectors[..|selectors| - 1]), selectors[|selectors| - 1])
  }

  /** The selectors among the given paths: non-empty texts, split at dots. */
  function Selectors(paths: seq<Json>): seq<seq<string>>
  {
    if paths == [] then []
    else
      var last := paths[|paths| - 1];
      Selectors(paths[..|paths| - 1]) + if last.Str? && last.s != "" then [Split(last.s, '.')] else []
  }

  method RedactPaths(value: Json, paths: seq<Json>) returns (r: Json)
    ensures r == RedactAll(value, Selectors(paths))
  {
    r := value;
    for i := 0 to |paths|
      invariant r == RedactAll(value, Selectors(paths[..i]))
    {
      assert paths[..i + 1][..i] == paths[..i];
      ghost var before := Selectors(paths[..i]);
      if paths[i].Str? && paths[i].s != "" {
        var components := Split(paths[i].s, '.');
        r := RedactInPlace(r, components);
        assert Selectors(paths[..i + 1]) == before + [components];
        assert (before + [components])[..|before|] == before;
      } else {
        assert Selectors(paths[..i + 1]) == before + [] == before;
      }
    }
    assert paths[..|paths|] == paths;
  }

  // ----- all selectors at once -----

  /** What is left of the selectors after one step down; an empty remainder marks
      a selector that ends there. */
  function Next(selectors: set<seq<string>>, step: Step): set<seq<string>>
  {
    set s | s in selectors && s != [] && Selects(s[0], step) :: s[1..]
  }

  function RedactSet(v: Json, selectors: set<seq<string>>): Json
    decreases v, 0
  {
    match v
    case Obj(m) => Obj(map k | k in m :: RedactBelow(m[k], Next(selectors, Key(k))))
    case Arr(items) =>
      Arr(seq(|items|, i requires 0 <= i < |items| => RedactBelow(items[i], Next(selectors, Index(i)))))
    case _ => v
  }

  function RedactBelow(child: Json, remaining: set<seq<string>>): Json
    decreases child, 1
  {
    if [] in remaining then REDACTED else RedactSet(child, remaining)
  }

  lemma NextAdd(selectors: set<seq<string>>, path: seq<string>, step: Step)
    ensures Next(selectors + {path}, step) ==
            Next(selectors, step) + if path != [] && Selects(path[0], step) then {path[1..]} else {}
  {
    var more := if path != [] && Selects(path[0], step) then {path[1..]} else {};
    forall t | t in Next(selectors, step) + more ensures t in Next(selectors + {path}, step) {
      if t in Next(selectors, step) {
        var s :| s in selectors && s != [] && Selects(s[0], step) && s[1..] == t;
        assert s in selectors + {path};
      }
    }
  }

  /** One more selector, applied afterwards, is one more in the set. */
  lemma {:induction false} PathJoinsSet(v: Json, selectors: set<seq<string>>, path: seq<string>)
    requires [] !in selectors
    ensures RedactPath(RedactSet(v, selectors), path) == RedactSet(v, selectors + {path})
    decreases v, 0
  {
    match v {
      case Obj(m) =>
        forall k | k in m
          ensures RedactSet(v, selectors + {path}).fields[k] ==
                  RedactStep(RedactBelow(m[k], Next(selectors, Key(k))), path, Key(k))
        {
          ChildJoinsSet(m[k], selectors, path, Key(k));
        }
        var once := RedactSet(v, selectors);
        forall k | k in m && path != []
          ensures RedactPath(once, path).fields[k] == RedactStep(once.fields[k], path, Key(k))
        {
        }
        assert RedactPath(once, path).fields == RedactSet(v, selectors + {path}).fields;
      case Arr(items) =>
        forall i | 0 <= i < |items|
          ensures RedactSet(v, selectors + {path}).items[i] ==
                  RedactStep(RedactBelow(items[i], Next(selectors, Index(i))), path, Index(i))
        {
          ChildJoinsSet(items[i], selectors, path, Index(i));
        }
        var once := RedactSet(v, selectors);
        forall i | 0 <= i < |items| && path != []
          ensures RedactPath(once, path).items[i] == RedactStep(once.items[i], path, Index(i))
        {
        }
        assert RedactPath(once, path).items == RedactSet(v, selectors + {path}).items;
      case _ =>
    }
  }

  /** What one selector does to the entry behind one step. */
  function RedactStep(child: Json, path: seq<string>, step: Step): Json
  {
    if path != [] && Selects(path[0], step) then RedactChild(child, path) else child
  }

  lemma {:induction false} ChildJoinsSet(child: Json, selectors: set<seq<string>>, path: seq<string>, step: Step)
    requires [] !in selectors
    ensures RedactBelow(child, Next(selectors + {path}, step)) ==
            RedactStep(RedactBelow(child, Next(selectors, step)), path, step)
    decreases child, 1
  {
    var remaining := Next(selectors, step);
    NextAdd(selectors, path, step);
    if path != [] && Selects(path[0], step) {
      assert Next(selectors + {path}, step) == remaining + {path[1..]};
      if [] in remaining || |path| == 1 {
        assert |path| == 1 ==> path[1..] == [];
        assert [] in remaining + {path[1..]};
        assert |path| > 1 ==> RedactPath(REDACTED, path[1..]) == REDACTED;
      } else {
        assert path[1..] != [];
        PathJoinsSet(child, remaining, path[1..]);
      }
    } else {
      assert Next(selectors + {path}, step) == remaining;
    }
  }

  lemma {:induction false} EmptySetKeeps(v: Json, selectors: set<seq<string>>)
    requires selectors <= {[]}
    ensures RedactSet(v, selectors) == v
    decreases v
  {
    match v {
      case Obj(m) =>
        forall k | k in m ensures RedactBelow(m[k], Next(selectors, Key(k))) == m[k] {
          assert Next(selectors, Key(k)) == {};
          EmptySetKeeps(m[k], {});
        }
        assert RedactSet(v, selectors).fields == m;
      case Arr(items) =>
        forall i | 0 <= i < |items| ensures RedactBelow(items[i], Next(selectors, Index(i))) == items[i] {
          assert Next(selectors, Index(i)) == {};
          EmptySetKeeps(items[i], {});
        }
        assert RedactSet(v, selectors).items == items;
      case _ =>
    }
  }

  function Elements(selectors: seq<seq<string>>): set<seq<string>> { set s | s in selectors }

  /** Applying selectors one after the other is applying the set of them at once:
      neither their order nor repetition matters. */
  lemma {:induction false} AllIsSet(v: Json, selectors: seq<seq<string>>)
    requires [] !in selectors
    ensures RedactAll(v, selectors) == RedactSet(v, Elements(selectors))
  {
    if selectors == [] {
      EmptySetKeeps(v, Elements(selectors));
    } else {
      var rest, last := selectors[..|selectors| - 1], selectors[|selectors| - 1];
      assert selectors == rest + [last];
      AllIsSet(v, rest);
      PathJoinsSet(v, Elements(rest), last);
      assert Elements(selectors) == Elements(rest) + {last};
    }
  }

  lemma {:induction false} SelectorsNonEmpty(paths: seq<Json>)
    ensures [] !in Selectors(paths)
  {
    if paths != [] {
      SelectorsNonEmpty(paths[..|paths| - 1]);
    }
  }

  /** Redaction does not depend on the order in which the paths are listed. */
  lemma RedactionIgnoresOrder(v: Json, a: seq<Json>, b: seq<Json>)
    requires Elements(Selectors(a)) == Elements(Selectors(b))
    ensures RedactAll(v, Selectors(a)) == RedactAll(v, Selectors(b))
  {
    SelectorsNonEmpty(a);
    SelectorsNonEmpty(b);
    AllIsSet(v, Selectors(a));
    AllIsSet(v, Selectors(b));
  }

  lemma {:induction false} AllConcat(v: Json, a: seq<seq<string>>, b: seq<seq<string>>)
    ensures RedactAll(RedactAll(v, a), b) == RedactAll(v, a + b)
  {
    if b == [] {
      assert a + b == a;
    } else {
      var both := a + b;
      assert both[..|both| - 1] == a + b[..|b| - 1];
      AllConcat(v, a, b[..|b| - 1]);
    }
  }

  /** Redacting twice is redacting once. */
  lemma RedactionIdempotent(v: Json, paths: seq<Json>)
    ensures RedactAll(RedactAll(v, Selectors(paths)), Selectors(paths)) == RedactAll(v, Selectors(paths))
  {
    var s := Selectors(paths);
    SelectorsNonEmpty(paths);
    AllConcat(v, s, s);
    assert [] !in s + s;
    AllIsSet(v, s + s);
    AllIsSet(v, s);
    assert Elements(s + s) == Elements(s);
  }

  // ----- location by location -----

  /** A selector names a location: same length, and every component selects. */
  predicate Names(selector: seq<string>, location: seq<Step>)
  {
    |selector| == |location| && forall i :: 0 <= i < |selector| ==> Selects(selector[i], location[i])
  }

  ghost predicate Named(selectors: set<seq<string>>, location: seq<Step>)
  {
    exists s :: s in selectors && Names(s, location)
  }

  /** Some selector names a place strictly above the location. */
  ghost predicate NamedAbove(selectors: set<seq<string>>, location: seq<Step>)
  {
    exists n :: 0 < n < |location| && Named(selectors, location[..n])
  }

  /** Some selector reaches strictly below the location. */
  ghost predicate ReachesBelow(selectors: set<seq<string>>, location: seq<Step>)
  {
    exists s :: s in selectors && |s| > |location| && Names(s[..|location|], location)
  }

  lemma NamedNext(selectors: set<seq<string>>, location: seq<Step>)
    requires location != []
    ensures Named(selectors, location) <==> Named(Next(selectors, location[0]), location[1..])
    ensures ReachesBelow(selectors, location) <==> ReachesBelow(Next(selectors, location[0]), location[1..])
  {
    var next, rest := Next(selectors, location[0]), location[1..];
    forall s | s in selectors && s != [] && Selects(s[0], location[0])
      ensures s[1..] in next
      ensures Names(s, location) <==> Names(s[1..], rest)
      ensures |s| > |location| ==> (Names(s[..|location|], location) <==> Names(s[1..][..|rest|], rest))
    {
      assert forall i :: 0 <= i < |rest| ==> rest[i] == location[i + 1];
      if |s| > |location| {
        assert forall i :: 0 <= i < |rest| ==> s[1..][..|rest|][i] == s[..|location|][i + 1];
        if Names(s[1..][..|rest|], rest) {
          forall i | 0 <= i < |location| ensures Selects(s[..|location|][i], location[i]) {
            if i > 0 {
              assert Selects(s[1..][..|rest|][i - 1], rest[i - 1]);
            }
          }
        }
      }
      if Names(s[1..], rest) {
        forall i | 0 <= i < |location| ensures Selects(s[i], location[i]) {
          if i > 0 {
            assert Selects(s[1..][i - 1], rest[i - 1]);
          }
        }
      }
    }
    if Named(selectors, location) {
      var s :| s in selectors && Names(s, location);
      assert Selects(s[0], location[0]) && Names(s[1..], rest);
    }
    if ReachesBelow(selectors, location) {
      var s :| s in selectors && |s| > |location| && Names(s[..|location|], location);
      assert Selects(s[..|location|][0], location[0]);
      assert s[1..] in next;
    }
  }

  lemma AboveNext(selectors: set<seq<string>>, location: seq<Step>)
    requires location != []
    ensures NamedAbove(selectors, location) <==>
            (|location| > 1 && [] in Next(selectors, location[0])) ||
            NamedAbove(Next(selectors, location[0]), location[1..])
  {
    var next, rest := Next(selectors, location[0]), location[1..];
    forall n | 0 < n < |location|
      ensures Named(selectors, location[..n]) <==> Named(next, rest[..n - 1])
    {
      NamedNext(selectors, location[..n]);
      assert location[..n][1..] == rest[..n - 1];
    }
    assert Named(next, []) <==> [] in next by {
      if [] in next {
        assert Names([], []);
      }
    }
    if |location| > 1 {
      assert rest[..0] == [];
      assert Named(selectors, location[..1]) <==> [] in next;
      if NamedAbove(next, rest) {
        var n :| 0 < n < |rest| && Named(next, rest[..n]);
        assert Named(selectors, location[..n + 1]);
      }
    }
  }

  /** What redaction leaves at a location. Below a named place there is nothing; at
      a named place there is the mark; a place no selector reaches keeps its value,
      and so does every scalar that is not named. */
  lemma {:induction false} RedactedAt(v: Json, selectors: set<seq<string>>, location: seq<Step>)
    requires [] !in selectors
    ensures var before, after := Follow(v, location), Follow(RedactSet(v, selectors), location);
            if NamedAbove(selectors, location) || before.None? then after.None?
            else if Named(selectors, location) then after == Some(REDACTED)
            else && after.Some?
                 && (before.value.Obj? ==> after.value.Obj? && after.value.fields.Keys == before.value.fields.Keys)
                 && (before.value.Arr? ==> after.value.Arr? && |after.value.items| == |before.value.items|)
                 && ((!before.value.Obj? && !before.value.Arr?) || !ReachesBelow(selectors, location) ==>
                       after == before)
    decreases |location|
  {
    if location == [] {
      if !ReachesBelow(selectors, location) {
        forall s | s in selectors ensures false {
          assert Names(s[..0], location);
        }
        EmptySetKeeps(v, selectors);
      }
      assert !Named(selectors, location);
    } else {
      var step, rest := location[0], location[1..];
      var next := Next(selectors, step);
      NamedNext(selectors, location);
      AboveNext(selectors, location);
      var child := Follow(v, [step]);
      FollowStep(v, location);
      FollowStep(RedactSet(v, selectors), location);
      if child.Some? {
        assert Follow(RedactSet(v, selectors), [step]) == Some(RedactBelow(child.value, next)) by {
          StepRedacted(v, selectors, step);
        }
        if [] in next {
          NamedHere(next, rest);
        } else {
          RedactedAt(child.value, next, rest);
        }
      } else {
        StepRedacted(v, selectors, step);
      }
    }
  }

  lemma NamedHere(next: set<seq<string>>, rest: seq<Step>)
    requires [] in next
    ensures rest == [] ==> Named(next, rest)
    ensures rest != [] ==> Follow(REDACTED, rest).None?
  {
    if rest == [] {
      assert Names([], rest);
    }
  }

  lemma FollowStep(v: Json, location: seq<Step>)
    requires location != []
    ensures var child := Follow(v, [location[0]]);
            Follow(v, location) == if child.None? then None else Follow(child.value, location[1..])
  {
    assert [location[0]][1..] == [];
  }

  lemma StepRedacted(v: Json, selectors: set<seq<string>>, step: Step)
    ensures Follow(v, [step]).None? ==> Follow(RedactSet(v, selectors), [step]).None?
    ensures Follow(v, [step]).Some? ==>
              Follow(RedactSet(v, selectors), [step]) ==
              Some(RedactBelow(Follow(v, [step]).value, Next(selectors, step)))
  {
    assert [step][1..] == [];
    if v.Arr? && step.Index? && step.at < |v.items| {
      assert Follow(v, [step]) == Some(v.items[step.at]);
    }
    if v.Obj? && step.Key? && step.name in v.fields {
      assert Follow(v, [step]) == Some(v.fields[step.name]);
    }
  }
}
