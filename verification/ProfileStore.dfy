/** The store of connector profiles. Where the product tables are installed a call
    upserts or deletes one row; where they are not, it appends one event to the audit
    log and profiles are read back by folding the log. */
module ProfileStore {
  import opened Common
  import opened ConnectorProfiles

  const PAGE := 500

  datatype Content = ProfileConfigured(key: Key, profile: Profile) | ProfileUnlinked(key: Key) | Other
  datatype Event = Event(workspace: string, content: Content)

  /** What a request to the product tables came to. */
  datatype Attempt<T> = MissingSchema | Done(value: T)

  type Answer = Result<Option<Profile>, Error>

  /** An event is redacted before it is stored. */
  function RedactedContent(content: Content): Content
  {
    match content
    case ProfileConfigured(key, p) =>
      ProfileConfigured(key, p.(evidence := p.evidence.(states := Redact(p.evidence.states))))
    case _ => content
  }

  function Text(key: Key): string { key.connector + ":" + key.mode + ":" + key.environment }

  predicate Plain(key: Key) { ':' !in key.connector && key.mode in SOURCE_OF }

  lemma KeyTextInjective(a: Key, b: Key)
    requires Plain(a) && Plain(b) && Text(a) == Text(b)
    ensures a == b
  {
    Parts(a);
    Parts(b);
    var parts := Split(Text(a), ':');
    assert parts[0] == a.connector == b.connector && parts[1] == a.mode == b.mode;
    assert parts[2..] == Split(a.environment, ':') == Split(b.environment, ':');
    JoinSplit(a.environment, ':');
    JoinSplit(b.environment, ':');
  }

  lemma Parts(key: Key)
    requires Plain(key)
    ensures Split(Text(key), ':') == [key.connector, key.mode] + Split(key.environment, ':')
  {
    assert ':' !in key.mode;
    SplitPrefix(key.mode, key.environment, ':');
    assert Text(key) == key.connector + [':'] + (key.mode + [':'] + key.environment);
    SplitPrefix(key.connector, key.mode + [':'] + key.environment, ':');
  }

  /** The events of one workspace, oldest first. */
  function Of(events: seq<Event>, workspace: string): seq<Event>
  {
    if events == [] then []
    else
      var last := events[|events| - 1];
      Of(events[..|events| - 1], workspace) + if last.workspace == workspace then [last] else []
  }

  lemma {:induction false} OfIs(events: seq<Event>, workspace: string)
    ensures forall e :: e in Of(events, workspace) ==> e in events && e.workspace == workspace
  {
    if events != [] {
      OfIs(events[..|events| - 1], workspace);
    }
  }

  lemma {:induction false} OfOwn(events: seq<Event>, workspace: string)
    requires forall e :: e in events ==> e.workspace == workspace
    ensures Of(events, workspace) == events
  {
    if events != [] {
      OfOwn(events[..|events| - 1], workspace);
    }
  }

  function Page(all: seq<Event>, offset: nat): (page: seq<Event>)
    requires offset <= |all|
  {
    if offset + PAGE <= |all| then all[offset..offset + PAGE] else all[offset..]
  }

  lemma PageExtends(all: seq<Event>, offset: nat)
    requires offset <= |all|
    ensures var page := Page(all, offset);
            && all[..offset] + page == all[..offset + |page|]
            && (|page| < PAGE ==> offset + |page| == |all|)
  {
  }

  /** The profiles that a sequence of events leaves. */
  function Folded(events: seq<Event>): Profiles
  {
    if events == [] then map[]
    else
      var before := Folded(events[..|events| - 1]);
      match events[|events| - 1].content
      case ProfileConfigured(key, profile) => before[key := Public(profile)]
      case ProfileUnlinked(key) => before - {key}
      case Other => before
  }

  predicate Sound(events: seq<Event>)
  {
    forall e :: e in events && !e.content.Other? ==> Plain(e.content.key)
  }

  /** A dictionary keyed by text holds the same profiles as a map keyed by keys. */
  ghost predicate Mirrors(byText: map<string, Profile>, profiles: Profiles)
  {
    && (forall key :: key in profiles ==> Plain(key))
    && (forall key :: Plain(key) ==> (Text(key) in byText <==> key in profiles))
    && (forall key :: key in profiles ==> byText[Text(key)] == profiles[key])
  }

  lemma MirrorsPut(byText: map<string, Profile>, profiles: Profiles, key: Key, p: Profile)
    requires Mirrors(byText, profiles) && Plain(key)
    ensures Mirrors(byText[Text(key) := p], profiles[key := p])
  {
    forall other | Plain(other) && Text(other) == Text(key) ensures other == key {
      KeyTextInjective(other, key);
    }
  }

  lemma MirrorsDrop(byText: map<string, Profile>, profiles: Profiles, key: Key)
    requires Mirrors(byText, profiles) && Plain(key)
    ensures Mirrors(byText - {Text(key)}, profiles - {key})
  {
    forall other | Plain(other) && Text(other) == Text(key) ensures other == key {
      KeyTextInjective(other, key);
    }
  }

  /** Filtering keeps the size exactly when it keeps everything. */
  lemma SameSize(states: map<string, string>)
    ensures |SafeStates(states)| == |states| <==> SafeStates(states) == states
  {
    var kept := SafeStates(states);
    if |kept| == |states| {
      assert kept.Keys <= states.Keys && |kept.Keys| == |states.Keys|;
      SubsetOfSameSize(kept.Keys, states.Keys);
    }
  }

  lemma SafeNothing()
    ensures SafeEvidence(NOTHING) == NOTHING
  {
    assert SafeStates(NOTHING.states) == map[];
  }

  /** What the fold makes of a profile that was shown, recorded and read. */
  lemma ReadBack(key: Key, p: Profile)
    requires SafeEvidence(p.evidence) == p.evidence
    ensures RedactedContent(ProfileConfigured(key, Public(p))) == ProfileConfigured(key, Public(p))
    ensures Public(Public(p)) == Kept(false, p)
  {
    PublicTwice(p);
    assert Redact(Redact(p.evidence.states)) == Redact(p.evidence.states);
  }

  class Store {
    const catalog: Catalog
    const installed: bool
    var tables: map<string, Profiles>
    var events: seq<Event>

    constructor (catalog: Catalog, installed: bool)
      requires forall connector :: connector in catalog ==> ':' !in connector
      ensures Valid() && this.catalog == catalog && this.installed == installed
      ensures forall workspace :: View(workspace) == map[]
    {
      this.catalog, this.installed := catalog, installed;
      tables, events := map[], [];
    }

    predicate Valid()
      reads this
    {
      (forall connector :: connector in catalog ==> ':' !in connector) && Sound(events)
    }

    /** The profiles of a workspace, whichever way they are kept. */
    function View(workspace: string): Profiles
      reads this
    {
      if !installed then Folded(Of(events, workspace))
      else if workspace in tables then tables[workspace]
      else map[]
    }

    /** A call that meets its specification for one workspace and leaves the others. */
    twostate predicate Did(workspace: string, op: Op, new answer: Answer)
      reads this
    {
      && Valid()
      && (View(workspace), answer) == Applied(catalog, installed, old(View(workspace)), op)
      && forall other :: other != workspace ==> View(other) == old(View(other))
    }

    method StateEvents(workspace: string) returns (rows: seq<Event>)
      ensures rows == Of(events, workspace)
    {
      rows := [];
      var more := true;
      while more
        invariant |rows| <= |Of(events, workspace)| && rows == Of(events, workspace)[..|rows|]
        invariant !more ==> rows == Of(events, workspace)
        decreases more, |Of(events, workspace)| - |rows|
      {
        var page := GetPage(workspace, |rows|);
        PageExtends(Of(events, workspace), |rows|);
        rows := rows + page;
        more := |page| >= PAGE;
      }
      OfIs(events, workspace);
      OfOwn(rows, workspace);
      rows := Of(rows, workspace);
    }

    /** The log's answer to one page request. */
    method GetPage(workspace: string, offset: nat) returns (page: seq<Event>)
      requires offset <= |Of(events, workspace)|
      ensures page == Page(Of(events, workspace), offset)
    {
      page := Page(Of(events, workspace), offset);
    }

    method CurrentProfiles(workspace: string) returns (profiles: map<string, Profile>)
      requires Valid()
      ensures Mirrors(profiles, Folded(Of(events, workspace)))
    {
      profiles := map[];
      var rows := StateEvents(workspace);
      OfIs(events, workspace);
      for i := 0 to |rows|
        invariant Mirrors(profiles, Folded(rows[..i]))
      {
        assert rows[..i + 1][..i] == rows[..i];
        match rows[i].content
        case ProfileConfigured(key, profile) =>
          MirrorsPut(profiles, Folded(rows[..i]), key, Public(profile));
          profiles := profiles[Text(key) := Public(profile)];
        case ProfileUnlinked(key) =>
          MirrorsDrop(profiles, Folded(rows[..i]), key);
          profiles := profiles - {Text(key)};
        case Other =>
      }
      assert rows[..|rows|] == rows;
    }

    method Record(workspace: string, content: Content)
      requires Valid() && (!content.Other? ==> Plain(content.key))
      modifies this`events
      ensures Valid() && events == old(events) + [Event(workspace, RedactedContent(content))]
      ensures Folded(Of(events, workspace)) == match RedactedContent(content)
                case ProfileConfigured(key, profile) => Folded(Of(old(events), workspace))[key := Public(profile)]
                case ProfileUnlinked(key) => Folded(Of(old(events), workspace)) - {key}
                case Other => Folded(Of(old(events), workspace))
      ensures forall other :: other != workspace ==> Of(events, other) == Of(old(events), other)
    {
      var event := Event(workspace, RedactedContent(content));
      events := events + [event];
      assert events[..|events| - 1] == old(events);
      ghost var before := Of(old(events), workspace);
      assert Of(events, workspace) == before + [event];
      assert (before + [event])[..|before|] == before;
    }

    /** The row of one key, which the request selects by its four columns. */
    method GetRow(workspace: string, key: Key) returns (a: Attempt<Option<Profile>>)
      ensures a == if !installed then MissingSchema
                   else Done(if key in View(workspace) then Some(View(workspace)[key]) else None)
    {
      if !installed {
        a := MissingSchema;
      } else if workspace in tables && key in tables[workspace] {
        a := Done(Some(tables[workspace][key]));
      } else {
        a := Done(None);
      }
    }

    /** The check constraint decides whether the row is merged in. */
    method Upsert(workspace: string, key: Key, row: Profile) returns (ok: bool)
      requires Valid() && installed
      modifies this`tables
      ensures Valid() && ok == TableTakes(row.evidence.states)
      ensures View(workspace) == if ok then old(View(workspace))[key := row] else old(View(workspace))
      ensures forall other :: other != workspace ==> View(other) == old(View(other))
    {
      ok := TableTakes(row.evidence.states);
      if ok {
        var rows := if workspace in tables then tables[workspace] else map[];
        tables := tables[workspace := rows[key := row]];
      }
    }

    method SetProductTables(workspace: string, key: Key, given: Option<Evidence>, reset: bool)
      returns (a: Attempt<Answer>)
      requires Valid()
      modifies this`tables
      ensures Valid()
      ensures a.MissingSchema? <==> !installed && Fault(catalog, key).None?
      ensures a.Done? ==>
                (View(workspace), a.value) == Configured(catalog, true, old(View(workspace)), key, given, reset)
      ensures !installed ==> View(workspace) == old(View(workspace))
      ensures forall other :: other != workspace ==> View(other) == old(View(other))
    {
      if Fault(catalog, key).Some? {
        return Done(Err(Fault(catalog, key).value));
      }
      var found := GetRow(workspace, key);
      if found.MissingSchema? {
        return MissingSchema;
      }
      var existing := if found.value.Some? then found.value.value.evidence else NOTHING;
      var e := if reset then NOTHING else SafeEvidence(if given.Some? then given.value else existing);
      SafeNothing();
      var row := Profile(e, StatusOf(catalog, key.connector, key.mode, e));
      var ok := Upsert(workspace, key, row);
      if !ok {
        return Done(Err(RefusedByTable));
      }
      a := Done(Ok(Some(Public(row))));
    }

    method FallbackSet(workspace: string, key: Key, given: Option<Evidence>, reset: bool) returns (answer: Answer)
      requires Valid() && !installed
      modifies this`events
      ensures Valid()
      ensures (View(workspace), answer) == Configured(catalog, false, old(View(workspace)), key, given, reset)
      ensures forall other :: other != workspace ==> View(other) == old(View(other))
    {
      if Fault(catalog, key).Some? {
        return Err(Fault(catalog, key).value);
      }
      var profiles := CurrentProfiles(workspace);
      var existing := if Text(key) in profiles then profiles[Text(key)].evidence else NOTHING;
      var e := if reset then NOTHING else SafeEvidence(if given.Some? then given.value else existing);
      SafeNothing();
      SafeTwice(if given.Some? then given.value else existing);
      var profile := Profile(e, StatusOf(catalog, key.connector, key.mode, e));
      ReadBack(key, profile);
      Record(workspace, ProfileConfigured(key, Public(profile)));
      answer := Ok(Some(Public(profile)));
    }

    method SetConnectorProfile(workspace: string, key: Key, given: Option<Evidence>, reset: bool)
      returns (answer: Answer)
      requires Valid()
      modifies this
      ensures Valid()
      ensures (View(workspace), answer) == Configured(catalog, installed, old(View(workspace)), key, given, reset)
      ensures forall other :: other != workspace ==> View(other) == old(View(other))
    {
      if key.connector !in catalog {
        return Err(UnknownConnector);
      }
      var a := SetProductTables(workspace, key, given, reset);
      match a
      case Done(value) => answer := value;
      case MissingSchema => answer := FallbackSet(workspace, key, given, reset);
    }

    method StartSetup(workspace: string, connector: string, environment: string) returns (answer: Answer)
      requires Valid()
      modifies this
      ensures Did(workspace, Setup(connector, environment), answer)
    {
      if connector !in catalog {
        return Err(UnknownConnector);
      }
      if !SomewhereSupported(catalog[connector], environment) {
        return Err(UnsupportedEnvironment);
      }
      answer := SetConnectorProfile(workspace, Key(connector, API, environment), None, false);
    }

    method LinkProfile(workspace: string, key: Key, server: Option<ServerName>) returns (answer: Answer)
      requires Valid()
      modifies this
      ensures Did(workspace, Link(key, server), answer)
    {
      if Fault(catalog, key).Some? {
        return Err(Fault(catalog, key).value);
      }
      if key.mode == NATIVE && (server.None? || !server.value.safe) {
        return Err(ServerNameRequired);
      }
      if key.mode == NATIVE && server.value.address {
        return Err(ServerNameIsAddress);
      }
      if key.mode == BRIDGE && server.Some? {
        return Err(ServerNameNotStored);
      }
      answer := SetConnectorProfile(workspace, key, None, true);
    }

    method ValidateProductTables(workspace: string, key: Key, e: Evidence) returns (a: Attempt<Answer>)
      requires Valid() && Fault(catalog, key).None?
      modifies this`tables
      ensures Valid()
      ensures a.MissingSchema? <==> !installed
      ensures a.Done? ==>
                (View(workspace), a.value) ==
                if key !in old(View(workspace)) then (old(View(workspace)), Err(NotLinked))
                else Configured(catalog, true, old(View(workspace)), key, Some(e), false)
      ensures !installed ==> View(workspace) == old(View(workspace))
      ensures forall other :: other != workspace ==> View(other) == old(View(other))
    {
      var found := GetRow(workspace, key);
      if found.MissingSchema? {
        return MissingSchema;
      }
      if found.value.None? {
        return Done(Err(NotLinked));
      }
      a := SetProductTables(workspace, key, Some(e), false);
    }

    method FallbackValidate(workspace: string, key: Key, e: Evidence) returns (answer: Answer)
      requires Valid() && !installed && Fault(catalog, key).None?
      modifies this`events
      ensures Valid()
      ensures (View(workspace), answer) ==
              if key !in old(View(workspace)) then (old(View(workspace)), Err(NotLinked))
              else Configured(catalog, false, old(View(workspace)), key, Some(e), false)
      ensures forall other :: other != workspace ==> View(other) == old(View(other))
    {
      var profiles := CurrentProfiles(workspace);
      assert Plain(key);
      if Text(key) !in profiles {
        return Err(NotLinked);
      }
      answer := FallbackSet(workspace, key, Some(e), false);
    }

    method ValidateProfile(workspace: string, key: Key, e: Evidence, goodReference: bool) returns (answer: Answer)
      requires Valid()
      modifies this
      ensures Did(workspace, Validate(key, e, goodReference), answer)
    {
      if Fault(catalog, key).Some? {
        return Err(Fault(catalog, key).value);
      }
      var m := ModeOf(catalog, key.connector, key.mode);
      if e.source != Some(SOURCE_OF[key.mode]) {
        return Err(SourceMismatch);
      }
      if !goodReference {
        return Err(InvalidReference);
      }
      var states := SafeStates(e.states);
      SameSize(e.states);
      if states == map[] || |states| != |e.states| {
        return Err(InvalidStates);
      }
      if !(Discovers(m) || forall name :: name in states ==> name in m.bound) {
        return Err(UndeclaredCapability);
      }
      if e.at.None? {
        return Err(InvalidTime);
      }
      var a := ValidateProductTables(workspace, key, e);
      match a
      case Done(value) => answer := value;
      case MissingSchema => answer := FallbackValidate(workspace, key, e);
    }

    method UnlinkProfile(workspace: string, key: Key) returns (answer: Answer)
      requires Valid()
      modifies this
      ensures Did(workspace, Unlink(key), answer)
    {
      if Fault(catalog, key).Some? {
        return Err(Fault(catalog, key).value);
      }
      if installed {
        if workspace in tables {
          tables := tables[workspace := tables[workspace] - {key}];
        }
      } else {
        Record(workspace, ProfileUnlinked(key));
      }
      answer := Ok(None);
    }
  }
}
