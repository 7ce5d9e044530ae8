/** What linking, setting up, validating and unlinking a connector profile mean, as
    one map from profile keys to profiles, and what every run of those calls keeps. */
module ConnectorProfiles {
  import opened Common
  import CapabilityKeys

  const OBSERVED := "observed"
  const NOT_AUTHORIZED := "not_authorized"
  const STATES := {OBSERVED, "provider_unavailable", NOT_AUTHORIZED, "validation_failed", "environment_mismatch"}

  const NATIVE := "native_mcp"
  const API := "api_driver"
  const BRIDGE := "local_bridge"

  const SOURCE_OF := map[
    NATIVE := "native_mcp_safe_read", API := "api_driver_safe_probe", BRIDGE := "local_bridge_safe_probe"
  ]

  const MUTATIONS := {
    "approve", "attach", "create", "delete", "invite", "payment", "post", "remove", "send", "share", "update",
    "upload", "void"
  }

  type ModeName = m: string | m in SOURCE_OF witness API

  /** One connection mode in the catalog; `bound` holds the capabilities that name
      at least one provider action. */
  datatype Mode = Mode(environments: set<string>, status: string, capabilitySource: string, bound: set<string>)
  datatype Connector = Connector(status: string, modes: map<ModeName, Mode>)
  type Catalog = map<string, Connector>

  datatype Key = Key(connector: string, mode: string, environment: string)

  /** A time is the instant its text denotes; None is a text that denotes none. */
  datatype Evidence = Evidence(states: map<string, string>, source: Option<string>, at: Option<int>)

  const NOTHING := Evidence(map[], None, None)

  /** What the redaction of public values puts in place of a state. */
  const REDACTED := "[REDACTED]"

  datatype Status = NeedsValidation | RequiresLocalSetup | RequiresAuthorization | ReadyReadOnly | ReadyReadWrite

  datatype Profile = Profile(evidence: Evidence, status: Status)
  type Profiles = map<Key, Profile>

  datatype Error =
    | UnknownConnector | UnsupportedMode | UnsupportedEnvironment
    | ServerNameRequired | ServerNameIsAddress | ServerNameNotStored
    | SourceMismatch | InvalidReference | InvalidStates | UndeclaredCapability | InvalidTime
    | NotLinked | RefusedByTable

  datatype ServerName = ServerName(safe: bool, address: bool)

  datatype Op =
    | Link(key: Key, server: Option<ServerName>)
    | Setup(connector: string, environment: string)
    | Validate(key: Key, evidence: Evidence, goodReference: bool)
    | Unlink(key: Key)
  {
    function Target(): Key { if Setup? then Key(connector, API, environment) else key }
  }

  // ---- sanitising and status ----

  function SafeStates(states: map<string, string>): map<string, string>
  {
    map name | name in states && CapabilityKeys.Safe(name) && states[name] in STATES :: states[name]
  }

  function SafeEvidence(e: Evidence): Evidence
  {
    var source := if e.source.Some? && e.source.value in SOURCE_OF.Values then e.source else None;
    Evidence(SafeStates(e.states), source, e.at)
  }

  predicate IsMutation(capability: string)
  {
    exists i :: 0 <= i < |Split(capability, '.')| && Split(capability, '.')[i] in MUTATIONS
  }

  predicate Offers(catalog: Catalog, connector: string, mode: string)
  {
    connector in catalog && mode in catalog[connector].modes
  }

  function ModeOf(catalog: Catalog, connector: string, mode: string): Mode
    requires Offers(catalog, connector, mode)
  {
    catalog[connector].modes[mode]
  }

  predicate Discovers(m: Mode) { m.capabilitySource == "discovered_tools" }

  predicate AllObserved(states: map<string, string>)
  {
    forall name :: name in states ==> states[name] == OBSERVED
  }

  predicate AllBound(m: Mode, states: map<string, string>)
  {
    Discovers(m) || forall name :: name in states && states[name] == OBSERVED ==> name in m.bound
  }

  predicate ReviewedMutation(catalog: Catalog, connector: string, mode: string, states: map<string, string>)
    requires Offers(catalog, connector, mode)
  {
    var m := ModeOf(catalog, connector, mode);
    && catalog[connector].status == "available"
    && mode == API && m.status == "reviewed" && m.capabilitySource == "reviewed_api_catalog"
    && exists name :: name in states && states[name] == OBSERVED && IsMutation(name) && name in m.bound
  }

  function StatusOf(catalog: Catalog, connector: string, mode: string, given: Evidence): Status
  {
    var e := SafeEvidence(given);
    if !Offers(catalog, connector, mode) then NeedsValidation
    else if e.source != Some(SOURCE_OF[mode]) || e.at.None? || e.states == map[] then
      if mode == BRIDGE then RequiresLocalSetup else NeedsValidation
    else if NOT_AUTHORIZED in e.states.Values then RequiresAuthorization
    else if !AllObserved(e.states) || !AllBound(ModeOf(catalog, connector, mode), e.states) then NeedsValidation
    else if mode == NATIVE then
      if Discovers(ModeOf(catalog, connector, mode)) || exists name :: name in e.states && !IsMutation(name)
      then ReadyReadOnly else NeedsValidation
    else if ReviewedMutation(catalog, connector, mode, e.states) then ReadyReadWrite
    else ReadyReadOnly
  }

  predicate Ready(s: Status) { s == ReadyReadOnly || s == ReadyReadWrite }

  lemma SafeTwice(e: Evidence)
    ensures SafeEvidence(SafeEvidence(e)) == SafeEvidence(e)
  {
    assert SafeStates(SafeStates(e.states)) == SafeStates(e.states);
  }

  // ---- redaction ----

  /** The redaction of a mapping whose values are states or redacted already; it goes
      by the name, and no such value makes the mapping a header description. */
  function Redact(states: map<string, string>): map<string, string>
  {
    map name | name in states :: if CapabilityKeys.Redacted(name) then REDACTED else states[name]
  }

  function Spared(states: map<string, string>): map<string, string>
  {
    map name | name in states && !CapabilityKeys.Redacted(name) :: states[name]
  }

  /** The evidence without the capabilities whose names are redacted. */
  function SparedEvidence(e: Evidence): Evidence { e.(states := Spared(e.states)) }

  /** A profile as it is shown: filtered, then redacted. */
  function Public(p: Profile): Profile
  {
    var e := SafeEvidence(p.evidence);
    p.(evidence := e.(states := Redact(e.states)))
  }

  /** The profile as one store keeps it: the log loses what is redacted. */
  function Kept(table: bool, p: Profile): Profile
  {
    if table then p else p.(evidence := SparedEvidence(p.evidence))
  }

  lemma RedactedIsNoState()
    ensures REDACTED !in STATES
  {
    assert REDACTED[0] == '[';
    assert forall state :: state in STATES ==> state[0] != '[';
  }

  lemma RedactedAreDropped(states: map<string, string>)
    requires SafeStates(states) == states
    ensures SafeStates(Redact(states)) == Spared(states)
    ensures Redact(Spared(states)) == Spared(states)
  {
    RedactedIsNoState();
    assert forall name :: name in states ==> CapabilityKeys.Safe(name) && states[name] in STATES;
    assert forall name :: name in Redact(states) <==> name in states;
  }

  /** What is written in public form and read in public form has lost exactly the
      capabilities whose names are redacted. */
  lemma PublicTwice(p: Profile)
    requires SafeEvidence(p.evidence) == p.evidence
    ensures Public(Public(p)) == Kept(false, p)
  {
    RedactedAreDropped(p.evidence.states);
  }

  lemma SparedIsSafe(e: Evidence)
    requires SafeEvidence(e) == e
    ensures SafeEvidence(SparedEvidence(e)) == SparedEvidence(e)
    ensures SparedEvidence(SparedEvidence(e)) == SparedEvidence(e)
  {
    assert SafeStates(e.states) == e.states;
    assert SafeStates(Spared(e.states)) == Spared(e.states);
    assert Spared(Spared(e.states)) == Spared(e.states);
  }

  // ---- one call ----

  function Fault(catalog: Catalog, key: Key): Option<Error>
  {
    if key.connector !in catalog then Some(UnknownConnector)
    else if key.mode !in catalog[key.connector].modes then Some(UnsupportedMode)
    else if key.environment !in ModeOf(catalog, key.connector, key.mode).environments then Some(UnsupportedEnvironment)
    else None
  }

  function ServerFault(mode: string, server: Option<ServerName>): Option<Error>
  {
    if mode == NATIVE && (server.None? || !server.value.safe) then Some(ServerNameRequired)
    else if mode == NATIVE && server.value.address then Some(ServerNameIsAddress)
    else if mode == BRIDGE && server.Some? then Some(ServerNameNotStored)
    else None
  }

  /** Some mode of the connector supports the environment. */
  predicate SomewhereSupported(connector: Connector, environment: string)
  {
    exists mode :: mode in connector.modes && environment in connector.modes[mode].environments
  }

  function EvidenceFault(catalog: Catalog, key: Key, e: Evidence, goodReference: bool): Option<Error>
    requires Fault(catalog, key).None?
  {
    var m := ModeOf(catalog, key.connector, key.mode);
    if e.source != Some(SOURCE_OF[key.mode]) then Some(SourceMismatch)
    else if !goodReference then Some(InvalidReference)
    else if e.states == map[] || SafeStates(e.states) != e.states then Some(InvalidStates)
    else if !Discovers(m) && exists name :: name in e.states && name !in m.bound then Some(UndeclaredCapability)
    else if e.at.None? then Some(InvalidTime)
    else None
  }

  /** Evidence that validation lets through for the key. */
  predicate Accepted(catalog: Catalog, key: Key, e: Evidence)
  {
    Fault(catalog, key).None? && EvidenceFault(catalog, key, e, true).None?
  }

  /** Some capability was tried, all were seen to work and, where a native server's tools come from
      the catalog, one of them only reads. */
  predicate Passing(catalog: Catalog, key: Key, states: map<string, string>)
  {
    && Offers(catalog, key.connector, key.mode) && states != map[] && AllObserved(states)
    && (key.mode == NATIVE && !Discovers(ModeOf(catalog, key.connector, key.mode)) ==>
          exists name :: name in states && !IsMutation(name))
  }

  predicate Writes(catalog: Catalog, key: Key, states: map<string, string>)
  {
    Offers(catalog, key.connector, key.mode) && ReviewedMutation(catalog, key.connector, key.mode, states)
  }

  /** Evidence of the right source and time whose capabilities are the key's own. */
  predicate Credible(catalog: Catalog, key: Key, e: Evidence)
  {
    && Offers(catalog, key.connector, key.mode) && SafeEvidence(e) == e
    && e.source == Some(SOURCE_OF[key.mode]) && e.at.Some?
    && AllBound(ModeOf(catalog, key.connector, key.mode), e.states)
  }

  /** The states alone decide the status of credible evidence. */
  lemma CredibleStatus(catalog: Catalog, key: Key, e: Evidence)
    requires Credible(catalog, key, e)
    ensures Ready(Made(catalog, key, e).status) <==> Passing(catalog, key, e.states)
    ensures Made(catalog, key, e).status == ReadyReadWrite <==>
              AllObserved(e.states) && Writes(catalog, key, e.states)
  {
    if NOT_AUTHORIZED in e.states.Values {
      var name :| name in e.states && e.states[name] == NOT_AUTHORIZED;
      assert NOT_AUTHORIZED != OBSERVED;
    }
  }

  /** An accepted validation's evidence is credible, and stays so without the
      capabilities whose names are redacted. */
  lemma AcceptedIsCredible(catalog: Catalog, key: Key, e: Evidence)
    requires Accepted(catalog, key, e)
    ensures Credible(catalog, key, e) && Credible(catalog, key, SparedEvidence(e))
  {
    assert SafeEvidence(e) == e;
    SparedIsSafe(e);
  }

  predicate TableTakes(states: map<string, string>)
  {
    forall name :: name in states ==> CapabilityKeys.TableSafe(name)
  }

  function Made(catalog: Catalog, key: Key, e: Evidence): Profile
  {
    Profile(e, StatusOf(catalog, key.connector, key.mode, e))
  }

  /** A profile's evidence after a write: cleared, replaced, or what it was. */
  function Resolved(profiles: Profiles, key: Key, given: Option<Evidence>, reset: bool): Evidence
  {
    if reset then NOTHING
    else if given.Some? then SafeEvidence(given.value)
    else if key in profiles then SafeEvidence(profiles[key].evidence)
    else NOTHING
  }

  function Configured(catalog: Catalog, table: bool, profiles: Profiles, key: Key, given: Option<Evidence>,
                      reset: bool): (Profiles, Result<Option<Profile>, Error>)
  {
    if Fault(catalog, key).Some? then (profiles, Err(Fault(catalog, key).value))
    else
      var e := Resolved(profiles, key, given, reset);
      var made := Made(catalog, key, e);
      if table && !TableTakes(e.states) then (profiles, Err(RefusedByTable))
      else (profiles[key := Kept(table, made)], Ok(Some(Public(made))))
  }

  /** One call on a store that keeps product tables, or an event log. */
  function Applied(catalog: Catalog, table: bool, profiles: Profiles, op: Op):
    (Profiles, Result<Option<Profile>, Error>)
  {
    match op
    case Link(key, server) =>
      if Fault(catalog, key).Some? then (profiles, Err(Fault(catalog, key).value))
      else if ServerFault(key.mode, server).Some? then (profiles, Err(ServerFault(key.mode, server).value))
      else Configured(catalog, table, profiles, key, None, true)
    case Setup(connector, environment) =>
      if connector !in catalog then (profiles, Err(UnknownConnector))
      else if !SomewhereSupported(catalog[connector], environment) then (profiles, Err(UnsupportedEnvironment))
      else Configured(catalog, table, profiles, op.Target(), None, false)
    case Validate(key, e, goodReference) =>
      if Fault(catalog, key).Some? then (profiles, Err(Fault(catalog, key).value))
      else if EvidenceFault(catalog, key, e, goodReference).Some? then
        (profiles, Err(EvidenceFault(catalog, key, e, goodReference).value))
      else if key !in profiles then (profiles, Err(NotLinked))
      else Configured(catalog, table, profiles, key, Some(e), false)
    case Unlink(key) =>
      if Fault(catalog, key).Some? then (profiles, Err(Fault(catalog, key).value))
      else (profiles - {key}, Ok(None))
  }

  // ---- runs ----

  datatype Entry = Entry(op: Op, answer: Result<Option<Profile>, Error>)
  {
    /** A successful call on `k` other than a setup: it settles what the key holds. */
    predicate Settles(k: Key) { answer.Ok? && op.Target() == k && !op.Setup? }
  }

  function After(catalog: Catalog, table: bool, ops: seq<Op>): Profiles
  {
    if ops == [] then map[]
    else Applied(catalog, table, After(catalog, table, ops[..|ops| - 1]), ops[|ops| - 1]).0
  }

  /** The calls of a run with their answers. */
  function History(catalog: Catalog, table: bool, ops: seq<Op>): (entries: seq<Entry>)
    ensures |entries| == |ops|
    ensures forall i :: 0 <= i < |ops| ==> entries[i].op == ops[i]
  {
    if ops == [] then []
    else
      var before, op := ops[..|ops| - 1], ops[|ops| - 1];
      History(catalog, table, before) + [Entry(op, Applied(catalog, table, After(catalog, table, before), op).1)]
  }

  /** Entry `i` is the last to settle the key. */
  predicate Decides(entries: seq<Entry>, key: Key, i: nat)
  {
    i < |entries| && entries[i].Settles(key) && forall j :: i < j < |entries| ==> !entries[j].Settles(key)
  }

  /** Call `i` settled the key last, and it is a validation. */
  predicate ValidatedLast(entries: seq<Entry>, key: Key, i: nat)
  {
    Decides(entries, key, i) && entries[i].op.Validate?
  }

  lemma DecidesStep(entries: seq<Entry>, last: Entry, key: Key, i: nat)
    requires i < |entries|
    ensures Decides(entries + [last], key, i) <==> Decides(entries, key, i) && !last.Settles(key)
  {
    var all := entries + [last];
    assert all[|entries|] == last;
    assert forall j :: 0 <= j < |entries| ==> all[j] == entries[j];
  }

  /** A setup succeeded on the key after call `i`. */
  predicate SetUpAfter(entries: seq<Entry>, key: Key, i: nat)
  {
    exists j :: i < j < |entries| && entries[j].answer.Ok? && entries[j].op.Setup? && entries[j].op.Target() == key
  }

  lemma SetUpStep(entries: seq<Entry>, last: Entry, key: Key, i: nat)
    requires i < |entries|
    ensures SetUpAfter(entries + [last], key, i) <==>
              SetUpAfter(entries, key, i) || (last.answer.Ok? && last.op.Setup? && last.op.Target() == key)
  {
    var all, n := entries + [last], |entries|;
    assert all[n] == last && forall j :: 0 <= j < n ==> all[j] == entries[j];
  }

  /** The evidence a status was last computed from: on the log, a setup computes it
      anew from what the fold has kept. */
  function Judged(table: bool, entries: seq<Entry>, key: Key, i: nat): Evidence
    requires i < |entries| && entries[i].op.Validate?
  {
    var e := entries[i].op.evidence;
    if !table && SetUpAfter(entries, key, i) then SparedEvidence(e) else e
  }

  /** What one call does to one key. */
  ghost predicate Effect(catalog: Catalog, table: bool, profiles: Profiles, after: Profiles, entry: Entry, key: Key)
  {
    if entry.answer.Err? || entry.op.Target() != key then
      (key in after <==> key in profiles) && (key in after ==> after[key] == profiles[key])
    else match entry.op
      case Link(_, _) => key in after && after[key] == Kept(table, Made(catalog, key, NOTHING))
      case Validate(_, e, _) =>
        Accepted(catalog, key, e) && key in after && after[key] == Kept(table, Made(catalog, key, e))
      case Unlink(_) => key !in after
      case Setup(_, _) =>
        key in after && after[key] == Kept(table, Made(catalog, key, Resolved(profiles, key, None, false)))
  }

  lemma AppliedHasEffect(catalog: Catalog, table: bool, profiles: Profiles, op: Op, key: Key)
    ensures var (after, answer) := Applied(catalog, table, profiles, op);
            Effect(catalog, table, profiles, after, Entry(op, answer), key)
  {
    if op.Validate? && Fault(catalog, key).None? && SafeStates(op.evidence.states) == op.evidence.states {
      assert op.evidence.source == Some(SOURCE_OF[key.mode]) ==> SafeEvidence(op.evidence) == op.evidence;
    }
  }

  /** What the deciding call left, if a call decides at all. */
  ghost predicate Traced(catalog: Catalog, table: bool, after: Profiles, entries: seq<Entry>, key: Key)
  {
    && (forall i: nat :: ValidatedLast(entries, key, i) ==>
          && Accepted(catalog, key, entries[i].op.evidence) && key in after
          && after[key] == Kept(table, Made(catalog, key, Judged(table, entries, key, i))))
    && (key in after && after[key] != Made(catalog, key, NOTHING) ==>
          exists i: nat :: ValidatedLast(entries, key, i))
  }

  lemma NothingIsKept(catalog: Catalog, table: bool, key: Key)
    ensures SafeEvidence(NOTHING) == NOTHING == SparedEvidence(NOTHING)
    ensures Kept(table, Made(catalog, key, NOTHING)) == Made(catalog, key, NOTHING)
    ensures !Ready(Made(catalog, key, NOTHING).status)
  {
    assert SafeStates(map[]) == map[] == Spared(map[]);
  }

  /** A setup keeps the evidence and judges what is left of it. */
  lemma SetupJudges(catalog: Catalog, table: bool, profiles: Profiles, key: Key, e: Evidence, judged: Evidence)
    requires SafeEvidence(e) == e && (judged == e || (!table && judged == SparedEvidence(e)))
    requires key in profiles && profiles[key] == Kept(table, Made(catalog, key, judged))
    ensures Kept(table, Made(catalog, key, Resolved(profiles, key, None, false))) ==
            Kept(table, Made(catalog, key, if table then e else SparedEvidence(e)))
  {
    SparedIsSafe(e);
  }

  lemma TracedStep(catalog: Catalog, table: bool, before: Profiles, after: Profiles, entries: seq<Entry>, last: Entry,
                   key: Key)
    requires Traced(catalog, table, before, entries, key)
    requires Effect(catalog, table, before, after, last, key)
    ensures Traced(catalog, table, after, entries + [last], key)
  {
    var all, n := entries + [last], |entries|;
    NothingIsKept(catalog, table, key);
    forall i: nat | i < n
      ensures Decides(all, key, i) <==> Decides(entries, key, i) && !last.Settles(key)
      ensures SetUpAfter(all, key, i) <==>
                SetUpAfter(entries, key, i) || (last.answer.Ok? && last.op.Setup? && last.op.Target() == key)
      ensures all[i] == entries[i]
    {
      DecidesStep(entries, last, key, i);
      SetUpStep(entries, last, key, i);
    }
    assert all[n] == last && !SetUpAfter(all, key, n);
    if last.Settles(key) {
      assert Decides(all, key, n) && (last.op.Validate? ==> ValidatedLast(all, key, n));
    } else if i: nat :| ValidatedLast(entries, key, i) {
      assert ValidatedLast(all, key, i);
      TracedKept(catalog, table, before, after, entries, last, key, i);
      forall j: nat | ValidatedLast(all, key, j) ensures j == i {
        DecidesOnce(all, key, i, j);
      }
    }
  }

  lemma TracedKept(catalog: Catalog, table: bool, before: Profiles, after: Profiles, entries: seq<Entry>, last: Entry,
                   key: Key, i: nat)
    requires ValidatedLast(entries, key, i) && !last.Settles(key)
    requires Traced(catalog, table, before, entries, key)
    requires Effect(catalog, table, before, after, last, key)
    ensures key in after
    ensures after[key] == Kept(table, Made(catalog, key, Judged(table, entries + [last], key, i)))
  {
    var e := entries[i].op.evidence;
    SetUpStep(entries, last, key, i);
    AcceptedIsCredible(catalog, key, e);
    assert (entries + [last])[i] == entries[i];
    if last.answer.Ok? && last.op.Target() == key {
      SetupJudges(catalog, table, before, key, e, Judged(table, entries, key, i));
    }
  }

  /** Every profile is the work of the last successful call on its key that was not a
      setup, and only a validation leaves evidence. */
  lemma {:induction false} HistoryDecides(catalog: Catalog, table: bool, ops: seq<Op>, key: Key)
    ensures Traced(catalog, table, After(catalog, table, ops), History(catalog, table, ops), key)
  {
    if ops != [] {
      var before, op := ops[..|ops| - 1], ops[|ops| - 1];
      var profiles := After(catalog, table, before);
      HistoryDecides(catalog, table, before, key);
      AppliedHasEffect(catalog, table, profiles, op, key);
      TracedStep(catalog, table, profiles, After(catalog, table, ops), History(catalog, table, before),
                 Entry(op, Applied(catalog, table, profiles, op).1), key);
    }
  }

  lemma DecidesOnce(entries: seq<Entry>, key: Key, i: nat, j: nat)
    requires Decides(entries, key, i) && Decides(entries, key, j)
    ensures i == j
  {
  }

  lemma TracedIsReady(catalog: Catalog, table: bool, after: Profiles, entries: seq<Entry>, key: Key, i: nat)
    requires Traced(catalog, table, after, entries, key) && ValidatedLast(entries, key, i)
    ensures var judged := Judged(table, entries, key, i);
            && key in after
            && (Ready(after[key].status) <==> Passing(catalog, key, judged.states))
            && (after[key].status == ReadyReadWrite <==>
                  AllObserved(judged.states) && Writes(catalog, key, judged.states))
            && after[key].evidence == if table then entries[i].op.evidence else SparedEvidence(entries[i].op.evidence)
  {
    var e := entries[i].op.evidence;
    AcceptedIsCredible(catalog, key, e);
    SparedIsSafe(e);
    CredibleStatus(catalog, key, Judged(table, entries, key, i));
  }

  ghost predicate PassedLast(catalog: Catalog, table: bool, entries: seq<Entry>, key: Key)
  {
    exists i: nat :: ValidatedLast(entries, key, i) && Passing(catalog, key, Judged(table, entries, key, i).states)
  }

  ghost predicate WritesLast(catalog: Catalog, table: bool, entries: seq<Entry>, key: Key)
  {
    exists i: nat :: ValidatedLast(entries, key, i) && AllObserved(Judged(table, entries, key, i).states) &&
                     Writes(catalog, key, Judged(table, entries, key, i).states)
  }

  lemma TracedExactly(catalog: Catalog, table: bool, after: Profiles, entries: seq<Entry>, key: Key)
    requires Traced(catalog, table, after, entries, key)
    ensures (key in after && Ready(after[key].status)) <==> PassedLast(catalog, table, entries, key)
    ensures (key in after && after[key].status == ReadyReadWrite) <==> WritesLast(catalog, table, entries, key)
  {
    if i: nat :| ValidatedLast(entries, key, i) {
      TracedIsReady(catalog, table, after, entries, key, i);
      forall j: nat | ValidatedLast(entries, key, j) ensures i == j {
        DecidesOnce(entries, key, i, j);
      }
    } else {
      NothingIsKept(catalog, table, key);
      assert key in after ==> after[key] == Made(catalog, key, NOTHING);
    }
  }

  /** What every run leaves at a key: ready exactly when the call that settled it last
      is a validation whose judged states all pass, ready for writing exactly when
      they hold a reviewed mutation. The table carries that validation's evidence; the
      log carries it without the capabilities whose names are redacted, and after a
      setup judges only those. */
  lemma ReadyExactly(catalog: Catalog, table: bool, ops: seq<Op>, key: Key)
    ensures var after, entries := After(catalog, table, ops), History(catalog, table, ops);
            && ((key in after && Ready(after[key].status)) <==> PassedLast(catalog, table, entries, key))
            && ((key in after && after[key].status == ReadyReadWrite) <==> WritesLast(catalog, table, entries, key))
            && (forall i: nat :: ValidatedLast(entries, key, i) ==>
                  && key in after
                  && after[key].evidence == if table then ops[i].evidence else SparedEvidence(ops[i].evidence))
  {
    var after, entries := After(catalog, table, ops), History(catalog, table, ops);
    HistoryDecides(catalog, table, ops, key);
    TracedExactly(catalog, table, after, entries, key);
    forall i: nat | ValidatedLast(entries, key, i)
      ensures key in after
      ensures after[key].evidence == if table then ops[i].evidence else SparedEvidence(ops[i].evidence)
    {
      TracedIsReady(catalog, table, after, entries, key, i);
    }
  }

  // ---- the two stores ----

  /** Names that the table takes and the redaction spares. */
  predicate Unproblematic(states: map<string, string>)
  {
    forall name :: name in states ==> CapabilityKeys.TableSafe(name) && !CapabilityKeys.Redacted(name)
  }

  ghost predicate Clean(profiles: Profiles)
  {
    forall key :: key in profiles ==> Unproblematic(profiles[key].evidence.states)
  }

  /** An acceptable validation of an existing profile with a problematic name. */
  predicate Splits(catalog: Catalog, profiles: Profiles, op: Op)
  {
    && op.Validate? && op.goodReference && op.key in profiles
    && Accepted(catalog, op.key, op.evidence) && !Unproblematic(op.evidence.states)
  }

  lemma CleanIsKept(catalog: Catalog, key: Key, e: Evidence)
    requires Unproblematic(e.states)
    ensures SparedEvidence(e) == e && TableTakes(e.states)
    ensures Unproblematic(SafeEvidence(e).states)
  {
    assert Spared(e.states) == e.states;
  }

  lemma UnproblematicWrite(catalog: Catalog, profiles: Profiles, key: Key, given: Option<Evidence>, reset: bool)
    requires Clean(profiles) && (given.Some? ==> Unproblematic(given.value.states))
    ensures Configured(catalog, true, profiles, key, given, reset) ==
            Configured(catalog, false, profiles, key, given, reset)
    ensures Clean(Configured(catalog, true, profiles, key, given, reset).0)
  {
    var e := Resolved(profiles, key, given, reset);
    if given.Some? {
      CleanIsKept(catalog, key, given.value);
    }
    if key in profiles {
      CleanIsKept(catalog, key, profiles[key].evidence);
    }
    assert Unproblematic(e.states);
    CleanIsKept(catalog, key, e);
  }

  lemma ProblematicWrite(catalog: Catalog, profiles: Profiles, key: Key, e: Evidence)
    requires Accepted(catalog, key, e) && !Unproblematic(e.states)
    ensures !TableTakes(e.states) ==>
              Configured(catalog, true, profiles, key, Some(e), false) == (profiles, Err(RefusedByTable))
    ensures TableTakes(e.states) ==>
              && Configured(catalog, true, profiles, key, Some(e), false).0 == profiles[key := Made(catalog, key, e)]
              && Configured(catalog, false, profiles, key, Some(e), false).0 ==
                   profiles[key := Kept(false, Made(catalog, key, e))]
    ensures Configured(catalog, true, profiles, key, Some(e), false) !=
            Configured(catalog, false, profiles, key, Some(e), false)
  {
    AcceptedIsCredible(catalog, key, e);
    if TableTakes(e.states) {
      var name :| name in e.states && CapabilityKeys.Redacted(name);
      assert name !in Spared(e.states);
      assert profiles[key := Made(catalog, key, e)][key] != profiles[key := Kept(false, Made(catalog, key, e))][key];
    }
  }

  /** On equal profiles the two stores do the same with a call unless it is an
      acceptable validation with a problematic name; then the table refuses it, or
      both accept it and the log loses the redacted names. */
  lemma StepsAgreeExactly(catalog: Catalog, profiles: Profiles, op: Op)
    requires Clean(profiles)
    ensures Applied(catalog, true, profiles, op) == Applied(catalog, false, profiles, op) <==>
              !Splits(catalog, profiles, op)
    ensures !Splits(catalog, profiles, op) ==> Clean(Applied(catalog, true, profiles, op).0)
  {
    match op
    case Link(key, _) => UnproblematicWrite(catalog, profiles, key, None, true);
    case Setup(_, _) => UnproblematicWrite(catalog, profiles, op.Target(), None, false);
    case Validate(key, e, _) =>
      if Splits(catalog, profiles, op) {
        ProblematicWrite(catalog, profiles, key, e);
      } else if Unproblematic(e.states) {
        UnproblematicWrite(catalog, profiles, key, Some(e), false);
      }
    case Unlink(_) =>
  }

  /** No call of the run is one that splits the stores. */
  ghost predicate NeverSplits(catalog: Catalog, ops: seq<Op>)
  {
    forall i :: 0 <= i < |ops| ==> !Splits(catalog, After(catalog, true, ops[..i]), ops[i])
  }

  /** Equal answers to every call, and equal profiles before and after each. */
  ghost predicate SameThroughout(catalog: Catalog, ops: seq<Op>)
  {
    && History(catalog, true, ops) == History(catalog, false, ops)
    && forall n :: 0 <= n <= |ops| ==> After(catalog, true, ops[..n]) == After(catalog, false, ops[..n])
  }

  lemma PrefixOfPrefix(ops: seq<Op>, n: nat)
    requires n <= |ops|
    ensures forall i :: 0 <= i <= n ==> ops[..n][..i] == ops[..i]
    ensures forall i :: 0 <= i < n ==> ops[..n][i] == ops[i]
  {
  }

  lemma {:induction false} RunsAgree(catalog: Catalog, ops: seq<Op>)
    requires NeverSplits(catalog, ops)
    ensures SameThroughout(catalog, ops) && Clean(After(catalog, true, ops))
  {
    if ops != [] {
      var n := |ops| - 1;
      var before := ops[..n];
      PrefixOfPrefix(ops, n);
      RunsAgree(catalog, before);
      StepsAgreeExactly(catalog, After(catalog, true, before), ops[n]);
      assert After(catalog, true, before[..n]) == After(catalog, false, before[..n]) && before[..n] == before;
      AgreeingStep(catalog, ops);
    }
  }

  lemma AgreeingStep(catalog: Catalog, ops: seq<Op>)
    requires ops != [] && SameThroughout(catalog, ops[..|ops| - 1])
    requires var profiles, op := After(catalog, true, ops[..|ops| - 1]), ops[|ops| - 1];
             Applied(catalog, true, profiles, op) == Applied(catalog, false, profiles, op)
    ensures SameThroughout(catalog, ops)
  {
    var n := |ops| - 1;
    PrefixOfPrefix(ops, n);
    assert ops[..n][..n] == ops[..n] && ops[..n + 1] == ops;
    forall k | 0 <= k <= |ops| ensures After(catalog, true, ops[..k]) == After(catalog, false, ops[..k]) {
      if k <= n {
        assert ops[..n][..k] == ops[..k];
      }
    }
  }

  lemma {:induction false} AgreementShows(catalog: Catalog, ops: seq<Op>)
    requires SameThroughout(catalog, ops)
    ensures NeverSplits(catalog, ops)
  {
    if ops != [] {
      var n := |ops| - 1;
      var before := ops[..n];
      PrefixOfPrefix(ops, n);
      assert History(catalog, true, ops)[..n] == History(catalog, true, before);
      assert History(catalog, false, ops)[..n] == History(catalog, false, before);
      AgreementShows(catalog, before);
      RunsAgree(catalog, before);
      assert After(catalog, true, ops[..n]) == After(catalog, false, ops[..n]);
      assert ops[..n + 1] == ops;
      assert History(catalog, true, ops)[n] == History(catalog, false, ops)[n];
      StepsAgreeExactly(catalog, After(catalog, true, before), ops[n]);
    }
  }

  /** Both stores give every call the same answer and hold the same profiles
      throughout a run exactly when no call of it is an acceptable validation of an
      existing profile with a name that the table refuses or the redaction hits. */
  lemma RunsAgreeExactly(catalog: Catalog, ops: seq<Op>)
    ensures SameThroughout(catalog, ops) <==> NeverSplits(catalog, ops)
  {
    if NeverSplits(catalog, ops) {
      RunsAgree(catalog, ops);
    } else if SameThroughout(catalog, ops) {
      AgreementShows(catalog, ops);
    }
  }

  // ---- runs on which they differ ----

  /** The catalog's connector for a server that the user supplies. */
  const GENERIC := map[
    "generic_mcp" := Connector("user_supplied",
                               map[NATIVE := Mode({"user_supplied"}, "user_supplied", "discovered_tools", {})])
  ]

  const SERVER := Key("generic_mcp", NATIVE, "user_supplied")

  /** Evidence that one tool was seen to work. */
  function Seen(name: string): Evidence { Evidence(map[name := OBSERVED], Some("native_mcp_safe_read"), Some(0)) }

  function LinkThenValidate(name: string): seq<Op>
  {
    [Link(SERVER, Some(ServerName(true, false))), Validate(SERVER, Seen(name), true)]
  }

  lemma SeenIsAccepted(name: string)
    requires CapabilityKeys.Safe(name)
    ensures Accepted(GENERIC, SERVER, Seen(name)) && SafeEvidence(Seen(name)) == Seen(name)
    ensures Made(GENERIC, SERVER, Seen(name)).status == ReadyReadOnly
  {
    assert name in Seen(name).states;
    assert SafeStates(Seen(name).states) == Seen(name).states;
    CredibleStatus(GENERIC, SERVER, Seen(name));
  }

  lemma AfterLinkThenValidate(table: bool, name: string)
    requires CapabilityKeys.Safe(name)
    ensures var ops, made := LinkThenValidate(name), Made(GENERIC, SERVER, Seen(name));
            if table && !CapabilityKeys.TableSafe(name) then
              && History(GENERIC, table, ops)[1].answer == Err(RefusedByTable)
              && SERVER in After(GENERIC, table, ops)
              && After(GENERIC, table, ops)[SERVER] == Made(GENERIC, SERVER, NOTHING)
            else
              && History(GENERIC, table, ops)[1].answer == Ok(Some(Public(made)))
              && SERVER in After(GENERIC, table, ops)
              && After(GENERIC, table, ops)[SERVER] == Kept(table, made)
  {
    var ops := LinkThenValidate(name);
    SeenIsAccepted(name);
    NothingIsKept(GENERIC, table, SERVER);
    assert ops[..1] == [ops[0]] && ops[..1][..0] == [];
    var linked := Applied(GENERIC, table, map[], ops[0]).0;
    assert linked == map[SERVER := Made(GENERIC, SERVER, NOTHING)];
    assert After(GENERIC, table, ops[..1]) == linked;
    assert name in Seen(name).states && (TableTakes(Seen(name).states) <==> CapabilityKeys.TableSafe(name));
  }

  /** On `api.key` the log ends ready and the table refuses the validation. */
  lemma StoresCanDiffer()
    ensures var ops := LinkThenValidate(CapabilityKeys.GAP);
            && History(GENERIC, true, ops)[1].answer == Err(RefusedByTable)
            && History(GENERIC, false, ops)[1].answer.Ok?
            && SERVER in After(GENERIC, false, ops) && After(GENERIC, false, ops)[SERVER].status == ReadyReadOnly
            && SERVER in After(GENERIC, true, ops) && After(GENERIC, true, ops)[SERVER].status == NeedsValidation
  {
    CapabilityKeys.FiltersDiffer();
    SeenIsAccepted(CapabilityKeys.GAP);
    AfterLinkThenValidate(true, CapabilityKeys.GAP);
    AfterLinkThenValidate(false, CapabilityKeys.GAP);
    NothingIsKept(GENERIC, true, SERVER);
    assert SafeStates(NOTHING.states) == map[];
  }

  /** On `cookie` both stores accept the validation and end ready, with equal answers;
      the table holds the capability and the log holds none. */
  lemma RedactionLosesNames()
    ensures var ops := LinkThenValidate(CapabilityKeys.COOKIE);
            && History(GENERIC, true, ops)[1].answer == History(GENERIC, false, ops)[1].answer
            && SERVER in After(GENERIC, true, ops) && SERVER in After(GENERIC, false, ops)
            && After(GENERIC, true, ops)[SERVER].status == ReadyReadOnly
            && After(GENERIC, false, ops)[SERVER].status == ReadyReadOnly
            && After(GENERIC, true, ops)[SERVER].evidence.states == map[CapabilityKeys.COOKIE := OBSERVED]
            && After(GENERIC, false, ops)[SERVER].evidence.states == map[]
  {
    CapabilityKeys.CookieSlipsThrough();
    SeenIsAccepted(CapabilityKeys.COOKIE);
    AfterLinkThenValidate(true, CapabilityKeys.COOKIE);
    AfterLinkThenValidate(false, CapabilityKeys.COOKIE);
    assert Spared(map[CapabilityKeys.COOKIE := OBSERVED]) == map[];
  }
}
